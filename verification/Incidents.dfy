/** The per-site store: one tick at a time, incidents and rolled-up state kept beside the tick log. */
module Incidents {
  import opened Wrappers

  datatype CheckError = CheckError(checkType: string, message: string)

  datatype Tick = Tick(
    ts: int, up: bool, statusCode: int, responseMs: int,
    failedChecks: seq<string>, error: string, errors: seq<CheckError>,
    sslChecked: bool, sslExpiresAt: int)

  datatype Transition = Transition(
    incidentOpened: bool, incidentResolved: bool, incidentId: int,
    consecutiveFailures: int, up: bool, error: string,
    sslChecked: bool, sslExpiresAt: int)

  datatype CheckRow = CheckRow(
    ts: int, up: bool, statusCode: int, responseMs: Option<int>,
    failedChecks: Option<string>, error: Option<string>)

  /** A row of `incidents`. Rows are never deleted, so the row at index k has id k + 1. */
  datatype IncidentRow = IncidentRow(startedAt: int, resolvedAt: Option<int>, cause: Option<string>)

  datatype ErrorRow = ErrorRow(ts: int, checkType: string, message: string)

  datatype SiteState = SiteState(
    lastCheckTs: Option<int>, currentUp: Option<bool>, currentIncidentId: Option<int>,
    sslExpiresAt: Option<int>, sslLastChecked: Option<int>, consecutiveFailures: int)

  datatype SiteDb = SiteDb(
    checks: seq<CheckRow>, incidents: seq<IncidentRow>, errors: seq<ErrorRow>, state: SiteState)

  /** A store as the migrations leave it for a new site. */
  const FRESH := SiteDb([], [], [], SiteState(None, None, None, None, None, 0))

  // --- one tick ---

  function NullString(s: string): Option<string> { if s == "" then None else Some(s) }

  function JoinComma(parts: seq<string>): string {
    if |parts| == 0 then "" else if |parts| == 1 then parts[0] else parts[0] + "," + JoinComma(parts[1..])
  }

  function CheckRowOf(t: Tick): CheckRow {
    CheckRow(t.ts, t.up, t.statusCode, Some(t.responseMs), NullString(JoinComma(t.failedChecks)), NullString(t.error))
  }

  function ErrorRows(ts: int, errors: seq<CheckError>): (rows: seq<ErrorRow>)
    ensures |rows| == |errors|
  {
    seq(|errors|, i requires 0 <= i < |errors| => ErrorRow(ts, errors[i].checkType, errors[i].message))
  }

  /** `UPDATE incidents SET resolved_at = ts WHERE id = id`: no row, no change. */
  function Resolve(rows: seq<IncidentRow>, id: int, ts: int): (r: seq<IncidentRow>)
    ensures |r| == |rows|
  {
    if 1 <= id <= |rows| then rows[id - 1 := rows[id - 1].(resolvedAt := Some(ts))] else rows
  }

  predicate Opens(db: SiteDb, t: Tick) { !t.up && db.state.currentUp != Some(false) }

  predicate Recovers(db: SiteDb, t: Tick) { t.up && db.state.currentUp == Some(false) }

  predicate Resolves(db: SiteDb, t: Tick) { Recovers(db, t) && db.state.currentIncidentId.Some? }

  /** What one committed `RecordTick` leaves in the store, and the transition it reports. */
  function Recorded(db: SiteDb, t: Tick): (r: (SiteDb, Transition)) {
    var fails := if t.up then 0 else db.state.consecutiveFailures + 1;
    var opens, resolves := Opens(db, t), Resolves(db, t);
    var incidents :=
      if opens then db.incidents + [IncidentRow(t.ts, None, NullString(t.error))]
      else if resolves then Resolve(db.incidents, db.state.currentIncidentId.value, t.ts)
      else db.incidents;
    var current :=
      if opens then Some(|db.incidents| + 1)
      else if Recovers(db, t) then None
      else db.state.currentIncidentId;
    var state := db.state.(
      lastCheckTs := Some(t.ts), currentUp := Some(t.up),
      currentIncidentId := current, consecutiveFailures := fails);
    var state' :=
      if t.sslChecked
      then state.(sslExpiresAt := if t.sslExpiresAt > 0 then Some(t.sslExpiresAt) else None, sslLastChecked := Some(t.ts))
      else state;
    (SiteDb(db.checks + [CheckRowOf(t)], incidents, db.errors + ErrorRows(t.ts, t.errors), state'),
     Transition(opens, resolves,
                if opens then |db.incidents| + 1 else if resolves then db.state.currentIncidentId.value else 0,
                fails, t.up, t.error, t.sslChecked, t.sslExpiresAt))
  }

  /** Statements a tick's transaction runs: begin, insert, select, incident write if any, errors, update, commit. */
  function Statements(db: SiteDb, t: Tick): nat {
    (if Opens(db, t) || Resolves(db, t) then 4 else 3) + |t.errors| + 2
  }

  class SiteStore {
    var checks: seq<CheckRow>
    var incidents: seq<IncidentRow>
    var errors: seq<ErrorRow>
    var state: SiteState

    function Db(): SiteDb
      reads this
    {
      SiteDb(checks, incidents, errors, state)
    }

    constructor ()
      ensures Db() == FRESH
    {
      checks, incidents, errors, state := FRESH.checks, FRESH.incidents, FRESH.errors, FRESH.state;
    }

    /** Statement number `failAt` of the transaction fails; from `Statements` on, none does. */
    method RecordTick(t: Tick, failAt: nat) returns (r: Result<Transition>)
      modifies this
      ensures r.Failure? <==> failAt < Statements(old(Db()), t)
      ensures r.Failure? ==> Db() == old(Db())
      ensures r.Success? ==> (Db(), r.value) == Recorded(old(Db()), t)
    {
      var tr := Transition(false, false, 0, 0, t.up, t.error, t.sslChecked, t.sslExpiresAt);
      if failAt == 0 { return Failure; }  // begin
      if failAt == 1 { return Failure; }
      var txChecks := checks + [CheckRowOf(t)];
      if failAt == 2 { return Failure; }
      var curUp, curIncId, curFails := state.currentUp, state.currentIncidentId, state.consecutiveFailures;

      var fails := 0;
      if !t.up { fails := curFails + 1; }
      tr := tr.(consecutiveFailures := fails);

      var done := 3;
      var txIncidents := incidents;
      if !t.up && (curUp.None? || curUp.value) {
        if failAt == done { return Failure; }
        done := done + 1;
        txIncidents := txIncidents + [IncidentRow(t.ts, None, NullString(t.error))];
        var id := |txIncidents|;
        curIncId := Some(id);
        tr := tr.(incidentOpened := true, incidentId := id);
      } else if t.up && curUp.Some? && !curUp.value {
        if curIncId.Some? {
          if failAt == done { return Failure; }
          done := done + 1;
          txIncidents := Resolve(txIncidents, curIncId.value, t.ts);
          tr := tr.(incidentResolved := true, incidentId := curIncId.value);
        }
        curIncId := None;
      }

      var txErrors := errors;
      var i := 0;
      while i < |t.errors|
        invariant 0 <= i <= |t.errors|
        invariant txErrors == errors + ErrorRows(t.ts, t.errors)[..i]
        invariant failAt >= done + i
        invariant unchanged(this)
      {
        if failAt == done + i { return Failure; }
        txErrors := txErrors + [ErrorRow(t.ts, t.errors[i].checkType, t.errors[i].message)];
        i := i + 1;
      }
      done := done + i;
      assert ErrorRows(t.ts, t.errors)[..i] == ErrorRows(t.ts, t.errors);

      if failAt == done { return Failure; }
      var txState := state.(lastCheckTs := Some(t.ts), currentUp := Some(t.up),
                            currentIncidentId := curIncId, consecutiveFailures := fails);
      if t.sslChecked {
        var expires := None;
        if t.sslExpiresAt > 0 { expires := Some(t.sslExpiresAt); }
        txState := txState.(sslExpiresAt := expires, sslLastChecked := Some(t.ts));
      }

      if failAt == done + 1 { return Failure; }
      checks, incidents, errors, state := txChecks, txIncidents, txErrors, txState;  // commit
      return Success(tr);
    }
  }

  // --- a whole history of ticks ---

  /** The store after a history of committed ticks. */
  function Run(ticks: seq<Tick>): (db: SiteDb) {
    if ticks == [] then FRESH else Recorded(Run(ticks[..|ticks| - 1]), ticks[|ticks| - 1]).0
  }

  /** The transition reported by the last tick of a history. */
  function LastTransition(ticks: seq<Tick>): (tr: Transition)
    requires ticks != []
  {
    Recorded(Run(ticks[..|ticks| - 1]), ticks[|ticks| - 1]).1
  }

  /** Incidents ever opened. */
  function Opened(ticks: seq<Tick>): (n: nat) { |Run(ticks).incidents| }

  /** Length of the down run that ends the history, 0 when it ends up. */
  function Streak(ticks: seq<Tick>): (n: nat)
    ensures n <= |ticks|
    ensures forall i | |ticks| - n <= i < |ticks| :: !ticks[i].up
    ensures n < |ticks| ==> ticks[|ticks| - n - 1].up
  {
    if ticks == [] || ticks[|ticks| - 1].up then 0 else Streak(ticks[..|ticks| - 1]) + 1
  }

  /** `[first, end)` is a down run that cannot be extended on either side. */
  ghost predicate MaximalRun(ticks: seq<Tick>, first: int, end: int) {
    && 0 <= first < end <= |ticks|
    && (forall i | first <= i < end :: !ticks[i].up)
    && (first == 0 || ticks[first - 1].up)
    && (end == |ticks| || ticks[end].up)
  }

  datatype Outage = Outage(first: nat, end: nat)

  /** The listing after one more tick, the n-th (from 0). */
  function Extended(os: seq<Outage>, n: nat, up: bool): seq<Outage> {
    if up then os
    else if os != [] && os[|os| - 1].end == n then os[..|os| - 1] + [os[|os| - 1].(end := n + 1)]
    else os + [Outage(n, n + 1)]
  }

  /** A listing of the maximal runs, see `OutagesAreMaximalRuns`. */
  function Outages(ticks: seq<Tick>): (os: seq<Outage>) {
    if ticks == [] then []
    else Extended(Outages(ticks[..|ticks| - 1]), |ticks| - 1, ticks[|ticks| - 1].up)
  }

  /** A listing within n ticks, of which the last `streak` were down. */
  ghost predicate EndsWith(os: seq<Outage>, n: nat, streak: nat) {
    && (forall k | 0 <= k < |os| :: os[k].first < os[k].end <= n)
    && (streak > 0 <==> os != [] && os[|os| - 1].end == n)
    && (streak > 0 ==> os[|os| - 1].first == n - streak)
  }

  lemma {:induction false} ExtendedEnds(os: seq<Outage>, n: nat, up: bool, streak: nat)
    requires EndsWith(os, n, streak)
    ensures EndsWith(Extended(os, n, up), n + 1, if up then 0 else streak + 1)
  {
  }

  lemma {:induction false} OutagesEnd(ticks: seq<Tick>)
    ensures EndsWith(Outages(ticks), |ticks|, Streak(ticks))
  {
    if ticks != [] {
      var n := |ticks| - 1;
      OutagesEnd(ticks[..n]);
      ExtendedEnds(Outages(ticks[..n]), n, ticks[n].up, Streak(ticks[..n]));
    }
  }

  /** Where the listing ends: its last outage reaches the end exactly while the history ends down. */
  lemma {:induction false} LastOutage(ticks: seq<Tick>)
    ensures forall k | 0 <= k < |Outages(ticks)| :: Outages(ticks)[k].first < Outages(ticks)[k].end <= |ticks|
    ensures Streak(ticks) > 0 <==> Outages(ticks) != [] && Outages(ticks)[|Outages(ticks)| - 1].end == |ticks|
    ensures Streak(ticks) > 0 ==> Outages(ticks)[|Outages(ticks)| - 1].first == |ticks| - Streak(ticks)
  {
    OutagesEnd(ticks);
  }

  lemma {:induction false} OutagesOrdered(ticks: seq<Tick>)
    ensures forall k, l | 0 <= k < l < |Outages(ticks)| :: Outages(ticks)[k].end < Outages(ticks)[l].first
  {
    if ticks != [] {
      var before := ticks[..|ticks| - 1];
      OutagesOrdered(before);
      LastOutage(before);
      var os, os' := Outages(before), Outages(ticks);
      forall k, l | 0 <= k < l < |os'| ensures os'[k].end < os'[l].first {
        if l < |os| { assert os[k].end < os[l].first; }
        else if k < |os| - 1 { assert os[k].end < os[|os| - 1].first; }
      }
    }
  }

  /** How one more tick changes which stretches are maximal runs. */
  lemma MaximalRunStep(ticks: seq<Tick>, first: nat, end: nat)
    requires ticks != []
    ensures var n, before := |ticks| - 1, ticks[..|ticks| - 1];
      && (MaximalRun(before, first, end) && (end < n || ticks[n].up) ==> MaximalRun(ticks, first, end))
      && (MaximalRun(before, first, n) && !ticks[n].up ==> MaximalRun(ticks, first, n + 1))
      && (MaximalRun(ticks, first, end) && end <= n ==> MaximalRun(before, first, end))
  {
  }

  lemma {:induction false} OutagesSound(ticks: seq<Tick>, k: nat)
    requires k < |Outages(ticks)|
    ensures MaximalRun(ticks, Outages(ticks)[k].first, Outages(ticks)[k].end)
  {
    var n := |ticks| - 1;
    var before := ticks[..n];
    var os := Outages(before);
    assert Outages(ticks) == Extended(os, n, ticks[n].up);
    OutagesEnd(before);
    if k < |os| {
      OutagesSound(before, k);
      OutagesOrdered(before);
      assert k < |os| - 1 ==> os[k].end < os[|os| - 1].first;
      MaximalRunStep(ticks, os[k].first, os[k].end);
    } else {
      NewRun(ticks);
    }
  }

  /** A down tick that no down tick precedes is a run of its own. */
  lemma {:induction false} NewRun(ticks: seq<Tick>)
    requires ticks != [] && !ticks[|ticks| - 1].up && Streak(ticks[..|ticks| - 1]) == 0
    ensures MaximalRun(ticks, |ticks| - 1, |ticks|)
  {
    var n := |ticks| - 1;
    if n > 0 { assert ticks[..n][n - 1].up; }
  }

  lemma {:induction false} OutagesComplete(ticks: seq<Tick>, first: nat, end: nat) returns (k: nat)
    requires MaximalRun(ticks, first, end)
    ensures k < |Outages(ticks)| && Outages(ticks)[k] == Outage(first, end)
  {
    var n := |ticks| - 1;
    if end <= n {
      MaximalRunStep(ticks, first, end);
      k := OutagesComplete(ticks[..n], first, end);
    } else {
      LastOutage(ticks);
      k := |Outages(ticks)| - 1;
    }
  }

  /** The listing has every maximal run exactly once, in order, with an up tick between neighbours. */
  lemma OutagesAreMaximalRuns(ticks: seq<Tick>)
    ensures forall o | o in Outages(ticks) :: MaximalRun(ticks, o.first, o.end)
    ensures forall i: nat, j: nat | MaximalRun(ticks, i, j) :: Outage(i, j) in Outages(ticks)
    ensures forall k, l | 0 <= k < l < |Outages(ticks)| :: Outages(ticks)[k].end < Outages(ticks)[l].first
  {
    OutagesOrdered(ticks);
    forall o | o in Outages(ticks) ensures MaximalRun(ticks, o.first, o.end) {
      var k :| 0 <= k < |Outages(ticks)| && Outages(ticks)[k] == o;
      OutagesSound(ticks, k);
    }
    forall i: nat, j: nat | MaximalRun(ticks, i, j) ensures Outage(i, j) in Outages(ticks) { var k := OutagesComplete(ticks, i, j); }
  }

  /** The row the `incidents` table holds for an outage. */
  function RowFor(ticks: seq<Tick>, o: Outage): IncidentRow
    requires o.first < o.end <= |ticks|
  {
    IncidentRow(ticks[o.first].ts,
                if o.end < |ticks| then Some(ticks[o.end].ts) else None,
                NullString(ticks[o.first].error))
  }

  /** The rolled-up state row summarises the history. */
  ghost predicate StateSummarises(ticks: seq<Tick>) {
    var db := Run(ticks);
    && db.state.currentUp == (if ticks == [] then None else Some(ticks[|ticks| - 1].up))
    && db.state.consecutiveFailures == Streak(ticks)
    && db.state.currentIncidentId == (if Streak(ticks) > 0 then Some(Opened(ticks)) else None)
  }

  /** `strings.Join`: one part after the other, a comma between two. */
  lemma {:induction false} JoinCommaParts(parts: seq<string>, last: string)
    ensures JoinComma([]) == ""
    ensures JoinComma(parts + [last]) == if parts == [] then last else JoinComma(parts) + "," + last
  {
    var all := parts + [last];
    if |parts| > 0 {
      assert all[0] == parts[0] && all[1..] == parts[1..] + [last];
      JoinCommaParts(parts[1..], last);
      if |parts| > 1 {
        assert JoinComma(all) == parts[0] + "," + (JoinComma(parts[1..]) + "," + last);
        assert JoinComma(parts) == parts[0] + "," + JoinComma(parts[1..]);
      }
    }
  }

  /** The tick log keeps every tick, in order and column by column; an empty text is stored as NULL. */
  lemma {:induction false} LogIsComplete(ticks: seq<Tick>)
    ensures |Run(ticks).checks| == |ticks|
    ensures forall i | 0 <= i < |ticks| ::
      var row, t := Run(ticks).checks[i], ticks[i];
      && row.ts == t.ts && row.up == t.up && row.statusCode == t.statusCode && row.responseMs == Some(t.responseMs)
      && row.failedChecks == (if JoinComma(t.failedChecks) == "" then None else Some(JoinComma(t.failedChecks)))
      && row.error == (if t.error == "" then None else Some(t.error))
  {
    if ticks != [] { LogIsComplete(ticks[..|ticks| - 1]); }
  }

  /** Failing checks of the ticks before number n. */
  function ErrorsBefore(ticks: seq<Tick>, n: nat): (k: nat)
    requires n <= |ticks|
  {
    if n == 0 then 0 else ErrorsBefore(ticks, n - 1) + |ticks[n - 1].errors|
  }

  lemma {:induction false} ErrorsBeforePrefix(ticks: seq<Tick>, m: nat, n: nat)
    requires n <= m <= |ticks|
    ensures ErrorsBefore(ticks[..m], n) == ErrorsBefore(ticks, n)
    ensures n < m ==> ErrorsBefore(ticks, n) + |ticks[n].errors| <= ErrorsBefore(ticks, m)
    decreases m + n
  {
    if n > 0 { ErrorsBeforePrefix(ticks, m, n - 1); }
    if n + 1 < m { ErrorsBeforePrefix(ticks, m - 1, n); }
  }

  lemma {:induction false} ErrorsCounted(ticks: seq<Tick>)
    ensures |Run(ticks).errors| == ErrorsBefore(ticks, |ticks|)
  {
    if ticks != [] {
      var n := |ticks| - 1;
      ErrorsCounted(ticks[..n]);
      ErrorsBeforePrefix(ticks, n, n);
    }
  }

  /** Failing check j of tick i has its errors row, in order; `ErrorsCounted`: there are no others. */
  lemma {:induction false} ErrorsAreLogged(ticks: seq<Tick>, i: nat, j: nat)
    requires i < |ticks| && j < |ticks[i].errors|
    ensures ErrorsBefore(ticks, i) + j < |Run(ticks).errors|
    ensures Run(ticks).errors[ErrorsBefore(ticks, i) + j] == ErrorRow(ticks[i].ts, ticks[i].errors[j].checkType, ticks[i].errors[j].message)
  {
    var n := |ticks| - 1;
    var before, t := ticks[..n], ticks[n];
    assert Run(ticks).errors == Run(before).errors + ErrorRows(t.ts, t.errors);
    ErrorsBeforePrefix(ticks, n, i);
    if i < n { ErrorsAreLogged(before, i, j); } else { ErrorsCounted(before); }
  }

  /** The state row dates the last tick, and holds what the last tick that checked the certificate found. */
  lemma {:induction false} StateRemembersCertificate(ticks: seq<Tick>, j: int)
    requires -1 <= j < |ticks| && (j >= 0 ==> ticks[j].sslChecked) && forall i | j < i < |ticks| :: !ticks[i].sslChecked
    ensures var st := Run(ticks).state;
      && (ticks != [] ==> st.lastCheckTs == Some(ticks[|ticks| - 1].ts))
      && st.sslLastChecked == (if j < 0 then None else Some(ticks[j].ts))
      && st.sslExpiresAt == (if j < 0 || ticks[j].sslExpiresAt <= 0 then None else Some(ticks[j].sslExpiresAt))
  {
    if ticks != [] {
      var n := |ticks| - 1;
      assert Run(ticks) == Recorded(Run(ticks[..n]), ticks[n]).0;
      if j < n { StateRemembersCertificate(ticks[..n], j); }
    }
  }

  lemma {:induction false} StateIsSummary(ticks: seq<Tick>)
    ensures StateSummarises(ticks)
    ensures Opened(ticks) == |Outages(ticks)|
  {
    if ticks != [] {
      var before, t := ticks[..|ticks| - 1], ticks[|ticks| - 1];
      StateIsSummary(before);
      LastOutage(before);
      assert Run(ticks) == Recorded(Run(before), t).0;
    }
  }

  /** One more tick changes an incident that is there only by resolving the open one. */
  lemma {:induction false} IncidentStep(ticks: seq<Tick>, k: nat)
    requires ticks != [] && k < Opened(ticks[..|ticks| - 1])
    ensures var before, t := ticks[..|ticks| - 1], ticks[|ticks| - 1];
      var row := Run(before).incidents[k];
      && Opened(before) <= Opened(ticks)
      && Run(ticks).incidents[k] ==
           if t.up && Streak(before) > 0 && k == Opened(before) - 1 then row.(resolvedAt := Some(t.ts)) else row
  {
    StateIsSummary(ticks[..|ticks| - 1]);
  }

  /** The row an outage calls for after one more tick, which may extend it or end it. */
  lemma {:induction false} RowStep(ticks: seq<Tick>, o: Outage)
    requires ticks != [] && o.first < o.end < |ticks|
    ensures var n := |ticks| - 1;
      var row := RowFor(ticks[..n], o);
      && RowFor(ticks, o) == (if o.end == n then row.(resolvedAt := Some(ticks[n].ts)) else row)
      && (o.end == n ==> RowFor(ticks, o.(end := n + 1)) == row)
  {
  }

  /** What one more tick makes of the k-th outage. */
  lemma {:induction false} OutageStep(ticks: seq<Tick>, k: nat)
    requires ticks != [] && k < |Outages(ticks[..|ticks| - 1])|
    ensures var n, os := |ticks| - 1, Outages(ticks[..|ticks| - 1]);
      && |os| <= |Outages(ticks)| && os[k].first < os[k].end <= n
      && (os[k].end == n <==> k == |os| - 1 && Streak(ticks[..n]) > 0)
      && Outages(ticks)[k] == if os[k].end == n && !ticks[n].up then os[k].(end := n + 1) else os[k]
  {
    var n := |ticks| - 1;
    var os := Outages(ticks[..n]);
    OutagesEnd(ticks[..n]);
    OutagesOrdered(ticks[..n]);
    if k < |os| - 1 { assert os[k].end < os[|os| - 1].first < os[|os| - 1].end; }
  }

  /** The row of an incident a tick opens. */
  lemma {:induction false} NewIncident(ticks: seq<Tick>)
    requires ticks != [] && Opened(ticks) > Opened(ticks[..|ticks| - 1])
    ensures var n := |ticks| - 1;
      && Opened(ticks) == |Outages(ticks)| == Opened(ticks[..n]) + 1
      && Outages(ticks)[Opened(ticks) - 1] == Outage(n, n + 1)
      && Run(ticks).incidents[Opened(ticks) - 1] == IncidentRow(ticks[n].ts, None, NullString(ticks[n].error))
  {
    var n := |ticks| - 1;
    StateIsSummary(ticks[..n]);
    StateIsSummary(ticks);
    OutagesEnd(ticks[..n]);
  }

  lemma {:induction false} IncidentIsOutage(ticks: seq<Tick>, k: nat)
    requires k < Opened(ticks) == |Outages(ticks)|
    requires Outages(ticks)[k].first < Outages(ticks)[k].end <= |ticks|
    ensures Run(ticks).incidents[k] == RowFor(ticks, Outages(ticks)[k])
  {
    var n := |ticks| - 1;
    var before := ticks[..n];
    StateIsSummary(before);
    if k < Opened(before) {
      var o := Outages(before)[k];
      OutageStep(ticks, k);
      IncidentIsOutage(before, k);
      IncidentStep(ticks, k);
      RowStep(ticks, o);
    } else {
      IncidentsGrow(ticks);
      NewIncident(ticks);
    }
  }

  lemma {:induction false} IncidentsGrow(ticks: seq<Tick>)
    requires ticks != []
    ensures Opened(ticks[..|ticks| - 1]) <= Opened(ticks) <= Opened(ticks[..|ticks| - 1]) + 1
  {
  }

  /** Incidents are the maximal down runs: same number, same order, start = first down, end = next up, cause = first error. */
  lemma IncidentsAreOutages(ticks: seq<Tick>)
    ensures StateSummarises(ticks)
    ensures Opened(ticks) == |Outages(ticks)|
    ensures forall k | 0 <= k < |Outages(ticks)| :: Outages(ticks)[k].first < Outages(ticks)[k].end <= |ticks|
    ensures forall k | 0 <= k < Opened(ticks) :: Run(ticks).incidents[k] == RowFor(ticks, Outages(ticks)[k])
    ensures forall k | 0 <= k < Opened(ticks) ::
      var row, o := Run(ticks).incidents[k], Outages(ticks)[k];
      && row.startedAt == ticks[o.first].ts
      && row.resolvedAt == (if o.end < |ticks| then Some(ticks[o.end].ts) else None)
      && row.cause == (if ticks[o.first].error == "" then None else Some(ticks[o.first].error))
  {
    StateIsSummary(ticks);
    LastOutage(ticks);
    forall k | 0 <= k < Opened(ticks) ensures Run(ticks).incidents[k] == RowFor(ticks, Outages(ticks)[k]) {
      IncidentIsOutage(ticks, k);
    }
  }

  /** An incident is open exactly when the last tick was down, and then it is the newest one. */
  lemma {:induction false} OpenIffDown(ticks: seq<Tick>, k: nat)
    requires k < Opened(ticks)
    ensures Run(ticks).incidents[k].resolvedAt.None? <==> k == Opened(ticks) - 1 && !ticks[|ticks| - 1].up
  {
    IncidentsAreOutages(ticks);
    LastOutage(ticks);
    OutagesOrdered(ticks);
    var os := Outages(ticks);
    if k < |os| - 1 { assert os[k].end < os[|os| - 1].first; }
  }

  ghost predicate NonDecreasing(ticks: seq<Tick>) {
    forall i, j | 0 <= i < j < |ticks| :: ticks[i].ts <= ticks[j].ts
  }

  /** With a clock that does not go back, incidents are disjoint, ordered, and last a nonnegative time. */
  lemma {:induction false} IncidentsDisjoint(ticks: seq<Tick>, k: nat)
    requires NonDecreasing(ticks) && k < Opened(ticks)
    ensures var row := Run(ticks).incidents[k];
      && (row.resolvedAt.Some? ==> row.startedAt <= row.resolvedAt.value)
      && (k + 1 < Opened(ticks) ==> row.resolvedAt.Some? && row.resolvedAt.value <= Run(ticks).incidents[k + 1].startedAt)
  {
    IncidentsAreOutages(ticks);
    OutagesAreMaximalRuns(ticks);
    if k + 1 < Opened(ticks) { assert Outages(ticks)[k].end < Outages(ticks)[k + 1].first; }
  }

  // --- the transitions a history reports ---

  /** What a reported transition says about the store it came from: the field alerting keys on is 0 from the second failure on. */
  lemma {:induction false} TransitionFacts(ticks: seq<Tick>)
    requires ticks != []
    ensures var tr := LastTransition(ticks);
      && tr.consecutiveFailures == Streak(ticks)
      && tr.up == ticks[|ticks| - 1].up
      && (tr.incidentOpened <==> Streak(ticks) == 1)
      && (tr.incidentResolved <==> tr.up && Streak(ticks[..|ticks| - 1]) > 0)
      && tr.incidentId == (if tr.incidentOpened || tr.incidentResolved then Opened(ticks) else 0)
      && Opened(ticks) == Opened(ticks[..|ticks| - 1]) + (if tr.incidentOpened then 1 else 0)
      && tr.error == ticks[|ticks| - 1].error
      && tr.sslChecked == ticks[|ticks| - 1].sslChecked && tr.sslExpiresAt == ticks[|ticks| - 1].sslExpiresAt
  {
    StateIsSummary(ticks[..|ticks| - 1]);
  }

  datatype Edge = OpenedEdge(id: int) | ResolvedEdge(id: int)

  function EdgeOf(tr: Transition): seq<Edge> {
    if tr.incidentOpened then [OpenedEdge(tr.incidentId)]
    else if tr.incidentResolved then [ResolvedEdge(tr.incidentId)]
    else []
  }

  /** The opened/resolved edges reported over a history. */
  function Edges(ticks: seq<Tick>): (es: seq<Edge>) {
    if ticks == [] then [] else Edges(ticks[..|ticks| - 1]) + EdgeOf(LastTransition(ticks))
  }

  /** Edges alternate open 1, resolve 1, open 2, resolve 2, ... and end on an open one exactly while the site is down. */
  lemma {:induction false} EdgesAlternate(ticks: seq<Tick>)
    ensures forall k | 0 <= k < |Edges(ticks)| ::
      Edges(ticks)[k] == if k % 2 == 0 then OpenedEdge(k / 2 + 1) else ResolvedEdge(k / 2 + 1)
    ensures |Edges(ticks)| == 2 * Opened(ticks) - (if Streak(ticks) > 0 then 1 else 0)
  {
    if ticks != [] {
      EdgesAlternate(ticks[..|ticks| - 1]);
      TransitionFacts(ticks);
    }
  }

  // --- listing incidents ---

  datatype Incident = Incident(id: int, startedAt: int, resolvedAt: Option<int>, cause: string, duration: Option<int>)

  /** `ORDER BY id DESC LIMIT limit`; a negative limit is no limit. */
  method ListIncidents(rows: seq<IncidentRow>, limit: int) returns (out: seq<Incident>)
    ensures |out| == if 0 <= limit <= |rows| then limit else |rows|
    ensures forall i | 0 <= i < |out| ::
      var row := rows[|rows| - 1 - i];
      && out[i].id == |rows| - i && out[i].startedAt == row.startedAt && out[i].resolvedAt == row.resolvedAt
      && out[i].cause == (if row.cause.None? then "" else row.cause.value)
      && out[i].duration == if row.resolvedAt.None? then None else Some(row.resolvedAt.value - row.startedAt)
  {
    out := [];
    var n := if 0 <= limit <= |rows| then limit else |rows|;
    while |out| < n
      invariant |out| <= n <= |rows|
      invariant forall i | 0 <= i < |out| ::
        var row := rows[|rows| - 1 - i];
        && out[i].id == |rows| - i && out[i].startedAt == row.startedAt && out[i].resolvedAt == row.resolvedAt
        && out[i].cause == (if row.cause.None? then "" else row.cause.value)
        && out[i].duration == if row.resolvedAt.None? then None else Some(row.resolvedAt.value - row.startedAt)
    {
      var row := rows[|rows| - 1 - |out|];
      var inc := Incident(|rows| - |out|, row.startedAt, None, row.cause.GetOr(""), None);
      if row.resolvedAt.Some? {
        inc := inc.(resolvedAt := row.resolvedAt, duration := Some(row.resolvedAt.value - row.startedAt));
      }
      out := out + [inc];
    }
  }
}
