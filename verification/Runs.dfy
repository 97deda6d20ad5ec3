/** The documented promise over the runs of the concurrent system that lose and fail nothing: exactly when it is kept. */
module Runs {
  import opened Keys
  import opened Incidents
  import opened Alerting
  import opened Ledger
  import opened Promise
  import opened Protocol
  import opened Safety
  import opened Steady
  import opened Solo
  import E = Exactness
  import Origins
  import AnyOrder
  import Pairing
  import opened SiteOrder

  /** A run from empty stores that loses and fails nothing and ends with everything handled. */
  ghost predicate Complete(o: Options, cfg: Config, steps: seq<Step>) {
    LosslessRun(o, Start(o, cfg), steps) && Quiet(Exec(o, Start(o, cfg), steps))
  }

  function RowsOf(o: Options, cfg: Config, steps: seq<Step>, kind: Kind, s: string, c: int): (rs: seq<Claim>) {
    Rows(Claims(Exec(o, Start(o, cfg), steps).ledger), kind, s, c)
  }

  function Zero(k: nat): int { 0 }

  /** The ticks a run commits for a site. */
  function TicksBy(steps: seq<Step>, s: string): (ticks: seq<Tick>) { E.TicksOf(TraceOf(steps, Zero), s) }

  lemma {:induction false} TicksAnyClock(a: seq<E.Step>, b: seq<E.Step>, steps: seq<Step>, s: string, clock: nat -> int, clock': nat -> int)
    requires E.TicksOf(a, s) == E.TicksOf(b, s)
    ensures E.TicksOf(TraceFrom(a, steps, clock), s) == E.TicksOf(TraceFrom(b, steps, clock'), s)
    decreases |steps|
  {
    if steps != [] {
      if steps[0].Commit? {
        var st := steps[0];
        TicksSnoc(a, E.Step(st.site, st.tick, st.warnDays, clock(|a|)), s);
        TicksSnoc(b, E.Step(st.site, st.tick, st.warnDays, clock'(|b|)), s);
      }
      TicksAnyClock(Traced(a, steps[0], clock), Traced(b, steps[0], clock'), steps[1..], s, clock, clock');
    }
  }

  lemma {:induction false} RunSound(o: Options, cfg: Config, steps: seq<Step>)
    ensures Sound(Claims(Exec(o, Start(o, cfg), steps).ledger))
  {
    StartSafe(o, cfg);
    SafeExec(o, Start(o, cfg), steps);
  }

  lemma {:induction false} RunStores(o: Options, cfg: Config, steps: seq<Step>, s: string)
    ensures StoreOf(Exec(o, Start(o, cfg), steps).stores, s) == Run(TicksBy(steps, s))
  {
    assert FRESH == Run([]);
    assert Follows(Start(o, cfg), []);
    RunFollows(o, Start(o, cfg), [], steps, Zero);
  }

  // --- any number of workers ---

  /** DOWN rows are those of in-order dispatch, whatever the workers do. */
  lemma {:induction false} DownRowsOfRun(o: Options, cfg: Config, steps: seq<Step>, s: string, c: int)
    requires Complete(o, cfg, steps)
    ensures var ns := E.DownNumbers(TicksBy(steps, s), E.Thresholds(cfg, s, c), false);
      Numbers(RowsOf(o, cfg, steps, SiteDown, s, c)) == ns && |RowsOf(o, cfg, steps, SiteDown, s, c)| == |ns|
  {
    var claims := Claims(Exec(o, Start(o, cfg), steps).ledger);
    RunSound(o, cfg, steps);
    RowsCount(claims, SiteDown, s, c);
    var ns := E.DownNumbers(TicksBy(steps, s), E.Thresholds(cfg, s, c), false);
    forall n ensures n in Numbers(Rows(claims, SiteDown, s, c)) <==> n in ns {
      NumbersAreKeys(claims, SiteDown, s, n, c);
      AnyOrder.DownKeysOfRun(o, cfg, steps, Zero, s, n, c);
    }
  }

  /** A recovery has its row, and a row that announced its outage. */
  lemma {:induction false} RecoveryRow(ledger: seq<Delivery>, s: string, n: int, c: int) returns (i: nat)
    requires RecoveriesAnnounced(ledger) && n in Numbers(Rows(Claims(ledger), SiteRecovered, s, c))
    ensures n in Numbers(Rows(Claims(ledger), SiteDown, s, c))
    ensures i < |ledger| && ledger[i].claim.kind == SiteRecovered && ledger[i].claim.site == s && ledger[i].claim.incidentId.GetOr(0) == n
  {
    var claims := Claims(ledger);
    var r :| r in Rows(claims, SiteRecovered, s, c) && r.incidentId.GetOr(0) == n;
    i :| 0 <= i < |claims| && claims[i] == r;
    assert ledger[i].claim == r && AnnouncedBefore(ledger, i, s, n, c);
    var j :| 0 <= j < i && j < |ledger| && IsRow(ledger[j].claim, SiteDown, s, c) && ledger[j].claim.incidentId.GetOr(0) == n;
    assert claims[j] == ledger[j].claim && claims[j] in Rows(claims, SiteDown, s, c);
  }

  lemma {:induction false} RecoveryIsOver(o: Options, cfg: Config, steps: seq<Step>, s: string, i: nat)
    requires var ledger := Exec(o, Start(o, cfg), steps).ledger;
      i < |ledger| && ledger[i].claim.kind == SiteRecovered && ledger[i].claim.site == s
    ensures Exec(o, Start(o, cfg), steps).ledger[i].claim.incidentId.GetOr(0) in E.Over(TicksBy(steps, s))
  {
    RunStores(o, cfg, steps, s);
    Origins.RowsNameIncidents(o, cfg, steps, i);
    OverAreResolved(TicksBy(steps, s), Exec(o, Start(o, cfg), steps).ledger[i].claim.incidentId.GetOr(0));
  }

  /** RECOVERED rows name only outages that were announced and are over. */
  lemma {:induction false} RecoveriesOfRun(o: Options, cfg: Config, steps: seq<Step>, s: string, c: int)
    requires Complete(o, cfg, steps)
    ensures Numbers(RowsOf(o, cfg, steps, SiteRecovered, s, c)) <=
      E.DownNumbers(TicksBy(steps, s), E.Thresholds(cfg, s, c), false) * E.Over(TicksBy(steps, s))
  {
    DownRowsOfRun(o, cfg, steps, s, c);
    StartSafe(o, cfg);
    SafeExec(o, Start(o, cfg), steps);
    var downs, over := Numbers(RowsOf(o, cfg, steps, SiteDown, s, c)), E.Over(TicksBy(steps, s));
    forall n | n in Numbers(RowsOf(o, cfg, steps, SiteRecovered, s, c)) ensures n in downs * over {
      var i := RecoveryRow(Exec(o, Start(o, cfg), steps).ledger, s, n, c);
      RecoveryIsOver(o, cfg, steps, s, i);
    }
  }

  /** Threshold 1 only: DOWN rows are exactly the incidents opened, RECOVERED rows name only resolved ones. */
  lemma {:induction false} ThresholdOneOnRuns(o: Options, cfg: Config, steps: seq<Step>, s: string, c: int)
    requires Complete(o, cfg, steps) && E.Thresholds(cfg, s, c) == {1}
    ensures Numbers(RowsOf(o, cfg, steps, SiteDown, s, c)) == UpTo(Opened(TicksBy(steps, s)))
    ensures |RowsOf(o, cfg, steps, SiteDown, s, c)| == Opened(TicksBy(steps, s))
    ensures Numbers(RowsOf(o, cfg, steps, SiteRecovered, s, c)) <= E.Over(TicksBy(steps, s))
  {
    DownRowsOfRun(o, cfg, steps, s, c);
    RecoveriesOfRun(o, cfg, steps, s, c);
    OneCounts(TicksBy(steps, s), {1});
  }

  /** One DOWN row per confirmed outage of the run. */
  ghost predicate MailPerOutage(o: Options, cfg: Config, steps: seq<Step>, s: string, c: int) {
    |RowsOf(o, cfg, steps, SiteDown, s, c)| == |E.Confirmed(TicksBy(steps, s), E.Thresholds(cfg, s, c))|
  }

  lemma {:induction false} MailPerOutageIsInOrder(o: Options, cfg: Config, steps: seq<Step>, s: string, c: int)
    requires Complete(o, cfg, steps)
    ensures MailPerOutage(o, cfg, steps, s, c) <==> OneMailPerOutage(cfg, TraceOf(steps, Zero), s, c)
  {
    DownRowsOfRun(o, cfg, steps, s, c);
    MailsFromHistory(cfg, TraceOf(steps, Zero), false, s, c);
  }

  /** Every trace is committed by some complete run that submits in order. */
  lemma {:induction false} RunOfTrace(o: Options, cfg: Config, trace: seq<E.Step>, s: string) returns (steps: seq<Step>)
    requires o.capacity > 0 && o.workers > 0
    ensures Complete(o, cfg, steps) && InOrder(steps) && TicksBy(steps, s) == E.TicksOf(trace, s)
  {
    var clock := (k: nat) => if k < |trace| then trace[k].now else 0;
    steps := TraceIsARun(o, cfg, trace, clock);
    TicksAnyClock([], [], steps, s, clock, Zero);
  }

  lemma {:induction false} PromiseBroken(o: Options, cfg: Config, s: string, c: int) returns (steps: seq<Step>)
    requires o.capacity > 0 && o.workers > 0 && !(E.Thresholds(cfg, s, c) <= {1})
    ensures Complete(o, cfg, steps) && !MailPerOutage(o, cfg, steps, s, c)
  {
    PromiseIffThresholdOne(cfg, s, c);
    var trace: seq<E.Step> :| !OneMailPerOutage(cfg, trace, s, c);
    steps := RunOfTrace(o, cfg, trace, s);
    DownRowsOfRun(o, cfg, steps, s, c);
    MailsFromHistory(cfg, trace, false, s, c);
  }

  /**
   * With any number of workers, every run that loses and fails nothing has one DOWN row per confirmed outage exactly
   * when the channel's only threshold is 1 (or it has no down rule).
   */
  lemma {:induction false} PromiseIffOnRuns(o: Options, cfg: Config, s: string, c: int)
    requires o.capacity > 0 && o.workers > 0
    ensures (forall steps | Complete(o, cfg, steps) :: MailPerOutage(o, cfg, steps, s, c)) <==> E.Thresholds(cfg, s, c) <= {1}
  {
    if E.Thresholds(cfg, s, c) <= {1} {
      PromiseIffThresholdOne(cfg, s, c);
      forall steps | Complete(o, cfg, steps) ensures MailPerOutage(o, cfg, steps, s, c) {
        MailPerOutageIsInOrder(o, cfg, steps, s, c);
      }
    } else {
      var steps := PromiseBroken(o, cfg, s, c);
    }
  }

  // --- recoveries: one worker ---

  /** One RECOVERED row for each confirmed outage of the run that is over, under the outage's own number. */
  ghost predicate RecoveryPerOver(o: Options, cfg: Config, steps: seq<Step>, s: string, c: int) {
    Numbers(RowsOf(o, cfg, steps, SiteRecovered, s, c)) ==
      E.Confirmed(TicksBy(steps, s), E.Thresholds(cfg, s, c)) * E.Over(TicksBy(steps, s))
  }

  /** With one worker and the site's own events in order, its recoveries are those of in-order dispatch. */
  lemma {:induction false} OneWorkerRecovers(o: Options, cfg: Config, steps: seq<Step>, s: string, c: int)
    requires o.workers == 1 && Complete(o, cfg, steps) && SiteInOrder(o, Start(o, cfg), steps, s)
    ensures RecoveryPerOver(o, cfg, steps, s, c) <==> RecoveryPerOutage(cfg, TraceOf(steps, Zero), s, c)
  {
    var claims, ledger := Claims(Exec(o, Start(o, cfg), steps).ledger), E.LedgerOf(cfg, TraceOf(steps, Zero), false);
    OneWorkerKeepsSite(o, cfg, steps, Zero, s);
    RunSound(o, cfg, steps);
    LedgerSound(cfg, TraceOf(steps, Zero), false);
    forall n ensures n in Numbers(Rows(claims, SiteRecovered, s, c)) <==> n in Numbers(Rows(ledger, SiteRecovered, s, c)) {
      NumbersAreKeys(claims, SiteRecovered, s, n, c);
      NumbersAreKeys(ledger, SiteRecovered, s, n, c);
      assert E.Has(claims, SiteRecovered, s, n, c) <==> E.Has(ledger, SiteRecovered, s, n, c);
    }
  }

  // --- recoveries: any number of workers ---

  /**
   * A run in which the opening event of each outage of the site is finished before its resolving event is taken has, on a
   * channel that hears of recoveries, exactly the announced outages that are over, however many workers there are.
   */
  lemma {:induction false} PairedRecoveriesExact(o: Options, cfg: Config, steps: seq<Step>, s: string, c: int)
    requires Complete(o, cfg, steps) && Pairing.Paired(o, Start(o, cfg), steps, s) && E.TellsRecovery(cfg, s, c)
    ensures var ticks, d := TicksBy(steps, s), E.Thresholds(cfg, s, c);
      && Numbers(RowsOf(o, cfg, steps, SiteRecovered, s, c)) == E.DownNumbers(ticks, d, false) * E.Over(ticks)
      && (1 in d ==> RecoveryPerOver(o, cfg, steps, s, c))
  {
    var ticks, d := TicksBy(steps, s), E.Thresholds(cfg, s, c);
    var claims := Claims(Exec(o, Start(o, cfg), steps).ledger);
    RecoveriesOfRun(o, cfg, steps, s, c);
    E.RecoveredAreAnnouncedAndOver(ticks, d, false);
    RunSound(o, cfg, steps);
    forall n | n in E.RecoveredNumbers(ticks, d, false) ensures n in Numbers(RowsOf(o, cfg, steps, SiteRecovered, s, c)) {
      Pairing.PairedRecovers(o, cfg, steps, Zero, s, n, c);
      NumbersAreKeys(claims, SiteRecovered, s, n, c);
    }
    if 1 in d { OneRecovers(ticks, d); }
  }

  // --- recoveries: two workers ---

  /** A first outage of one tick, and the tick that ends it. */
  lemma {:induction false} ShortOutage(ticks: seq<Tick>, d: set<int>)
    requires ticks == [DOWN, UP] && 1 in d
    ensures 1 in E.Confirmed(ticks, d) * E.Over(ticks)
  {
    var k := OutagesComplete(ticks, 0, 1);
    StateIsSummary(ticks);
    LastOutage(ticks);
    assert ticks[..1] == [DOWN] && Outages([]) == [];
    assert Outages([DOWN]) == [Outage(0, 1)] by { assert [DOWN][..0] == []; }
    assert Outages(ticks) == [Outage(0, 1)];
    assert E.LongAt(Outages(ticks), 1, d) && E.OverAt(Outages(ticks), 1, |ticks|);
  }

  /** What the store reports for them. */
  lemma {:induction false} ShortTransitions()
    ensures var (db, tr) := Recorded(FRESH, DOWN);
      var tr' := Recorded(db, UP).1;
      && tr.incidentId == 1 && !tr.up && tr.consecutiveFailures == 1 && !tr.incidentResolved
      && tr'.incidentId == 1 && tr'.up && tr'.incidentResolved
  {
  }

  /** The claims when the resolving event is handled before the opening one: no recovery. */
  lemma {:induction false} Overtaken(cfg: Config, e: Event, e': Event, s: string, c: int)
    requires e.site == s && !e.tr.incidentResolved && (e'.tr.incidentResolved ==> e'.tr.up)
    ensures !E.Has(Handled(Handled([], cfg, e', 0), cfg, e, 0), SiteRecovered, s, 1, c)
  {
    var claims := Handled([], cfg, e', 0);
    E.EventAdds([], cfg, e', 0, s, 1, c);
    E.EventAdds(claims, cfg, e, 0, s, 1, c);
  }

  /** Worker 0 has taken the opening event and worker 1 the resolving one. */
  lemma {:induction false} BothTaken(o: Options, cfg: Config, s: string) returns (steps: seq<Step>)
    requires o.capacity > 0 && o.workers >= 2
    ensures var w := Exec(o, Start(o, cfg), steps);
      var (db, tr) := Recorded(FRESH, DOWN);
      var tr' := Recorded(db, UP).1;
      && w.cfg == cfg && w.ledger == [] && w.committed == [] && w.queue == []
      && |w.workers| == o.workers && (forall i | 2 <= i < o.workers :: w.workers[i] == Idle)
      && Choosing(0, w, Event(s, 0, tr), KindsFor(tr)) && Choosing(1, w, Event(s, 0, tr'), KindsFor(tr'))
    ensures LosslessRun(o, Start(o, cfg), steps) && InOrder(steps)
    ensures TraceOf(steps, Zero) == [E.Step(s, DOWN, 0, 0), E.Step(s, UP, 0, 0)]
  {
    var w0 := Start(o, cfg);
    var a, b := [Commit(s, DOWN, 0), Submit(0), Take(0)], [Commit(s, UP, 0), Submit(0), Take(1)];
    Handed(o, 0, w0, s, DOWN, 0);
    var w1 := Exec(o, w0, a);
    Handed(o, 1, w1, s, UP, 0);
    ExecAppend(o, w0, a, b);
    LosslessAppend(o, w0, a, b);
    OneTick([], a[0], a[1], a[2], Zero);
    OneTick([E.Step(s, DOWN, 0, 0)], b[0], b[1], b[2], Zero);
    TraceFromAppend([], a, b, Zero);
    assert TraceFrom([], a, Zero) == [E.Step(s, DOWN, 0, 0)];
    assert [E.Step(s, DOWN, 0, 0)] + [E.Step(s, UP, 0, 0)] == [E.Step(s, DOWN, 0, 0), E.Step(s, UP, 0, 0)];
    steps := a + b;
  }

  /** Two workers: a recovery that overtakes its down alert is not sent, and the channel never hears of it. */
  lemma {:induction false} RecoveryOvertakes(o: Options, cfg: Config, s: string, c: int) returns (steps: seq<Step>)
    requires o.capacity > 0 && o.workers >= 2 && 1 in E.Thresholds(cfg, s, c)
    ensures Complete(o, cfg, steps) && InOrder(steps)
    ensures TicksBy(steps, s) == [DOWN, UP] && RowsOf(o, cfg, steps, SiteRecovered, s, c) == []
    ensures !RecoveryPerOver(o, cfg, steps, s, c)
  {
    var (db, tr) := Recorded(FRESH, DOWN);
    var tr' := Recorded(db, UP).1;
    var e, e' := Event(s, 0, tr), Event(s, 0, tr');
    ShortTransitions();
    var taken := BothTaken(o, cfg, s);
    var w0 := Start(o, cfg);
    var w := Exec(o, w0, taken);
    var second := SoloKinds(o, 1, w, e', KindsFor(tr'), 0);
    var w' := Exec(o, w, second);
    assert w'.workers[0] == w'.workers[..1][0] == w.workers[0];
    var first := SoloKinds(o, 0, w', e, KindsFor(tr), 0);
    steps := taken + (second + first);
    Composed(o, w0, taken, second, first);
    var w2 := Exec(o, w', first);
    assert Claims(w.ledger) == [];
    assert Claims(w2.ledger) == Handled(Handled([], cfg, e', 0), cfg, e, 0);
    Overtaken(cfg, e, e', s, c);
    forall i | 0 <= i < o.workers ensures !w2.workers[i].Busy? {
      if i == 1 { assert w2.workers[1..][0] == w'.workers[1..][0]; }
      if i >= 2 { assert w2.workers[1..][i - 1] == w'.workers[1..][i - 1] && w'.workers[2..][i - 2] == w.workers[2..][i - 2]; }
    }
    NoRecovery(o, cfg, steps, s, c);
  }

  lemma {:induction false} Composed(o: Options, w: World, a: seq<Step>, b: seq<Step>, c: seq<Step>)
    requires LosslessRun(o, w, a) && InOrder(a) && OnlyWork(b) && OnlyWork(c)
    ensures Exec(o, w, a + (b + c)) == Exec(o, Exec(o, Exec(o, w, a), b), c)
    ensures LosslessRun(o, w, a + (b + c)) && InOrder(a + (b + c)) && TraceOf(a + (b + c), Zero) == TraceOf(a, Zero)
  {
    var w' := Exec(o, w, a);
    ExecAppend(o, w, a, b + c);
    ExecAppend(o, w', b, c);
    WorkIsSteady(o, w', b + c, TraceOf(a, Zero), Zero);
    LosslessAppend(o, w, a, b + c);
    TraceFromAppend([], a, b + c, Zero);
  }

  lemma {:induction false} NoRecovery(o: Options, cfg: Config, steps: seq<Step>, s: string, c: int)
    requires Complete(o, cfg, steps) && TraceOf(steps, Zero) == [E.Step(s, DOWN, 0, 0), E.Step(s, UP, 0, 0)]
    requires !E.Has(Claims(Exec(o, Start(o, cfg), steps).ledger), SiteRecovered, s, 1, c) && 1 in E.Thresholds(cfg, s, c)
    ensures TicksBy(steps, s) == [DOWN, UP] && RowsOf(o, cfg, steps, SiteRecovered, s, c) == []
    ensures !RecoveryPerOver(o, cfg, steps, s, c)
  {
    var claims, ticks := Claims(Exec(o, Start(o, cfg), steps).ledger), TicksBy(steps, s);
    TicksOfSite(TraceOf(steps, Zero), s);
    assert ticks == [DOWN, UP];
    ShortOutage(ticks, E.Thresholds(cfg, s, c));
    RunSound(o, cfg, steps);
    NumbersAreKeys(claims, SiteRecovered, s, 1, c);
    RecoveriesOfRun(o, cfg, steps, s, c);
    OneOver(ticks);
    NoNumbers(RowsOf(o, cfg, steps, SiteRecovered, s, c));
  }

  lemma {:induction false} NoNumbers(rs: seq<Claim>)
    ensures rs != [] ==> rs[0].incidentId.GetOr(0) in Numbers(rs)
  {
    assert rs != [] ==> rs[0] in rs;
  }

  lemma {:induction false} OneOver(ticks: seq<Tick>)
    requires ticks == [DOWN, UP]
    ensures forall n | n in E.Over(ticks) :: n == 1
  {
    assert ticks[..1] == [DOWN];
    assert Outages([DOWN]) == [Outage(0, 1)] by { assert [DOWN][..0] == []; }
    assert Outages(ticks) == [Outage(0, 1)];
  }

  /** The site's own events are submitted in order; those of other sites may cross them. */
  predicate Orderly(o: Options, cfg: Config, steps: seq<Step>, s: string) { SiteInOrder(o, Start(o, cfg), steps, s) }

  /**
   * A channel that hears of recoveries hears, in every run that loses and fails nothing and submits the site's own events
   * in order, of each confirmed outage that is over, exactly when it has no down rule, or a rule with threshold 1 and the
   * only worker.
   */
  lemma {:induction false} RecoveryIffOneWorker(o: Options, cfg: Config, s: string, c: int)
    requires o.capacity > 0 && o.workers > 0 && E.TellsRecovery(cfg, s, c)
    ensures (forall steps | Complete(o, cfg, steps) && Orderly(o, cfg, steps, s) :: RecoveryPerOver(o, cfg, steps, s, c)) <==>
      E.Thresholds(cfg, s, c) == {} || (1 in E.Thresholds(cfg, s, c) && o.workers == 1)
  {
    var d := E.Thresholds(cfg, s, c);
    if d == {} {
      forall steps | Complete(o, cfg, steps) && Orderly(o, cfg, steps, s) ensures RecoveryPerOver(o, cfg, steps, s, c) {
        NoRules(o, cfg, steps, s, c);
      }
    } else if 1 !in d {
      var steps := LateRecoveries(o, cfg, s, c);
      InOrderIsSiteInOrder(o, Start(o, cfg), steps, s);
      assert Orderly(o, cfg, steps, s);
    } else if o.workers > 1 {
      var steps := RecoveryOvertakes(o, cfg, s, c);
      InOrderIsSiteInOrder(o, Start(o, cfg), steps, s);
      assert Orderly(o, cfg, steps, s);
    } else {
      RecoveryPromiseIff(cfg, s, c);
      forall steps | Complete(o, cfg, steps) && Orderly(o, cfg, steps, s) ensures RecoveryPerOver(o, cfg, steps, s, c) {
        OneWorkerRecovers(o, cfg, steps, s, c);
      }
    }
  }

  lemma {:induction false} NoRules(o: Options, cfg: Config, steps: seq<Step>, s: string, c: int)
    requires Complete(o, cfg, steps) && E.Thresholds(cfg, s, c) == {}
    ensures RecoveryPerOver(o, cfg, steps, s, c)
  {
    var ticks := TicksBy(steps, s);
    RecoveriesOfRun(o, cfg, steps, s, c);
    E.CodeDownNumbers(ticks, {});
    assert E.Confirmed(ticks, {}) == {} && E.Confirmed(ticks, {} - {1}) == {};
  }

  /** No threshold at 1: a run with an outage that is confirmed and over, and no recovery for it. */
  lemma {:induction false} LateRecoveries(o: Options, cfg: Config, s: string, c: int) returns (steps: seq<Step>)
    requires o.capacity > 0 && o.workers > 0 && E.TellsRecovery(cfg, s, c)
    requires E.Thresholds(cfg, s, c) != {} && 1 !in E.Thresholds(cfg, s, c)
    ensures Complete(o, cfg, steps) && InOrder(steps) && !RecoveryPerOver(o, cfg, steps, s, c)
  {
    RecoveryPromiseIff(cfg, s, c);
    var trace: seq<E.Step> :| !RecoveryPerOutage(cfg, trace, s, c);
    steps := RunOfTrace(o, cfg, trace, s);
    RecoveryOnTrace(cfg, trace, s, c);
    NoLateRecovery(o, cfg, steps, s, c);
  }

  lemma {:induction false} NoLateRecovery(o: Options, cfg: Config, steps: seq<Step>, s: string, c: int)
    requires Complete(o, cfg, steps) && 1 !in E.Thresholds(cfg, s, c)
    ensures Numbers(RowsOf(o, cfg, steps, SiteRecovered, s, c)) == {}
  {
    RecoveriesOfRun(o, cfg, steps, s, c);
    LaterCounts(TicksBy(steps, s), E.Thresholds(cfg, s, c));
  }
}
