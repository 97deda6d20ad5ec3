/**
 * The documented promise, one mail per confirmed outage and one per recovery from it,
 * counted in ledger rows: when the code keeps it, and that the variant always does.
 */
module Promise {
  import opened Keys
  import opened Incidents
  import opened Alerting
  import opened Exactness

  // --- counting rows ---

  /** Every row carries the key of what it claims. */
  ghost predicate WellKeyed(claims: seq<Claim>) {
    forall c | c in claims ::
      c.kind != SslExpiring ==> c.key == DedupeKey(c.kind, c.site, c.incidentId.GetOr(0), c.channelId)
  }

  ghost predicate SslKeyed(claims: seq<Claim>) {
    forall c | c in claims :: c.kind == SslExpiring ==> exists n :: c.key == DedupeKey(SslExpiring, c.site, n, c.channelId)
  }

  ghost predicate Sound(claims: seq<Claim>) { UniqueKeys(claims) && WellKeyed(claims) && SslKeyed(claims) }

  lemma {:induction false} RuleKeepsSound(claims: seq<Claim>, e: Event, kind: Kind, rule: Rule, now: int)
    requires Sound(claims)
    ensures Sound(AppliedRule(claims, e, kind, rule, now))
  {
    var key := Render(e, kind, rule, now, Claimed(claims, DownKey(e, rule)));
    if key.Some? {
      var row := ClaimOf(e, kind, rule, key.value);
      assert key.value == DedupeKey(kind, e.site, KeyNumber(e, kind), rule.channelId);
      assert row.kind != SslExpiring ==> row.key == DedupeKey(row.kind, row.site, row.incidentId.GetOr(0), row.channelId);
    }
  }

  lemma {:induction false} RulesKeepSound(claims: seq<Claim>, e: Event, kind: Kind, rules: seq<Rule>, now: int)
    requires Sound(claims)
    ensures Sound(AppliedRules(claims, e, kind, rules, now))
    decreases |rules|
  {
    if rules != [] {
      RuleKeepsSound(claims, e, kind, rules[0], now);
      RulesKeepSound(AppliedRule(claims, e, kind, rules[0], now), e, kind, rules[1..], now);
    }
  }

  lemma {:induction false} KindsKeepSound(claims: seq<Claim>, cfg: Config, e: Event, kinds: seq<Kind>, now: int)
    requires Sound(claims)
    ensures Sound(HandledKinds(claims, cfg, e, kinds, now))
    decreases |kinds|
  {
    if kinds != [] {
      var rules := RulesFor(cfg, e.site, kinds[0]);
      RulesKeepSound(claims, e, kinds[0], rules, now);
      KindsKeepSound(AppliedRules(claims, e, kinds[0], rules, now), cfg, e, kinds[1..], now);
    }
  }

  lemma {:induction false} LedgerSound(cfg: Config, trace: seq<Step>, carry: bool)
    ensures Sound(LedgerOf(cfg, trace, carry))
  {
    if trace != [] {
      LedgerSound(cfg, trace[..|trace| - 1], carry);
      KindsKeepSound(LedgerOf(cfg, trace[..|trace| - 1], carry), cfg, LastEvent(trace, carry),
                     KindsFor(LastEvent(trace, carry).tr), trace[|trace| - 1].now);
    }
  }

  predicate IsRow(r: Claim, kind: Kind, s: string, c: int) { r.kind == kind && r.site == s && r.channelId == c }

  /** The rows of a kind a channel has for a site. */
  function Rows(claims: seq<Claim>, kind: Kind, s: string, c: int): (rs: seq<Claim>)
    ensures forall r :: r in rs <==> r in claims && IsRow(r, kind, s, c)
  {
    if claims == [] then []
    else
      var r := claims[|claims| - 1];
      Rows(claims[..|claims| - 1], kind, s, c) + if IsRow(r, kind, s, c) then [r] else []
  }

  /** The incident numbers those rows carry. */
  function Numbers(rs: seq<Claim>): (ns: set<int>) { set r | r in rs :: r.incidentId.GetOr(0) }

  lemma {:induction false} NumberIsNew(claims: seq<Claim>, r: Claim, kind: Kind, s: string, c: int)
    requires Sound(claims + [r]) && kind != SslExpiring && IsRow(r, kind, s, c)
    ensures r.incidentId.GetOr(0) !in Numbers(Rows(claims, kind, s, c))
  {
    var all := claims + [r];
    forall q | q in Rows(claims, kind, s, c) ensures q.incidentId.GetOr(0) != r.incidentId.GetOr(0) {
      var i :| 0 <= i < |claims| && claims[i] == q;
      assert all[i] == q && q in all && all[|claims|] == r && r in all;
    }
  }

  lemma {:induction false} SoundPrefix(claims: seq<Claim>, r: Claim)
    requires Sound(claims + [r])
    ensures Sound(claims)
  {
    var all := claims + [r];
    assert forall i | 0 <= i < |claims| :: all[i] == claims[i];
    assert forall q | q in claims :: q in all;
  }

  lemma {:induction false} NumbersSnoc(rs: seq<Claim>, r: Claim)
    ensures Numbers(rs + [r]) == Numbers(rs) + {r.incidentId.GetOr(0)}
  {
    forall n ensures n in Numbers(rs + [r]) <==> n in Numbers(rs) + {r.incidentId.GetOr(0)} {
      if n == r.incidentId.GetOr(0) { assert r in rs + [r]; }
      if n in Numbers(rs) {
        var q :| q in rs && q.incidentId.GetOr(0) == n;
        assert q in rs + [r];
      }
    }
  }

  lemma {:induction false} RowsSnoc(claims: seq<Claim>, r: Claim, kind: Kind, s: string, c: int)
    ensures Rows(claims + [r], kind, s, c) == Rows(claims, kind, s, c) + if IsRow(r, kind, s, c) then [r] else []
  {
    assert (claims + [r])[..|claims|] == claims;
  }

  lemma {:induction false} RowsCountSnoc(claims: seq<Claim>, r: Claim, kind: Kind, s: string, c: int)
    requires Sound(claims + [r]) && kind != SslExpiring
    requires |Rows(claims, kind, s, c)| == |Numbers(Rows(claims, kind, s, c))|
    ensures |Rows(claims + [r], kind, s, c)| == |Numbers(Rows(claims + [r], kind, s, c))|
  {
    RowsSnoc(claims, r, kind, s, c);
    if IsRow(r, kind, s, c) {
      NumberIsNew(claims, r, kind, s, c);
      NumbersSnoc(Rows(claims, kind, s, c), r);
    } else {
      assert Rows(claims + [r], kind, s, c) == Rows(claims, kind, s, c);
    }
  }

  /** No two rows of a kind, site and channel carry the same number. */
  lemma {:induction false} RowsCount(claims: seq<Claim>, kind: Kind, s: string, c: int)
    requires Sound(claims) && kind != SslExpiring
    ensures |Rows(claims, kind, s, c)| == |Numbers(Rows(claims, kind, s, c))|
  {
    if claims == [] {
      assert Rows(claims, kind, s, c) == [];
    } else {
      var before, r := claims[..|claims| - 1], claims[|claims| - 1];
      assert claims == before + [r];
      SoundPrefix(before, r);
      RowsCount(before, kind, s, c);
      RowsCountSnoc(before, r, kind, s, c);
    }
  }

  /** A number is among those of the rows exactly when its key is claimed. */
  lemma {:induction false} NumbersAreKeys(claims: seq<Claim>, kind: Kind, s: string, n: int, c: int)
    requires Sound(claims) && kind != SslExpiring
    ensures n in Numbers(Rows(claims, kind, s, c)) <==> Has(claims, kind, s, n, c)
  {
    if n in Numbers(Rows(claims, kind, s, c)) {
      var r :| r in Rows(claims, kind, s, c) && r.incidentId.GetOr(0) == n;
      assert r.key == DedupeKey(kind, s, n, c);
    }
    if Has(claims, kind, s, n, c) {
      var r :| r in claims && r.key == DedupeKey(kind, s, n, c);
      if r.kind == SslExpiring {
        var m :| r.key == DedupeKey(SslExpiring, r.site, m, r.channelId);
        KeyInjective(kind, s, n, c, SslExpiring, r.site, m, r.channelId);
      } else {
        KeyInjective(kind, s, n, c, r.kind, r.site, r.incidentId.GetOr(0), r.channelId);
      }
      assert r in Rows(claims, kind, s, c);
    }
  }

  /** The rows a channel has for a site after a trace. */
  function Mails(cfg: Config, trace: seq<Step>, carry: bool, kind: Kind, s: string, c: int): seq<Claim> {
    Rows(LedgerOf(cfg, trace, carry), kind, s, c)
  }

  /** Row counts and row numbers of a trace, from its history alone. */
  lemma {:induction false} MailsFromHistory(cfg: Config, trace: seq<Step>, carry: bool, s: string, c: int)
    ensures var ticks, d := TicksOf(trace, s), Thresholds(cfg, s, c);
      && Numbers(Mails(cfg, trace, carry, SiteDown, s, c)) == DownNumbers(ticks, d, carry)
      && |Mails(cfg, trace, carry, SiteDown, s, c)| == |DownNumbers(ticks, d, carry)|
      && Numbers(Mails(cfg, trace, carry, SiteRecovered, s, c)) ==
           (if TellsRecovery(cfg, s, c) then DownNumbers(ticks, d, carry) * Over(ticks) else {})
      && |Mails(cfg, trace, carry, SiteRecovered, s, c)| == |Numbers(Mails(cfg, trace, carry, SiteRecovered, s, c))|
  {
    var ticks, d := TicksOf(trace, s), Thresholds(cfg, s, c);
    var claims := LedgerOf(cfg, trace, carry);
    LedgerSound(cfg, trace, carry);
    RowsCount(claims, SiteDown, s, c);
    RowsCount(claims, SiteRecovered, s, c);
    RecoveredAreAnnouncedAndOver(ticks, d, carry);
    forall n ensures n in Numbers(Rows(claims, SiteDown, s, c)) <==> n in DownNumbers(ticks, d, carry) {
      NumbersAreKeys(claims, SiteDown, s, n, c);
      LedgerMatchesHistory(cfg, trace, carry, s, n, c);
    }
    forall n ensures n in Numbers(Rows(claims, SiteRecovered, s, c)) <==>
                     TellsRecovery(cfg, s, c) && n in DownNumbers(ticks, d, carry) * Over(ticks) {
      NumbersAreKeys(claims, SiteRecovered, s, n, c);
      LedgerMatchesHistory(cfg, trace, carry, s, n, c);
    }
  }

  /** One certificate row per date: each row of the channel names a date some check found inside the window, no two the same. */
  lemma {:induction false} OneRowPerExpiry(cfg: Config, trace: seq<Step>, carry: bool, s: string, c: int)
    ensures var rs := Mails(cfg, trace, carry, SslExpiring, s, c);
      && (forall r | r in rs :: exists x :: Warned(trace, s, x) && r.key == DedupeKey(SslExpiring, s, x, c))
      && (TellsExpiry(cfg, s, c) ==> forall x | Warned(trace, s, x) :: exists r | r in rs :: r.key == DedupeKey(SslExpiring, s, x, c))
    ensures forall i, j | 0 <= i < j < |LedgerOf(cfg, trace, carry)| :: LedgerOf(cfg, trace, carry)[i].key != LedgerOf(cfg, trace, carry)[j].key
  {
    var claims, rs := LedgerOf(cfg, trace, carry), Mails(cfg, trace, carry, SslExpiring, s, c);
    LedgerSound(cfg, trace, carry);
    forall r | r in rs ensures exists x :: Warned(trace, s, x) && r.key == DedupeKey(SslExpiring, s, x, c) {
      var x :| r.key == DedupeKey(SslExpiring, s, x, c);
      ExpiryRowsOnTrace(cfg, trace, carry, s, x, c);
      assert Has(claims, SslExpiring, s, x, c);
    }
    if TellsExpiry(cfg, s, c) {
      forall x | Warned(trace, s, x) ensures exists r | r in rs :: r.key == DedupeKey(SslExpiring, s, x, c) {
        ExpiryRowsOnTrace(cfg, trace, carry, s, x, c);
        ExpiryRow(claims, s, x, c);
      }
    }
  }

  lemma {:induction false} ExpiryRow(claims: seq<Claim>, s: string, x: int, c: int)
    requires Sound(claims) && Has(claims, SslExpiring, s, x, c)
    ensures exists r | r in Rows(claims, SslExpiring, s, c) :: r.key == DedupeKey(SslExpiring, s, x, c)
  {
    var r :| r in claims && r.key == DedupeKey(SslExpiring, s, x, c);
    if r.kind == SslExpiring {
      var m :| r.key == DedupeKey(SslExpiring, r.site, m, r.channelId);
      KeyInjective(SslExpiring, s, x, c, SslExpiring, r.site, m, r.channelId);
    } else {
      KeyInjective(SslExpiring, s, x, c, r.kind, r.site, r.incidentId.GetOr(0), r.channelId);
    }
    assert r in Rows(claims, SslExpiring, s, c);
  }

  // --- the variant keeps the promise ---

  /**
   * With the open incident's id in every down transition: DOWN rows are exactly the confirmed outages,
   * RECOVERED rows exactly those of them that are over, for every set of thresholds.
   */
  lemma {:induction false} VariantKeepsPromise(cfg: Config, trace: seq<Step>, s: string, c: int)
    ensures var ticks, d := TicksOf(trace, s), Thresholds(cfg, s, c);
      && Numbers(Mails(cfg, trace, true, SiteDown, s, c)) == Confirmed(ticks, d)
      && |Mails(cfg, trace, true, SiteDown, s, c)| == |Confirmed(ticks, d)|
      && (TellsRecovery(cfg, s, c) ==>
            Numbers(Mails(cfg, trace, true, SiteRecovered, s, c)) == Confirmed(ticks, d) * Over(ticks))
  {
    MailsFromHistory(cfg, trace, true, s, c);
    VariantDownNumbers(TicksOf(trace, s), Thresholds(cfg, s, c));
  }

  // --- the code: threshold 1 ---

  /** The numbers 1 to n. */
  function UpTo(n: nat): (ks: set<int>)
    ensures forall k :: k in ks <==> 1 <= k <= n
    ensures |ks| == n
  {
    if n == 0 then {} else UpTo(n - 1) + {n}
  }

  lemma {:induction false} AllConfirmedAtOne(ticks: seq<Tick>, d: set<int>)
    requires 1 in d && forall x | x in d :: x >= 1
    ensures Confirmed(ticks, d) == UpTo(Opened(ticks))
  {
    StateIsSummary(ticks);
    LastOutage(ticks);
    forall k | 1 <= k <= Opened(ticks) ensures LongAt(Outages(ticks), k, d) {
      assert 1 in d && Outages(ticks)[k - 1].end - Outages(ticks)[k - 1].first >= 1;
    }
  }

  /** The outages that are over are the incidents whose row has an end. */
  lemma {:induction false} OverAreResolved(ticks: seq<Tick>, k: int)
    ensures k in Over(ticks) <==> 1 <= k <= Opened(ticks) && Run(ticks).incidents[k - 1].resolvedAt.Some?
  {
    IncidentsAreOutages(ticks);
  }

  /** Only threshold 1: DOWN rows are exactly the incidents opened, RECOVERED rows exactly those resolved (`OverAreResolved`). */
  lemma {:induction false} ThresholdOneExact(cfg: Config, trace: seq<Step>, s: string, c: int)
    requires Thresholds(cfg, s, c) == {1}
    ensures Numbers(Mails(cfg, trace, false, SiteDown, s, c)) == UpTo(Opened(TicksOf(trace, s)))
    ensures |Mails(cfg, trace, false, SiteDown, s, c)| == Opened(TicksOf(trace, s))
    ensures TellsRecovery(cfg, s, c) ==> Numbers(Mails(cfg, trace, false, SiteRecovered, s, c)) == Over(TicksOf(trace, s))
  {
    MailsFromHistory(cfg, trace, false, s, c);
    OneCounts(TicksOf(trace, s), {1});
  }

  /** The code's DOWN numbers when a rule has threshold 1. */
  lemma {:induction false} OneCounts(ticks: seq<Tick>, d: set<int>)
    requires 1 in d && forall x | x in d :: x >= 1
    ensures Confirmed(ticks, d) == UpTo(Opened(ticks))
    ensures DownNumbers(ticks, d, false) == UpTo(Opened(ticks)) + (if Confirmed(ticks, d - {1}) == {} then {} else {0})
    ensures d == {1} ==> Confirmed(ticks, d - {1}) == {}
    ensures DownNumbers(ticks, d, false) * Over(ticks) == Over(ticks)
  {
    CodeDownNumbers(ticks, d);
    AllConfirmedAtOne(ticks, d);
    AllConfirmedAtOne(ticks, {1});
    StateIsSummary(ticks);
    if d == {1} { assert d - {1} == {}; }
    assert Over(ticks) <= UpTo(Opened(ticks));
  }

  /** The code's DOWN numbers when none has. */
  lemma {:induction false} LaterCounts(ticks: seq<Tick>, d: set<int>)
    requires 1 !in d && forall x | x in d :: x >= 1
    ensures DownNumbers(ticks, d, false) == if Confirmed(ticks, d) == {} then {} else {0}
    ensures DownNumbers(ticks, d, false) * Over(ticks) == {}
  {
    CodeDownNumbers(ticks, d);
    assert d - {1} == d;
  }

  // --- the code: thresholds from 2 ---

  /** No rule at 1: at most one DOWN row ever, the shared row 0, and no RECOVERED row. */
  lemma {:induction false} LaterThresholdsCollapse(cfg: Config, trace: seq<Step>, s: string, c: int)
    requires 1 !in Thresholds(cfg, s, c)
    ensures |Mails(cfg, trace, false, SiteDown, s, c)| <= 1
    ensures Mails(cfg, trace, false, SiteDown, s, c) != [] <==> Confirmed(TicksOf(trace, s), Thresholds(cfg, s, c)) != {}
    ensures forall r | r in Mails(cfg, trace, false, SiteDown, s, c) :: r.incidentId.GetOr(0) == 0
    ensures Mails(cfg, trace, false, SiteRecovered, s, c) == []
  {
    MailsFromHistory(cfg, trace, false, s, c);
    LaterCounts(TicksOf(trace, s), Thresholds(cfg, s, c));
    forall r | r in Mails(cfg, trace, false, SiteDown, s, c) ensures r.incidentId.GetOr(0) == 0 {
      assert r.incidentId.GetOr(0) in Numbers(Mails(cfg, trace, false, SiteDown, s, c));
    }
  }

  /** At the threshold 2 alone one failed tick numbers no row, and two number one. */
  lemma {:induction false} DefaultNumbers(ticks: seq<Tick>)
    requires 1 <= |ticks| <= 2 && forall t | t in ticks :: !t.up
    ensures DownNumbers(ticks, {2}, false) == if |ticks| == 1 then {} else {0}
  {
    var one := ticks[..1];
    assert one[0] in ticks && one[..0] == [] && Streak([]) == 0;
    assert Streak(one) == 1 && DownNumbers([], {2}, false) == {} && DownNumbers(one, {2}, false) == {};
    if |ticks| == 1 {
      assert ticks == one;
    } else {
      assert ticks[1] in ticks && Streak(ticks) == 2;
    }
  }

  /** The default: a channel whose down rules all have `confirm_after` 2 is told nothing of one failed tick, and of two under the number 0. */
  lemma {:induction false} DefaultThreshold(cfg: Config, trace: seq<Step>, s: string, c: int)
    requires exists r | r in cfg.rules :: DownRule(cfg, r, s, c)
    requires forall r | r in cfg.rules && DownRule(cfg, r, s, c) :: r.confirmAfter == 2
    requires 1 <= |TicksOf(trace, s)| <= 2 && forall t | t in TicksOf(trace, s) :: !t.up
    ensures |TicksOf(trace, s)| == 1 ==> Mails(cfg, trace, false, SiteDown, s, c) == []
    ensures |TicksOf(trace, s)| == 2 ==>
      Numbers(Mails(cfg, trace, false, SiteDown, s, c)) == {0} && |Mails(cfg, trace, false, SiteDown, s, c)| == 1
  {
    var ticks, d := TicksOf(trace, s), Thresholds(cfg, s, c);
    forall x ensures x in d <==> x == 2 { ThresholdsIff(cfg, s, c, x); }
    assert d == {2};
    MailsFromHistory(cfg, trace, false, s, c);
    DefaultNumbers(ticks);
  }

  // --- when the code keeps the promise ---

  /** One DOWN row per confirmed outage. */
  ghost predicate OneMailPerOutage(cfg: Config, trace: seq<Step>, s: string, c: int) {
    |Mails(cfg, trace, false, SiteDown, s, c)| == |Confirmed(TicksOf(trace, s), Thresholds(cfg, s, c))|
  }

  /** On one trace: with a rule at 1, iff no outage reached another threshold; without, iff at most one outage was confirmed. */
  lemma {:induction false} PromiseOnTrace(cfg: Config, trace: seq<Step>, s: string, c: int)
    ensures var ticks, d := TicksOf(trace, s), Thresholds(cfg, s, c);
      OneMailPerOutage(cfg, trace, s, c) <==>
        if 1 in d then Confirmed(ticks, d - {1}) == {} else |Confirmed(ticks, d)| <= 1
  {
    var ticks, d := TicksOf(trace, s), Thresholds(cfg, s, c);
    MailsFromHistory(cfg, trace, false, s, c);
    if 1 in d {
      OneCounts(ticks, d);
    } else {
      LaterCounts(ticks, d);
    }
  }

  const UP := Tick(0, true, 200, 0, [], "", [], false, 0)
  const DOWN := Tick(0, false, 500, 0, ["http"], "unexpected status", [], false, 0)

  /** A trace of one site that is down except at tick `gap`. */
  function DownTrace(s: string, n: nat, gap: int): seq<Step> {
    seq(n, i => Step(s, if i == gap then UP else DOWN, 0, 0))
  }

  lemma {:induction false} TicksOfSite(trace: seq<Step>, s: string)
    requires forall i | 0 <= i < |trace| :: trace[i].site == s
    ensures |TicksOf(trace, s)| == |trace|
    ensures forall i | 0 <= i < |trace| :: TicksOf(trace, s)[i] == trace[i].tick
  {
    if trace != [] { TicksOfSite(trace[..|trace| - 1], s); }
  }

  /** Two outages of x ticks each break the promise when no rule has threshold 1. */
  lemma {:induction false} TwoOutagesBreak(cfg: Config, s: string, c: int, x: int)
    requires x in Thresholds(cfg, s, c) && 1 !in Thresholds(cfg, s, c)
    ensures !OneMailPerOutage(cfg, DownTrace(s, 2 * x + 1, x), s, c)
  {
    var trace := DownTrace(s, 2 * x + 1, x);
    var ticks, d := TicksOf(trace, s), Thresholds(cfg, s, c);
    TicksOfSite(trace, s);
    TwoOutages(ticks, x, d);
    PromiseOnTrace(cfg, trace, s, c);
  }

  lemma {:induction false} TwoOutages(ticks: seq<Tick>, x: nat, d: set<int>)
    requires x in d && x >= 1 && |ticks| == 2 * x + 1
    requires forall i | 0 <= i < |ticks| :: ticks[i].up <==> i == x
    ensures |Confirmed(ticks, d)| > 1
  {
    var i := OutagesComplete(ticks, 0, x);
    var j := OutagesComplete(ticks, x + 1, 2 * x + 1);
    assert LongAt(Outages(ticks), i + 1, d) && LongAt(Outages(ticks), j + 1, d);
    SubsetSize({i + 1, j + 1}, Confirmed(ticks, d));
  }

  lemma {:induction false} OneOutage(ticks: seq<Tick>, x: nat, d: set<int>)
    requires x in d && x >= 1 && |ticks| == x && forall i | 0 <= i < x :: !ticks[i].up
    ensures Confirmed(ticks, d) != {}
  {
    var i := OutagesComplete(ticks, 0, x);
    assert LongAt(Outages(ticks), i + 1, d);
    assert i + 1 in Confirmed(ticks, d);
  }

  lemma {:induction false} SubsetSize(a: set<int>, b: set<int>)
    requires a <= b
    ensures |a| <= |b|
  {
    assert b == a + (b - a);
  }

  /** One outage of x >= 2 ticks breaks it when another rule has threshold 1. */
  lemma {:induction false} MixedThresholdsBreak(cfg: Config, s: string, c: int, x: int)
    requires x in Thresholds(cfg, s, c) && 1 in Thresholds(cfg, s, c) && x > 1
    ensures !OneMailPerOutage(cfg, DownTrace(s, x, -1), s, c)
  {
    var trace := DownTrace(s, x, -1);
    var ticks, d := TicksOf(trace, s), Thresholds(cfg, s, c);
    TicksOfSite(trace, s);
    OneOutage(ticks, x, d - {1});
    PromiseOnTrace(cfg, trace, s, c);
  }

  /** The code keeps one mail per confirmed outage on every trace exactly when a channel's only threshold is 1 (or it has no rule). */
  lemma {:induction false} PromiseIffThresholdOne(cfg: Config, s: string, c: int)
    ensures (forall trace :: OneMailPerOutage(cfg, trace, s, c)) <==> Thresholds(cfg, s, c) <= {1}
  {
    var d := Thresholds(cfg, s, c);
    if d <= {1} {
      forall trace ensures OneMailPerOutage(cfg, trace, s, c) {
        PromiseOnTrace(cfg, trace, s, c);
        assert d - {1} == {} && Confirmed(TicksOf(trace, s), {}) == {};
        assert 1 !in d ==> d == {};
      }
    } else {
      var x :| x in d && x != 1;
      if 1 in d { MixedThresholdsBreak(cfg, s, c, x); } else { TwoOutagesBreak(cfg, s, c, x); }
    }
  }

  // --- the recovery half ---

  /** One RECOVERED row for each confirmed outage that is over, under the outage's own number. */
  ghost predicate RecoveryPerOutage(cfg: Config, trace: seq<Step>, s: string, c: int) {
    Numbers(Mails(cfg, trace, false, SiteRecovered, s, c)) == Confirmed(TicksOf(trace, s), Thresholds(cfg, s, c)) * Over(TicksOf(trace, s))
  }

  /** With a rule at 1 every outage is confirmed, so the announced ones that are over are all that are over. */
  lemma {:induction false} OneRecovers(ticks: seq<Tick>, d: set<int>)
    requires 1 in d && forall x | x in d :: x >= 1
    ensures DownNumbers(ticks, d, false) * Over(ticks) == Confirmed(ticks, d) * Over(ticks)
  {
    OneCounts(ticks, d);
    var n := Opened(ticks);
    forall k | k in Over(ticks) ensures k in UpTo(n) { OverAreResolved(ticks, k); }
  }

  lemma {:induction false} RecoveredRows(cfg: Config, trace: seq<Step>, s: string, c: int)
    requires TellsRecovery(cfg, s, c)
    ensures var ticks, d := TicksOf(trace, s), Thresholds(cfg, s, c);
      Numbers(Mails(cfg, trace, false, SiteRecovered, s, c)) == DownNumbers(ticks, d, false) * Over(ticks)
  {
    MailsFromHistory(cfg, trace, false, s, c);
  }

  /** On one trace: with a rule at 1 always; without, iff no confirmed outage is over. */
  lemma {:induction false} RecoveryOnTrace(cfg: Config, trace: seq<Step>, s: string, c: int)
    requires TellsRecovery(cfg, s, c)
    ensures var ticks, d := TicksOf(trace, s), Thresholds(cfg, s, c);
      RecoveryPerOutage(cfg, trace, s, c) <==> 1 in d || Confirmed(ticks, d) * Over(ticks) == {}
  {
    var ticks, d := TicksOf(trace, s), Thresholds(cfg, s, c);
    RecoveredRows(cfg, trace, s, c);
    if 1 in d { OneRecovers(ticks, d); } else { LaterCounts(ticks, d); }
  }

  /** A channel that hears of recoveries hears of each one, on every trace, exactly when it has a rule with threshold 1 (or no down rule). */
  lemma {:induction false} RecoveryPromiseIff(cfg: Config, s: string, c: int)
    requires TellsRecovery(cfg, s, c)
    ensures (forall trace :: RecoveryPerOutage(cfg, trace, s, c)) <==> 1 in Thresholds(cfg, s, c) || Thresholds(cfg, s, c) == {}
  {
    var d := Thresholds(cfg, s, c);
    if 1 in d || d == {} {
      forall trace ensures RecoveryPerOutage(cfg, trace, s, c) {
        RecoveryOnTrace(cfg, trace, s, c);
        if d == {} { assert Confirmed(TicksOf(trace, s), d) == {}; }
      }
    } else {
      var x :| x in d;
      var trace := DownTrace(s, x + 1, x);
      var ticks := TicksOf(trace, s);
      TicksOfSite(trace, s);
      var i := OutagesComplete(ticks, 0, x);
      assert LongAt(Outages(ticks), i + 1, d) && OverAt(Outages(ticks), i + 1, |ticks|);
      assert i + 1 in Confirmed(ticks, d) * Over(ticks);
      RecoveryOnTrace(cfg, trace, s, c);
    }
  }
}
