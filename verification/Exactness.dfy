/**
 * Ticks recorded and their transitions dispatched in order, none lost, with fixed rules:
 * which alerts the ledger then holds, and when that is what the documentation promises.
 */
module Exactness {
  import opened Keys
  import opened Incidents
  import opened Alerting

  /** A tick of some site, and the clock reading when its event is handled. */
  datatype Step = Step(site: string, tick: Tick, warnDays: int, now: int)

  /** The ticks of one site in a trace that interleaves many. */
  function TicksOf(trace: seq<Step>, site: string): (ticks: seq<Tick>) {
    if trace == [] then []
    else
      var last := trace[|trace| - 1];
      TicksOf(trace[..|trace| - 1], site) + if last.site == site then [last.tick] else []
  }

  /**
   * The variant: a transition of a down tick carries the open incident's id.
   * The code (`carry` false) leaves 0 there from the second failure on.
   */
  function Carried(tr: Transition, ticks: seq<Tick>, carry: bool): Transition {
    if carry && !tr.up then tr.(incidentId := Opened(ticks)) else tr
  }

  /** The event the last tick of a trace causes. */
  function LastEvent(trace: seq<Step>, carry: bool): (e: Event)
    requires trace != []
  {
    var last := trace[|trace| - 1];
    var ticks := TicksOf(trace, last.site);
    assert ticks[|ticks| - 1] == last.tick;
    Event(last.site, last.warnDays, Carried(LastTransition(ticks), ticks, carry))
  }

  /** The ledger after a trace. */
  function LedgerOf(cfg: Config, trace: seq<Step>, carry: bool): (claims: seq<Claim>) {
    if trace == [] then []
    else Handled(LedgerOf(cfg, trace[..|trace| - 1], carry), cfg, LastEvent(trace, carry), trace[|trace| - 1].now)
  }

  ghost predicate Has(claims: seq<Claim>, kind: Kind, site: string, n: int, c: int) {
    Claimed(claims, DedupeKey(kind, site, n, c))
  }

  // --- what one event adds ---

  lemma {:induction false} InsertHas(claims: seq<Claim>, c: Claim, k: Kind, s: string, n: int, ch: int,
                                     k': Kind, s': string, n': int, ch': int)
    requires c.key == DedupeKey(k', s', n', ch')
    ensures Has(Insert(claims, c), k, s, n, ch) <==> Has(claims, k, s, n, ch) || (k == k' && s == s' && n == n' && ch == ch')
  {
    if DedupeKey(k, s, n, ch) == c.key { KeyInjective(k, s, n, ch, k', s', n', ch'); }
  }

  /** Whether one of some rules fires on a channel for an event, given whether its outage was announced. */
  ghost predicate AnyFires(rules: seq<Rule>, e: Event, kind: Kind, c: int, now: int, announced: bool) {
    exists r | r in rules :: r.channelId == c && Render(e, kind, r, now, announced).Some?
  }

  lemma {:induction false} RuleAdds(claims: seq<Claim>, e: Event, kind: Kind, rule: Rule, now: int,
                                    k: Kind, s: string, n: int, c: int)
    ensures Has(AppliedRule(claims, e, kind, rule, now), k, s, n, c) <==>
            || Has(claims, k, s, n, c)
            || (k == kind && s == e.site && n == KeyNumber(e, kind) && c == rule.channelId
                && Render(e, kind, rule, now, Has(claims, SiteDown, s, n, c)).Some?)
  {
    var key := Render(e, kind, rule, now, Claimed(claims, DownKey(e, rule)));
    if key.Some? {
      InsertHas(claims, ClaimOf(e, kind, rule, key.value), k, s, n, c, kind, e.site, KeyNumber(e, kind), rule.channelId);
    }
  }

  lemma {:induction false} RulesAdd(claims: seq<Claim>, e: Event, kind: Kind, rules: seq<Rule>, now: int,
                                    k: Kind, s: string, n: int, c: int)
    ensures Has(AppliedRules(claims, e, kind, rules, now), k, s, n, c) <==>
            || Has(claims, k, s, n, c)
            || (k == kind && s == e.site && n == KeyNumber(e, kind)
                && AnyFires(rules, e, kind, c, now, Has(claims, SiteDown, s, n, c)))
    decreases |rules|
  {
    if rules != [] {
      var mid := AppliedRule(claims, e, kind, rules[0], now);
      RuleAdds(claims, e, kind, rules[0], now, k, s, n, c);
      RuleAdds(claims, e, kind, rules[0], now, SiteDown, s, n, c);
      RulesAdd(mid, e, kind, rules[1..], now, k, s, n, c);
      assert forall r :: r in rules <==> r == rules[0] || r in rules[1..];
    }
  }

  /** Thresholds of the enabled down rules that reach a channel. */
  function Thresholds(cfg: Config, site: string, c: int): (d: set<int>)
    ensures forall x | x in d :: x >= 1
  {
    set r | r in cfg.rules && Applies(cfg, r, site, SiteDown) && r.channelId == c :: Confirm(r)
  }

  /** The down rule is enabled, on the channel, which is enabled too, and for this site or for every one. */
  predicate DownRule(cfg: Config, r: Rule, site: string, c: int) {
    && r in cfg.rules && r.kind == SiteDown && r.enabled && r.channelId == c
    && c in cfg.channels && cfg.channels[c].enabled && (r.site.None? || r.site.value == site)
  }

  /** The thresholds are the `confirm_after` of such rules, or 1 where that is less. */
  lemma {:induction false} ThresholdsIff(cfg: Config, site: string, c: int, x: int)
    ensures x in Thresholds(cfg, site, c) <==>
      exists r | r in cfg.rules :: DownRule(cfg, r, site, c) && x == if r.confirmAfter < 1 then 1 else r.confirmAfter
  {
    if x in Thresholds(cfg, site, c) {
      var r :| r in cfg.rules && Applies(cfg, r, site, SiteDown) && r.channelId == c && Confirm(r) == x;
      assert DownRule(cfg, r, site, c);
    }
    if r :| r in cfg.rules && DownRule(cfg, r, site, c) && x == if r.confirmAfter < 1 then 1 else r.confirmAfter {
      assert Applies(cfg, r, site, SiteDown) && Confirm(r) == x;
    }
  }

  /** Whether an enabled recovery rule reaches a channel. */
  predicate TellsRecovery(cfg: Config, site: string, c: int) {
    exists r | r in cfg.rules :: Applies(cfg, r, site, SiteRecovered) && r.channelId == c
  }

  /** The kinds an event can have, each as a list of none or one. */
  function DownKind(e: Event): (ks: seq<Kind>) { if !e.tr.up && e.tr.consecutiveFailures > 0 then [SiteDown] else [] }

  function RecoveredKind(e: Event): (ks: seq<Kind>) { if e.tr.incidentResolved then [SiteRecovered] else [] }

  function ExpiryKind(e: Event): (ks: seq<Kind>) { if e.tr.sslChecked && e.tr.sslExpiresAt > 0 then [SslExpiring] else [] }

  lemma {:induction false} HandledByKind(claims: seq<Claim>, cfg: Config, e: Event, now: int)
    ensures Handled(claims, cfg, e, now) ==
      After(After(After(claims, cfg, e, DownKind(e), now), cfg, e, RecoveredKind(e), now), cfg, e, ExpiryKind(e), now)
  {
    var down, rec, ssl := DownKind(e), RecoveredKind(e), ExpiryKind(e);
    assert KindsFor(e.tr) == down + (rec + ssl);
    assert ssl + [] == ssl;
    KindFirst(claims, cfg, e, down, rec + ssl, now);
    var a := After(claims, cfg, e, down, now);
    KindFirst(a, cfg, e, rec, ssl, now);
    KindFirst(After(a, cfg, e, rec, now), cfg, e, ssl, [], now);
  }

  /** The rows one handled event adds, kind by kind. */
  lemma {:induction false} EventPasses(claims: seq<Claim>, cfg: Config, e: Event, now: int, k: Kind, s: string, n: int, c: int)
    requires e.tr.incidentResolved ==> e.tr.up
    ensures var listed := k in KindsFor(e.tr);
      Has(Handled(claims, cfg, e, now), k, s, n, c) <==>
        || Has(claims, k, s, n, c)
        || (listed && s == e.site && n == KeyNumber(e, k)
            && AnyFires(RulesFor(cfg, e.site, k), e, k, c, now, Has(claims, SiteDown, s, n, c)))
  {
    HandledByKind(claims, cfg, e, now);
    var a := After(claims, cfg, e, DownKind(e), now);
    var b := After(a, cfg, e, RecoveredKind(e), now);
    KindAdds(claims, cfg, e, DownKind(e), now, k, s, n, c);
    KindAdds(claims, cfg, e, DownKind(e), now, SiteDown, s, n, c);
    KindAdds(a, cfg, e, RecoveredKind(e), now, k, s, n, c);
    KindAdds(a, cfg, e, RecoveredKind(e), now, SiteDown, s, n, c);
    KindAdds(b, cfg, e, ExpiryKind(e), now, k, s, n, c);
    if k == SslExpiring {
      ExpiryFires(cfg, e, now, c, Has(claims, SiteDown, s, n, c));
      ExpiryFires(cfg, e, now, c, Has(b, SiteDown, s, n, c));
    }
  }

  lemma {:induction false} EventAdds(claims: seq<Claim>, cfg: Config, e: Event, now: int, s: string, n: int, c: int)
    requires e.tr.incidentResolved ==> e.tr.up
    ensures Has(Handled(claims, cfg, e, now), SiteDown, s, n, c) <==>
            || Has(claims, SiteDown, s, n, c)
            || (s == e.site && n == e.tr.incidentId && !e.tr.up && e.tr.consecutiveFailures > 0
                && e.tr.consecutiveFailures in Thresholds(cfg, s, c))
    ensures Has(Handled(claims, cfg, e, now), SiteRecovered, s, n, c) <==>
            || Has(claims, SiteRecovered, s, n, c)
            || (s == e.site && n == e.tr.incidentId && e.tr.incidentResolved
                && Has(claims, SiteDown, s, n, c) && TellsRecovery(cfg, s, c))
  {
    EventPasses(claims, cfg, e, now, SiteDown, s, n, c);
    EventPasses(claims, cfg, e, now, SiteRecovered, s, n, c);
    WhoFires(cfg, e, now, c, Has(claims, SiteDown, s, n, c));
  }

  /** The ledger after at most one kind. */
  function After(claims: seq<Claim>, cfg: Config, e: Event, kinds: seq<Kind>, now: int): seq<Claim>
    requires |kinds| <= 1
  {
    if kinds == [] then claims else AppliedRules(claims, e, kinds[0], RulesFor(cfg, e.site, kinds[0]), now)
  }

  lemma {:induction false} KindFirst(claims: seq<Claim>, cfg: Config, e: Event, kinds: seq<Kind>, rest: seq<Kind>, now: int)
    requires |kinds| <= 1
    ensures HandledKinds(claims, cfg, e, kinds + rest, now) == HandledKinds(After(claims, cfg, e, kinds, now), cfg, e, rest, now)
  {
    if kinds == [] {
      assert kinds + rest == rest;
    } else {
      assert (kinds + rest)[0] == kinds[0] && (kinds + rest)[1..] == rest;
    }
  }

  lemma {:induction false} KindAdds(claims: seq<Claim>, cfg: Config, e: Event, kinds: seq<Kind>, now: int, k: Kind, s: string, n: int, c: int)
    requires |kinds| <= 1
    ensures Has(After(claims, cfg, e, kinds, now), k, s, n, c) <==>
            || Has(claims, k, s, n, c)
            || (kinds == [k] && s == e.site && n == KeyNumber(e, k)
                && AnyFires(RulesFor(cfg, e.site, k), e, k, c, now, Has(claims, SiteDown, s, n, c)))
  {
    if kinds != [] { RulesAdd(claims, e, kinds[0], RulesFor(cfg, e.site, kinds[0]), now, k, s, n, c); }
  }

  lemma {:induction false} WhoFires(cfg: Config, e: Event, now: int, c: int, announced: bool)
    ensures AnyFires(RulesFor(cfg, e.site, SiteDown), e, SiteDown, c, now, announced)
       <==> e.tr.consecutiveFailures in Thresholds(cfg, e.site, c)
    ensures AnyFires(RulesFor(cfg, e.site, SiteRecovered), e, SiteRecovered, c, now, announced)
       <==> announced && TellsRecovery(cfg, e.site, c)
  {
    var rs := RulesFor(cfg, e.site, SiteDown);
    if r :| r in cfg.rules && Applies(cfg, r, e.site, SiteDown) && r.channelId == c && Confirm(r) == e.tr.consecutiveFailures {
      assert r in rs;
    }
    if TellsRecovery(cfg, e.site, c) {
      var r :| r in cfg.rules && Applies(cfg, r, e.site, SiteRecovered) && r.channelId == c;
      assert r in RulesFor(cfg, e.site, SiteRecovered);
    }
  }

  // --- certificate alerts ---

  /** Whether an enabled certificate rule reaches a channel. */
  predicate TellsExpiry(cfg: Config, site: string, c: int) {
    exists r | r in cfg.rules :: Applies(cfg, r, site, SslExpiring) && r.channelId == c
  }

  /** The tick checked the certificate of the site, found that it expires at x, and its event came inside the warning window. */
  predicate Warns(st: Step, s: string, x: int) {
    && st.site == s && st.tick.sslChecked && st.tick.sslExpiresAt == x > 0
    && x - st.now < ((if st.warnDays <= 0 then 14 else st.warnDays) + 1) * 86400
  }

  lemma {:induction false} ExpiryFires(cfg: Config, e: Event, now: int, c: int, announced: bool)
    ensures AnyFires(RulesFor(cfg, e.site, SslExpiring), e, SslExpiring, c, now, announced) <==>
      TellsExpiry(cfg, e.site, c) && e.tr.sslExpiresAt - now < (WarnDays(e) + 1) * SECONDS_PER_DAY
  {
    forall r ensures Render(e, SslExpiring, r, now, announced).Some? <==>
                     e.tr.sslExpiresAt - now < (WarnDays(e) + 1) * SECONDS_PER_DAY
    {
      SslFiresWithin(e, r, now);
    }
    if TellsExpiry(cfg, e.site, c) {
      var r :| r in cfg.rules && Applies(cfg, r, e.site, SslExpiring) && r.channelId == c;
      assert r in RulesFor(cfg, e.site, SslExpiring);
    }
  }

  /** The certificate fields an event carries are its tick's. */
  lemma {:induction false} LastEventCertificate(trace: seq<Step>, carry: bool)
    requires trace != []
    ensures var e, last := LastEvent(trace, carry), trace[|trace| - 1];
      && e.site == last.site && e.warnDays == last.warnDays
      && e.tr.sslChecked == last.tick.sslChecked && e.tr.sslExpiresAt == last.tick.sslExpiresAt
      && (e.tr.incidentResolved ==> e.tr.up)
  {
    LastEventFacts(trace, carry);
    var ticks := TicksOf(trace, trace[|trace| - 1].site);
    assert ticks[|ticks| - 1] == trace[|trace| - 1].tick;
  }

  /** Some check of the trace found the date inside the warning window. */
  ghost predicate Warned(trace: seq<Step>, s: string, x: int) { exists i | 0 <= i < |trace| :: Warns(trace[i], s, x) }

  lemma {:induction false} WarnedLast(trace: seq<Step>, s: string, x: int)
    requires trace != []
    ensures Warned(trace, s, x) <==> Warned(trace[..|trace| - 1], s, x) || Warns(trace[|trace| - 1], s, x)
  {
    var n := |trace| - 1;
    var before := trace[..n];
    if i :| 0 <= i < |trace| && Warns(trace[i], s, x) { if i < n { assert before[i] == trace[i]; } }
    if i :| 0 <= i < n && Warns(before[i], s, x) { assert trace[i] == before[i]; }
  }

  lemma {:induction false} ExpiryAdds(claims: seq<Claim>, cfg: Config, e: Event, now: int, s: string, x: int, c: int)
    requires e.tr.incidentResolved ==> e.tr.up
    ensures Has(Handled(claims, cfg, e, now), SslExpiring, s, x, c) <==>
      || Has(claims, SslExpiring, s, x, c)
      || (TellsExpiry(cfg, s, c) && s == e.site && e.tr.sslChecked && e.tr.sslExpiresAt == x > 0 && x - now < (WarnDays(e) + 1) * SECONDS_PER_DAY)
  {
    EventPasses(claims, cfg, e, now, SslExpiring, s, x, c);
    ExpiryFires(cfg, e, now, c, Has(claims, SiteDown, s, x, c));
    assert SslExpiring in KindsFor(e.tr) <==> e.tr.sslChecked && e.tr.sslExpiresAt > 0;
  }

  lemma {:induction false} ExpiryStep(cfg: Config, trace: seq<Step>, carry: bool, s: string, x: int, c: int)
    requires trace != []
    ensures Has(LedgerOf(cfg, trace, carry), SslExpiring, s, x, c) <==>
      || Has(LedgerOf(cfg, trace[..|trace| - 1], carry), SslExpiring, s, x, c)
      || (TellsExpiry(cfg, s, c) && Warns(trace[|trace| - 1], s, x))
  {
    LastEventCertificate(trace, carry);
    ExpiryAdds(LedgerOf(cfg, trace[..|trace| - 1], carry), cfg, LastEvent(trace, carry), trace[|trace| - 1].now, s, x, c);
  }

  /** A channel's certificate rows on a trace are exactly the expiry dates some check found inside the warning window. */
  lemma {:induction false} ExpiryRowsOnTrace(cfg: Config, trace: seq<Step>, carry: bool, s: string, x: int, c: int)
    ensures Has(LedgerOf(cfg, trace, carry), SslExpiring, s, x, c) <==> TellsExpiry(cfg, s, c) && Warned(trace, s, x)
  {
    if trace != [] {
      ExpiryRowsOnTrace(cfg, trace[..|trace| - 1], carry, s, x, c);
      ExpiryStep(cfg, trace, carry, s, x, c);
      WarnedLast(trace, s, x);
    }
  }

  // --- what a history adds: the numbers DOWN and RECOVERED rows of a channel carry ---

  function DownNumbers(ticks: seq<Tick>, d: set<int>, carry: bool): (ns: set<int>) {
    if ticks == [] then {}
    else
      DownNumbers(ticks[..|ticks| - 1], d, carry) +
      if Streak(ticks) > 0 && Streak(ticks) in d
      then {if carry || Streak(ticks) == 1 then Opened(ticks) else 0}
      else {}
  }

  function RecoveredNumbers(ticks: seq<Tick>, d: set<int>, carry: bool): (ns: set<int>) {
    if ticks == [] then {}
    else
      var before := ticks[..|ticks| - 1];
      RecoveredNumbers(before, d, carry) +
      if Streak(ticks) == 0 && Streak(before) > 0 && Opened(ticks) in DownNumbers(before, d, carry)
      then {Opened(ticks)}
      else {}
  }

  /** The event a trace ends with, in terms of its site's own history. */
  lemma {:induction false} LastEventFacts(trace: seq<Step>, carry: bool)
    requires trace != []
    ensures var last, before := trace[|trace| - 1], trace[..|trace| - 1];
      var ticks, tr := TicksOf(trace, last.site), LastEvent(trace, carry).tr;
      && LastEvent(trace, carry).site == last.site
      && ticks != [] && ticks[..|ticks| - 1] == TicksOf(before, last.site)
      && tr.consecutiveFailures == Streak(ticks)
      && tr.up == (Streak(ticks) == 0)
      && (tr.incidentResolved <==> tr.up && Streak(ticks[..|ticks| - 1]) > 0)
      && (tr.incidentId == if tr.incidentResolved || (Streak(ticks) > 0 && (carry || Streak(ticks) == 1)) then Opened(ticks) else 0)
  {
    var ticks := TicksOf(trace, trace[|trace| - 1].site);
    assert ticks[..|ticks| - 1] == TicksOf(trace[..|trace| - 1], trace[|trace| - 1].site);
    TransitionFacts(ticks);
  }

  /** What the last tick of a trace adds to its site's DOWN rows. */
  ghost predicate AddsDown(cfg: Config, trace: seq<Step>, carry: bool, s: string, n: int, c: int)
    requires trace != []
  {
    var ticks := TicksOf(trace, s);
    && s == trace[|trace| - 1].site
    && Streak(ticks) > 0 && Streak(ticks) in Thresholds(cfg, s, c)
    && n == if carry || Streak(ticks) == 1 then Opened(ticks) else 0
  }

  /** Whether the last tick of a trace resolves incident n of the site. */
  ghost predicate ResolvesNumber(trace: seq<Step>, s: string, n: int)
    requires trace != []
  {
    && s == trace[|trace| - 1].site
    && Streak(TicksOf(trace, s)) == 0 && Streak(TicksOf(trace[..|trace| - 1], s)) > 0
    && n == Opened(TicksOf(trace, s))
  }

  lemma {:induction false} LedgerStep(cfg: Config, trace: seq<Step>, carry: bool, s: string, n: int, c: int)
    requires trace != []
    ensures Has(LedgerOf(cfg, trace, carry), SiteDown, s, n, c) <==>
            Has(LedgerOf(cfg, trace[..|trace| - 1], carry), SiteDown, s, n, c) || AddsDown(cfg, trace, carry, s, n, c)
    ensures Has(LedgerOf(cfg, trace, carry), SiteRecovered, s, n, c) <==>
            || Has(LedgerOf(cfg, trace[..|trace| - 1], carry), SiteRecovered, s, n, c)
            || (ResolvesNumber(trace, s, n) && TellsRecovery(cfg, s, c)
                && Has(LedgerOf(cfg, trace[..|trace| - 1], carry), SiteDown, s, n, c))
  {
    LastEventFacts(trace, carry);
    EventAdds(LedgerOf(cfg, trace[..|trace| - 1], carry), cfg, LastEvent(trace, carry), trace[|trace| - 1].now, s, n, c);
  }

  /**
   * A tick claims a DOWN key exactly when the site's run of down ticks has come to the `confirm_after` of one of the
   * channel's rules (or to 1, for less); under the incident's number if that is the first down tick, and 0 otherwise.
   */
  lemma {:induction false} DownClaimedIff(cfg: Config, trace: seq<Step>, s: string, n: int, c: int)
    requires trace != []
    ensures var before, last, length := trace[..|trace| - 1], trace[|trace| - 1], Streak(TicksOf(trace, s));
      Has(LedgerOf(cfg, trace, false), SiteDown, s, n, c) <==>
      || Has(LedgerOf(cfg, before, false), SiteDown, s, n, c)
      || (s == last.site && n == (if length == 1 then Opened(TicksOf(trace, s)) else 0)
          && exists r | r in cfg.rules :: DownRule(cfg, r, s, c) && length == if r.confirmAfter < 1 then 1 else r.confirmAfter)
  {
    LedgerStep(cfg, trace, false, s, n, c);
    ThresholdsIff(cfg, s, c, Streak(TicksOf(trace, s)));
  }

  /** A tick of another site is no tick of this one; a tick of this site is its history's last. */
  lemma {:induction false} TicksOfLast(trace: seq<Step>, s: string)
    requires trace != []
    ensures var ticks, before := TicksOf(trace, s), TicksOf(trace[..|trace| - 1], s);
      if s == trace[|trace| - 1].site then ticks != [] && ticks[..|ticks| - 1] == before else ticks == before
  {
  }

  lemma {:induction false} DownStep(cfg: Config, trace: seq<Step>, carry: bool, s: string, n: int, c: int)
    requires trace != []
    ensures var d, ticks, before := Thresholds(cfg, s, c), TicksOf(trace, s), TicksOf(trace[..|trace| - 1], s);
      n in DownNumbers(ticks, d, carry) <==> n in DownNumbers(before, d, carry) || AddsDown(cfg, trace, carry, s, n, c)
  {
    TicksOfLast(trace, s);
  }

  lemma {:induction false} RecoveredStep(cfg: Config, trace: seq<Step>, carry: bool, s: string, n: int, c: int)
    requires trace != []
    ensures var d, ticks, before := Thresholds(cfg, s, c), TicksOf(trace, s), TicksOf(trace[..|trace| - 1], s);
      n in RecoveredNumbers(ticks, d, carry) <==>
        n in RecoveredNumbers(before, d, carry) || (ResolvesNumber(trace, s, n) && n in DownNumbers(before, d, carry))
  {
    TicksOfLast(trace, s);
  }

  /** The ledger of a trace holds, per site and channel, exactly the rows its own history accounts for. */
  lemma {:induction false} LedgerMatchesHistory(cfg: Config, trace: seq<Step>, carry: bool, s: string, n: int, c: int)
    ensures Has(LedgerOf(cfg, trace, carry), SiteDown, s, n, c) <==>
            n in DownNumbers(TicksOf(trace, s), Thresholds(cfg, s, c), carry)
    ensures Has(LedgerOf(cfg, trace, carry), SiteRecovered, s, n, c) <==>
            TellsRecovery(cfg, s, c) && n in RecoveredNumbers(TicksOf(trace, s), Thresholds(cfg, s, c), carry)
  {
    if trace != [] {
      LedgerMatchesHistory(cfg, trace[..|trace| - 1], carry, s, n, c);
      LedgerStep(cfg, trace, carry, s, n, c);
      DownStep(cfg, trace, carry, s, n, c);
      RecoveredStep(cfg, trace, carry, s, n, c);
    }
  }

  // --- in terms of outages ---

  /** Outage number k lasted long enough for one of the thresholds. */
  predicate LongAt(os: seq<Outage>, k: int, d: set<int>) {
    1 <= k <= |os| && exists x | x in d :: os[k - 1].end - os[k - 1].first >= x
  }

  /** Outage number k ended before tick n. */
  predicate OverAt(os: seq<Outage>, k: int, n: int) { 1 <= k <= |os| && os[k - 1].end < n }

  function LongIn(os: seq<Outage>, d: set<int>): set<int> { set k | 1 <= k <= |os| && LongAt(os, k, d) }

  function OverIn(os: seq<Outage>, n: int): set<int> { set k | 1 <= k <= |os| && OverAt(os, k, n) }

  /** Numbers of the outages that lasted long enough for one of the thresholds. */
  function Confirmed(ticks: seq<Tick>, d: set<int>): (ks: set<int>) { LongIn(Outages(ticks), d) }

  /** Numbers of the outages that are over. */
  function Over(ticks: seq<Tick>): (ks: set<int>) { OverIn(Outages(ticks), |ticks|) }

  /** A listing of outages within n ticks whose last `streak` ticks were down. */
  ghost predicate Listing(os: seq<Outage>, n: nat, streak: nat) {
    EndsWith(os, n, streak) && forall k | 0 <= k < |os| - 1 :: os[k].end < os[k + 1].first
  }

  lemma {:induction false} LongStep(os: seq<Outage>, n: nat, up: bool, streak: nat, d: set<int>)
    requires Listing(os, n, streak) && forall x | x in d :: x >= 1
    ensures var os' := Extended(os, n, up);
      LongIn(os', d) == LongIn(os, d) + if !up && streak + 1 in d then {|os'|} else {}
  {
    var os' := Extended(os, n, up);
    forall k ensures LongAt(os', k, d) <==> LongAt(os, k, d) || (!up && streak + 1 in d && k == |os'|) {
      if !up && k == |os'| {
        assert os'[k - 1].end - os'[k - 1].first == streak + 1;
        assert k <= |os| ==> os[k - 1].end - os[k - 1].first == streak;
      } else if 1 <= k <= |os'| {
        assert os'[k - 1] == os[k - 1];
      }
    }
  }

  lemma {:induction false} OverInStep(os: seq<Outage>, n: nat, up: bool, streak: nat)
    requires Listing(os, n, streak)
    ensures var os' := Extended(os, n, up);
      && OverIn(os', n + 1) == OverIn(os, n) + (if up && streak > 0 then {|os'|} else {})
      && (!up ==> |os'| !in OverIn(os', n + 1))
  {
    var os' := Extended(os, n, up);
    forall k ensures OverAt(os', k, n + 1) <==> OverAt(os, k, n) || (up && streak > 0 && k == |os'|) {
      if 1 <= k < |os| { assert os[k - 1].end < os[k].first; }
    }
  }

  lemma {:induction false} OutagesAreListing(ticks: seq<Tick>)
    ensures Listing(Outages(ticks), |ticks|, Streak(ticks))
  {
    OutagesEnd(ticks);
    OutagesOrdered(ticks);
  }

  /** What the last tick adds to the confirmed outages, and to those that are over. */
  lemma {:induction false} OutagesStep(ticks: seq<Tick>, d: set<int>)
    requires ticks != [] && forall x | x in d :: x >= 1
    ensures var before, k := ticks[..|ticks| - 1], |Outages(ticks)|;
      && Confirmed(ticks, d) == Confirmed(before, d) + (if Streak(ticks) > 0 && Streak(ticks) in d then {k} else {})
      && Over(ticks) == Over(before) + (if Streak(ticks) == 0 && Streak(before) > 0 then {k} else {})
      && (Streak(ticks) > 0 ==> k !in Over(ticks))
  {
    var n := |ticks| - 1;
    OutagesAreListing(ticks[..n]);
    LongStep(Outages(ticks[..n]), n, ticks[n].up, Streak(ticks[..n]), d);
    OverInStep(Outages(ticks[..n]), n, ticks[n].up, Streak(ticks[..n]));
  }

  /** DOWN rows of the code: every outage if a rule has threshold 1; and one shared row 0 as soon as any outage reaches a later threshold. */
  lemma {:induction false} CodeDownNumbers(ticks: seq<Tick>, d: set<int>)
    requires forall x | x in d :: x >= 1
    ensures DownNumbers(ticks, d, false) ==
            (if 1 in d then Confirmed(ticks, {1}) else {}) + (if Confirmed(ticks, d - {1}) != {} then {0} else {})
  {
    if ticks != [] {
      CodeDownNumbers(ticks[..|ticks| - 1], d);
      OutagesStep(ticks, {1});
      OutagesStep(ticks, d - {1});
      StateIsSummary(ticks);
    }
  }

  /** DOWN rows of the variant: exactly the outages that reached some threshold. */
  lemma {:induction false} VariantDownNumbers(ticks: seq<Tick>, d: set<int>)
    requires forall x | x in d :: x >= 1
    ensures DownNumbers(ticks, d, true) == Confirmed(ticks, d)
  {
    if ticks != [] {
      VariantDownNumbers(ticks[..|ticks| - 1], d);
      OutagesStep(ticks, d);
      StateIsSummary(ticks);
    }
  }

  /** RECOVERED rows, code or variant: the outages that are over and whose own number was announced. */
  lemma {:induction false} RecoveredAreAnnouncedAndOver(ticks: seq<Tick>, d: set<int>, carry: bool)
    ensures RecoveredNumbers(ticks, d, carry) == DownNumbers(ticks, d, carry) * Over(ticks)
  {
    if ticks != [] {
      RecoveredAreAnnouncedAndOver(ticks[..|ticks| - 1], d, carry);
      OutagesStep(ticks, {});
      StateIsSummary(ticks);
    }
  }
}
