/** One worker, each site's events submitted in the site's own order: what a run leaves for one site. */
module SiteOrder {
  import opened Keys
  import opened Alerting
  import opened Ledger
  import opened Protocol
  import opened Steady
  import opened OneWorker
  import Exactness
  import Dispatcher

  /** The step does not submit an event of the site ahead of an older one of it. */
  predicate KeepsOrder(w: World, step: Step, s: string) {
    step.Submit? && step.i < |w.committed| && w.committed[step.i].site == s ==>
      forall j | 0 <= j < step.i :: w.committed[j].site != s
  }

  /** A site's events are submitted in the order its ticks were committed; those of different sites may cross. */
  predicate SiteInOrder(o: Options, w: World, steps: seq<Step>, s: string)
    decreases |steps|
  {
    steps == [] || (KeepsOrder(w, steps[0], s) && SiteInOrder(o, Next(o, w, steps[0]), steps[1..], s))
  }

  lemma {:induction false} InOrderIsSiteInOrder(o: Options, w: World, steps: seq<Step>, s: string)
    requires InOrder(steps)
    ensures SiteInOrder(o, w, steps, s)
    decreases |steps|
  {
    if steps != [] {
      assert steps[0] in steps && forall x | x in steps[1..] :: x in steps;
      InOrderIsSiteInOrder(o, Next(o, w, steps[0]), steps[1..], s);
    }
  }

  // --- a site's keys depend on the site's events ---

  /** The same DOWN and RECOVERED keys for a site. */
  ghost predicate AlikeAt(a: seq<Claim>, b: seq<Claim>, s: string) {
    forall k, n, c | k != SslExpiring :: Exactness.Has(a, k, s, n, c) <==> Exactness.Has(b, k, s, n, c)
  }

  lemma {:induction false} AlikeIsAt(a: seq<Claim>, b: seq<Claim>, s: string)
    requires Alike(a, b)
    ensures AlikeAt(a, b, s)
  {
    forall k, n, c | k != SslExpiring ensures Exactness.Has(a, k, s, n, c) <==> Exactness.Has(b, k, s, n, c) {
    }
  }

  lemma {:induction false} AtTransitive(a: seq<Claim>, b: seq<Claim>, c: seq<Claim>, s: string)
    requires AlikeAt(a, b, s) && AlikeAt(b, c, s)
    ensures AlikeAt(a, c, s)
  {
    forall k, n, ch | k != SslExpiring ensures Exactness.Has(a, k, s, n, ch) <==> Exactness.Has(c, k, s, n, ch) {
      assert Exactness.Has(a, k, s, n, ch) <==> Exactness.Has(b, k, s, n, ch);
    }
  }

  /** Down and recovery rules fire at any time alike. */
  lemma {:induction false} FiresAnyTime(rules: seq<Rule>, e: Event, k: Kind, c: int, now: int, now': int, announced: bool)
    requires k != SslExpiring
    ensures Exactness.AnyFires(rules, e, k, c, now, announced) <==> Exactness.AnyFires(rules, e, k, c, now', announced)
  {
  }

  lemma {:induction false} RulesAt(a: seq<Claim>, b: seq<Claim>, e: Event, kind: Kind, rules: seq<Rule>, now: int, now': int, s: string)
    requires AlikeAt(a, b, s)
    ensures AlikeAt(AppliedRules(a, e, kind, rules, now), AppliedRules(b, e, kind, rules, now'), s)
  {
    var a', b' := AppliedRules(a, e, kind, rules, now), AppliedRules(b, e, kind, rules, now');
    forall k, n, c | k != SslExpiring ensures Exactness.Has(a', k, s, n, c) <==> Exactness.Has(b', k, s, n, c) {
      Exactness.RulesAdd(a, e, kind, rules, now, k, s, n, c);
      Exactness.RulesAdd(b, e, kind, rules, now', k, s, n, c);
      assert Exactness.Has(a, k, s, n, c) <==> Exactness.Has(b, k, s, n, c);
      assert Exactness.Has(a, SiteDown, s, n, c) <==> Exactness.Has(b, SiteDown, s, n, c);
      FiresAnyTime(rules, e, k, c, now, now', Exactness.Has(a, SiteDown, s, n, c));
    }
  }

  lemma {:induction false} KindsAt(a: seq<Claim>, b: seq<Claim>, cfg: Config, e: Event, kinds: seq<Kind>, now: int, now': int, s: string)
    requires AlikeAt(a, b, s)
    ensures AlikeAt(HandledKinds(a, cfg, e, kinds, now), HandledKinds(b, cfg, e, kinds, now'), s)
    decreases |kinds|
  {
    if kinds != [] {
      var rules := RulesFor(cfg, e.site, kinds[0]);
      RulesAt(a, b, e, kinds[0], rules, now, now', s);
      KindsAt(AppliedRules(a, e, kinds[0], rules, now), AppliedRules(b, e, kinds[0], rules, now'), cfg, e, kinds[1..], now, now', s);
    }
  }

  lemma {:induction false} OtherRules(a: seq<Claim>, e: Event, kind: Kind, rules: seq<Rule>, now: int, s: string)
    requires e.site != s
    ensures AlikeAt(AppliedRules(a, e, kind, rules, now), a, s)
  {
    forall k, n, c | k != SslExpiring
      ensures Exactness.Has(AppliedRules(a, e, kind, rules, now), k, s, n, c) <==> Exactness.Has(a, k, s, n, c)
    {
      Exactness.RulesAdd(a, e, kind, rules, now, k, s, n, c);
    }
  }

  /** An event of another site changes none of the site's keys. */
  lemma {:induction false} OtherKinds(a: seq<Claim>, cfg: Config, e: Event, kinds: seq<Kind>, now: int, s: string)
    requires e.site != s
    ensures AlikeAt(HandledKinds(a, cfg, e, kinds, now), a, s)
    decreases |kinds|
  {
    if kinds != [] {
      var mid := AppliedRules(a, e, kinds[0], RulesFor(cfg, e.site, kinds[0]), now);
      OtherRules(a, e, kinds[0], RulesFor(cfg, e.site, kinds[0]), now, s);
      OtherKinds(mid, cfg, e, kinds[1..], now, s);
      AtTransitive(HandledKinds(mid, cfg, e, kinds[1..], now), mid, a, s);
    }
  }

  function OfSite(es: seq<Event>, s: string): (own: seq<Event>) {
    if es == [] then [] else (if es[0].site == s then [es[0]] else []) + OfSite(es[1..], s)
  }

  lemma {:induction false} OfSiteConcat(a: seq<Event>, b: seq<Event>, s: string)
    ensures OfSite(a + b, s) == OfSite(a, s) + OfSite(b, s)
  {
    if a == [] {
      assert a + b == b;
    } else {
      assert (a + b)[0] == a[0] && (a + b)[1..] == a[1..] + b;
      OfSiteConcat(a[1..], b, s);
    }
  }

  lemma {:induction false} OfSiteNone(es: seq<Event>, s: string)
    requires forall j | 0 <= j < |es| :: es[j].site != s
    ensures OfSite(es, s) == []
  {
    if es != [] { OfSiteNone(es[1..], s); }
  }

  /** For a site, handling events is handling the site's own, at whatever times. */
  lemma {:induction false} OwnEventsDecide(a: seq<Claim>, b: seq<Claim>, cfg: Config, es: seq<Event>, clock: nat -> int, k: nat, k': nat, s: string)
    requires AlikeAt(a, b, s)
    ensures AlikeAt(Dispatcher.HandledAll(a, cfg, es, clock, k), Dispatcher.HandledAll(b, cfg, OfSite(es, s), clock, k'), s)
    decreases |es|
  {
    if es != [] {
      var e, own := es[0], OfSite(es[1..], s);
      var a' := Handled(a, cfg, e, clock(k));
      Dispatcher.HandledAllHead(a, cfg, es, clock, k);
      if e.site == s {
        KindsAt(a, b, cfg, e, KindsFor(e.tr), clock(k), clock(k'), s);
        OwnEventsDecide(a', Handled(b, cfg, e, clock(k')), cfg, es[1..], clock, k + 1, k' + 1, s);
        OwnFirst(b, cfg, e, own, clock, k');
      } else {
        OtherKinds(a, cfg, e, KindsFor(e.tr), clock(k), s);
        AtTransitive(a', a, b, s);
        OwnEventsDecide(a', b, cfg, es[1..], clock, k + 1, k', s);
        assert OfSite(es, s) == own;
      }
    }
  }

  lemma {:induction false} OwnFirst(claims: seq<Claim>, cfg: Config, e: Event, es: seq<Event>, clock: nat -> int, k: nat)
    ensures Dispatcher.HandledAll(claims, cfg, [e] + es, clock, k) ==
      Dispatcher.HandledAll(Handled(claims, cfg, e, clock(k)), cfg, es, clock, k + 1)
  {
    assert ([e] + es)[1..] == es;
    Dispatcher.HandledAllHead(claims, cfg, [e] + es, clock, k);
  }

  lemma {:induction false} AtSymmetric(a: seq<Claim>, b: seq<Claim>, s: string)
    requires AlikeAt(a, b, s)
    ensures AlikeAt(b, a, s)
  {
    forall k, n, c | k != SslExpiring ensures Exactness.Has(b, k, s, n, c) <==> Exactness.Has(a, k, s, n, c) {
      assert Exactness.Has(a, k, s, n, c) <==> Exactness.Has(b, k, s, n, c);
    }
  }

  lemma {:induction false} SameOwnEvents(claims: seq<Claim>, cfg: Config, es: seq<Event>, es': seq<Event>, clock: nat -> int, k: nat, s: string)
    requires OfSite(es, s) == OfSite(es', s)
    ensures AlikeAt(Dispatcher.HandledAll(claims, cfg, es', clock, k), Dispatcher.HandledAll(claims, cfg, es, clock, k), s)
  {
    assert AlikeAt(claims, claims, s);
    var own := Dispatcher.HandledAll(claims, cfg, OfSite(es, s), clock, k);
    OwnEventsDecide(claims, claims, cfg, es, clock, k, k, s);
    OwnEventsDecide(claims, claims, cfg, es', clock, k, k, s);
    AtSymmetric(Dispatcher.HandledAll(claims, cfg, es, clock, k), own, s);
    AtTransitive(Dispatcher.HandledAll(claims, cfg, es', clock, k), own, Dispatcher.HandledAll(claims, cfg, es, clock, k), s);
  }

  // --- one step ---

  /** Moving an event ahead of events of other sites. */
  lemma {:induction false} MovedAhead(q: seq<Event>, a: seq<Event>, e: Event, z: seq<Event>, s: string)
    requires e.site == s ==> OfSite(a, s) == []
    ensures OfSite((q + [e]) + (a + z), s) == OfSite(q + (a + ([e] + z)), s)
  {
    var x := [e];
    OfSiteConcat(q + x, a + z, s);
    OfSiteConcat(q, x, s);
    OfSiteConcat(a, z, s);
    OfSiteConcat(q, a + (x + z), s);
    OfSiteConcat(a, x + z, s);
    OfSiteConcat(x, z, s);
    OneOfSite(e, s);
    Exchange(OfSite(q, s), OfSite(a, s), OfSite(x, s), OfSite(z, s));
  }

  lemma {:induction false} OneOfSite(e: Event, s: string)
    ensures e.site != s ==> OfSite([e], s) == []
  {
    assert [e][1..] == [];
  }

  lemma {:induction false} Exchange(q: seq<Event>, a: seq<Event>, x: seq<Event>, z: seq<Event>)
    requires a == [] || x == []
    ensures (q + x) + (a + z) == q + (a + (x + z))
  {
  }

  /** A submit that keeps the site's order keeps the site's events as they stand, queued or to be submitted. */
  lemma {:induction false} SubmitOwnEvents(w: World, i: nat, s: string)
    requires i < |w.committed| && KeepsOrder(w, Submit(i), s)
    ensures var rest := w.committed[..i] + w.committed[i + 1..];
      OfSite((w.queue + [w.committed[i]]) + rest, s) == OfSite(w.queue + w.committed, s)
  {
    var a, e, z := w.committed[..i], w.committed[i], w.committed[i + 1..];
    assert w.committed == a + ([e] + z);
    if e.site == s { OfSiteNone(a, s); }
    MovedAhead(w.queue, a, e, z, s);
  }

  lemma {:induction false} AllDoneAt(claims: seq<Claim>, cfg: Config, b: Worker, es: seq<Event>, es': seq<Event>, clock: nat -> int, k: nat, s: string)
    requires OfSite(es, s) == OfSite(es', s)
    ensures AlikeAt(AllDone(claims, cfg, b, es', clock, k), AllDone(claims, cfg, b, es, clock, k), s)
  {
    if b.Busy? {
      SameOwnEvents(EventDone(claims, cfg, b, clock(k)), cfg, es, es', clock, k + 1, s);
    } else {
      SameOwnEvents(claims, cfg, es, es', clock, k, s);
    }
  }

  lemma {:induction false} SubmitAt(o: Options, w: World, i: nat, clock: nat -> int, s: string)
    requires |w.workers| == 1 && Lossless(o, w, Submit(i)) && KeepsOrder(w, Submit(i), s)
    ensures var w' := Next(o, w, Submit(i));
      && w'.workers == w.workers && Started(w') == Started(w) && w'.cfg == w.cfg
      && AlikeAt(Final(w', clock), Final(w, clock), s)
  {
    if i < |w.committed| {
      var w' := Next(o, w, Submit(i));
      SubmitOwnEvents(w, i, s);
      FinalIs(w, Claims(w.ledger), w.cfg, w.workers[0], w.queue + w.committed, clock, w.finished);
      FinalIs(w', Claims(w.ledger), w.cfg, w.workers[0], w'.queue + w'.committed, clock, w.finished);
      AllDoneAt(Claims(w.ledger), w.cfg, w.workers[0], w.queue + w.committed, w'.queue + w'.committed, clock, w.finished, s);
    }
  }

  lemma {:induction false} CommitAt(cfg: Config, trace: seq<Exactness.Step>, step: Step, claims: seq<Claim>, clock: nat -> int, s: string)
    requires step.Commit? && AlikeAt(claims, Exactness.LedgerOf(cfg, trace, false), s)
    ensures var trace' := Traced(trace, step, clock);
      var e := Exactness.LastEvent(trace', false);
      AlikeAt(Handled(claims, cfg, e, clock(|trace|)), Exactness.LedgerOf(cfg, trace', false), s)
  {
    var trace' := Traced(trace, step, clock);
    var e, ledger := Exactness.LastEvent(trace', false), Exactness.LedgerOf(cfg, trace, false);
    assert trace'[..|trace'| - 1] == trace && trace'[|trace'| - 1].now == clock(|trace|);
    assert Exactness.LedgerOf(cfg, trace', false) == Handled(ledger, cfg, e, clock(|trace|));
    KindsAt(claims, ledger, cfg, e, KindsFor(e.tr), clock(|trace|), clock(|trace|), s);
  }

  /** One worker, and once all is done its ledger will have the trace's DOWN and RECOVERED keys for the site. */
  ghost predicate HeadsAt(w: World, cfg: Config, trace: seq<Exactness.Step>, clock: nat -> int, s: string) {
    Frame(w, cfg, trace) && AlikeAt(Final(w, clock), Exactness.LedgerOf(cfg, trace, false), s)
  }

  lemma {:induction false} StepAt(o: Options, w: World, cfg: Config, trace: seq<Exactness.Step>, step: Step, clock: nat -> int, s: string)
    requires HeadsAt(w, cfg, trace, clock, s) && Lossless(o, w, step) && KeepsOrder(w, step, s)
    ensures HeadsAt(Next(o, w, step), cfg, Traced(trace, step, clock), clock, s)
  {
    var ledger := Exactness.LedgerOf(cfg, trace, false);
    NextFollows(o, w, trace, step, clock);
    if step.Commit? {
      CommitFinal(o, w, trace, step, clock);
      CommitAt(cfg, trace, step, Final(w, clock), clock, s);
    } else if step.Submit? {
      SubmitAt(o, w, step.i, clock, s);
      AtTransitive(Final(Next(o, w, step), clock), Final(w, clock), ledger, s);
    } else {
      StepFinal(o, w, step, clock, false);
      AlikeIsAt(Final(Next(o, w, step), clock), Final(w, clock), s);
      AtTransitive(Final(Next(o, w, step), clock), Final(w, clock), ledger, s);
    }
  }

  // --- a whole run ---

  lemma {:induction false} RunAt(o: Options, w: World, cfg: Config, trace: seq<Exactness.Step>, steps: seq<Step>, clock: nat -> int, s: string)
    requires HeadsAt(w, cfg, trace, clock, s) && LosslessRun(o, w, steps) && SiteInOrder(o, w, steps, s)
    ensures HeadsAt(Exec(o, w, steps), cfg, TraceFrom(trace, steps, clock), clock, s)
    decreases |steps|
  {
    if steps != [] {
      StepAt(o, w, cfg, trace, steps[0], clock, s);
      RunAt(o, Next(o, w, steps[0]), cfg, Traced(trace, steps[0], clock), steps[1..], clock, s);
    }
  }

  /**
   * One worker, a site's own events submitted in order: however the sites' events cross, a quiet lossless run has the
   * site's DOWN and RECOVERED keys of in-order dispatch.
   */
  lemma {:induction false} OneWorkerKeepsSite(o: Options, cfg: Config, steps: seq<Step>, clock: nat -> int, s: string)
    requires o.workers == 1 && LosslessRun(o, Start(o, cfg), steps) && SiteInOrder(o, Start(o, cfg), steps, s)
    requires Quiet(Exec(o, Start(o, cfg), steps))
    ensures AlikeAt(Claims(Exec(o, Start(o, cfg), steps).ledger), Exactness.LedgerOf(cfg, TraceOf(steps, clock), false), s)
  {
    var w := Exec(o, Start(o, cfg), steps);
    StartHeads(o, cfg, clock, false);
    AlikeIsAt(Final(Start(o, cfg), clock), [], s);
    RunAt(o, Start(o, cfg), cfg, [], steps, clock, s);
    assert w.queue + w.committed == [];
    assert w.workers[0] in w.workers;
  }
}
