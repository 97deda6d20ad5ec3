/** One worker, events submitted in order: a run that loses and fails nothing ends with the ledger of in-order dispatch. */
module OneWorker {
  import opened Keys
  import opened Incidents
  import opened Alerting
  import opened Ledger
  import opened Protocol
  import opened Steady
  import Exactness
  import Dispatcher

  // --- what is left to do ---

  /** The claims once the worker is done with the kind in hand. */
  function KindDone(claims: seq<Claim>, b: Worker, now: int): seq<Claim>
    requires b.Busy?
  {
    match b.at
    case NextKind => claims
    case HaveChannel(rule) => AppliedRules(AppliedRule(claims, b.event, b.kind, rule, now), b.event, b.kind, b.rules, now)
    case HaveKey(rule, key) => AppliedRules(Alerting.Insert(claims, ClaimOf(b.event, b.kind, rule, key)), b.event, b.kind, b.rules, now)
    case _ => AppliedRules(claims, b.event, b.kind, b.rules, now)
  }

  /** The claims once the worker is done with its event. */
  function EventDone(claims: seq<Claim>, cfg: Config, b: Worker, now: int): seq<Claim>
    requires b.Busy?
  {
    HandledKinds(KindDone(claims, b, now), cfg, b.event, b.kinds, now)
  }

  /** The claims once the worker and everything committed is done; the event in hand or next is the k-th. */
  function AllDone(claims: seq<Claim>, cfg: Config, b: Worker, es: seq<Event>, clock: nat -> int, k: nat): seq<Claim> {
    if b.Busy? then Dispatcher.HandledAll(EventDone(claims, cfg, b, clock(k)), cfg, es, clock, k + 1)
    else Dispatcher.HandledAll(claims, cfg, es, clock, k)
  }

  function Final(w: World, clock: nat -> int): seq<Claim>
    requires |w.workers| == 1
  {
    AllDone(Claims(w.ledger), w.cfg, w.workers[0], w.queue + w.committed, clock, w.finished)
  }

  // --- ledgers that differ only in certificate alerts ---

  ghost predicate Alike(a: seq<Claim>, b: seq<Claim>) {
    forall k, s, n, c | k != SslExpiring :: Exactness.Has(a, k, s, n, c) <==> Exactness.Has(b, k, s, n, c)
  }

  lemma {:induction false} RulesAlike(a: seq<Claim>, b: seq<Claim>, e: Event, kind: Kind, rules: seq<Rule>, now: int, now': int)
    requires Alike(a, b) && (kind != SslExpiring ==> now == now')
    ensures Alike(AppliedRules(a, e, kind, rules, now), AppliedRules(b, e, kind, rules, now'))
  {
    var a', b' := AppliedRules(a, e, kind, rules, now), AppliedRules(b, e, kind, rules, now');
    forall k, s, n, c | k != SslExpiring ensures Exactness.Has(a', k, s, n, c) <==> Exactness.Has(b', k, s, n, c) {
      Exactness.RulesAdd(a, e, kind, rules, now, k, s, n, c);
      Exactness.RulesAdd(b, e, kind, rules, now', k, s, n, c);
      assert Exactness.Has(a, k, s, n, c) <==> Exactness.Has(b, k, s, n, c);
      assert Exactness.Has(a, SiteDown, s, n, c) <==> Exactness.Has(b, SiteDown, s, n, c);
    }
  }

  lemma {:induction false} KindsAlike(a: seq<Claim>, b: seq<Claim>, cfg: Config, e: Event, kinds: seq<Kind>, now: int)
    requires Alike(a, b)
    ensures Alike(HandledKinds(a, cfg, e, kinds, now), HandledKinds(b, cfg, e, kinds, now))
    decreases |kinds|
  {
    if kinds != [] {
      var rules := RulesFor(cfg, e.site, kinds[0]);
      RulesAlike(a, b, e, kinds[0], rules, now, now);
      KindsAlike(AppliedRules(a, e, kinds[0], rules, now), AppliedRules(b, e, kinds[0], rules, now), cfg, e, kinds[1..], now);
    }
  }

  lemma {:induction false} EventsAlike(a: seq<Claim>, b: seq<Claim>, cfg: Config, es: seq<Event>, clock: nat -> int, k: nat)
    requires Alike(a, b)
    ensures Alike(Dispatcher.HandledAll(a, cfg, es, clock, k), Dispatcher.HandledAll(b, cfg, es, clock, k))
    decreases |es|
  {
    if es != [] {
      KindsAlike(a, b, cfg, es[0], KindsFor(es[0].tr), clock(k));
      EventsAlike(Handled(a, cfg, es[0], clock(k)), Handled(b, cfg, es[0], clock(k)), cfg, es[1..], clock, k + 1);
    }
  }

  // --- one act ---

  /** A certificate alert is evaluated on time when the clock reads what it reads for the event. */
  predicate OnTime(b: Worker, act: Act, now: int) {
    b.Busy? && b.at.HaveChannel? && act.Evaluate? && b.kind == SslExpiring ==> act.now == now
  }

  /** What the worker holds fits the configuration. */
  ghost predicate Fit(cfg: Config, b: Worker) {
    b.Busy? && b.at != NextKind ==> forall r | r in b.rules :: r.channelId in cfg.channels
  }

  lemma {:induction false} PickedKind(o: Options, w: World, b: Worker, claims: seq<Claim>, now: int)
    requires b.Busy? && b.at.NextKind? && b.kinds != []
    ensures var b' := Moved(o, w, b, PickKind(false));
      b'.Busy? && EventDone(claims, w.cfg, b', now) == EventDone(claims, w.cfg, b, now)
  {
  }

  lemma {:induction false} PickedRule(o: Options, w: World, b: Worker, claims: seq<Claim>, now: int)
    requires b.Busy? && b.at.NextRule? && b.rules != [] && Fit(w.cfg, b)
    ensures var b' := Moved(o, w, b, PickRule(false));
      b'.Busy? && KindDone(claims, b', now) == KindDone(claims, b, now) && b'.kinds == b.kinds && b'.event == b.event
  {
    assert b.rules[0] in b.rules;
  }

  /** The kind is done alike whichever way the evaluation goes, and exactly so if it is on time. */
  lemma {:induction false} Evaluated(o: Options, w: World, b: Worker, at: int, now: int)
    requires b.Busy? && b.at.HaveChannel?
    ensures var b', claims := Moved(o, w, b, Evaluate(at, false)), Claims(w.ledger);
      && b'.Busy? && b'.kinds == b.kinds && b'.event == b.event
      && Alike(KindDone(claims, b', now), KindDone(claims, b, now))
      && (OnTime(b, Evaluate(at, false), now) ==> KindDone(claims, b', now) == KindDone(claims, b, now))
  {
    var claims, rule := Claims(w.ledger), b.at.rule;
    var there := AppliedRule(claims, b.event, b.kind, rule, at);
    var here := AppliedRule(claims, b.event, b.kind, rule, now);
    assert KindDone(claims, Moved(o, w, b, Evaluate(at, false)), now) == AppliedRules(there, b.event, b.kind, b.rules, now);
    if b.kind != SslExpiring || at == now {
      assert there == here;
    } else {
      OneRule(claims, b.event, b.kind, rule, at);
      OneRule(claims, b.event, b.kind, rule, now);
      RulesAlike(claims, claims, b.event, b.kind, [rule], at, now);
    }
    RulesAlike(there, here, b.event, b.kind, b.rules, now, now);
  }

  lemma {:induction false} OneRule(claims: seq<Claim>, e: Event, kind: Kind, rule: Rule, now: int)
    ensures AppliedRules(claims, e, kind, [rule], now) == AppliedRule(claims, e, kind, rule, now)
  {
    var mid := AppliedRule(claims, e, kind, rule, now);
    assert [rule][1..] == [] && AppliedRules(mid, e, kind, [], now) == mid;
  }

  lemma {:induction false} Inserted(o: Options, w: World, b: Worker, now: int)
    requires b.Busy? && b.at.HaveKey?
    ensures var act := InsertRow(false);
      var b', claims' := Moved(o, w, b, act), Claims(LedgerAfter(w, b, act));
      && b'.Busy? && b'.kinds == b.kinds && b'.event == b.event
      && KindDone(claims', b', now) == KindDone(Claims(w.ledger), b, now)
  {
    var row := ClaimOf(b.event, b.kind, b.at.rule, b.at.key);
    var claims' := Claims(LedgerAfter(w, b, InsertRow(false)));
    assert claims' == Alerting.Insert(Claims(w.ledger), row);
  }

  lemma {:induction false} OtherAct(o: Options, w: World, b: Worker, act: Act, now: int)
    requires b.Busy? && Faultless(act) && !(b.at.HaveKey? && act.InsertRow?)
    requires !(b.at.NextKind? && act.PickKind?) && !(b.at.NextRule? && act.PickRule?) && !(b.at.HaveChannel? && act.Evaluate?)
    ensures var b' := Moved(o, w, b, act);
      && Claims(LedgerAfter(w, b, act)) == Claims(w.ledger)
      && (b'.Busy? ==> b'.kinds == b.kinds && b'.event == b.event && KindDone(Claims(w.ledger), b', now) == KindDone(Claims(w.ledger), b, now))
      && (!b'.Busy? ==> b'.Idle? && EventDone(Claims(w.ledger), w.cfg, b, now) == Claims(w.ledger))
  {
  }

  /** A faultless act changes what the event will have claimed in no DOWN or RECOVERED row, and in none at all if it is on time. */
  lemma {:induction false} ActKeepsEvent(o: Options, w: World, b: Worker, act: Act, now: int)
    requires b.Busy? && Faultless(act) && Fit(w.cfg, b)
    ensures var b', claims' := Moved(o, w, b, act), Claims(LedgerAfter(w, b, act));
      var before := EventDone(Claims(w.ledger), w.cfg, b, now);
      var after := if b'.Busy? then EventDone(claims', w.cfg, b', now) else claims';
      && (b'.Busy? || b'.Idle?) && Fit(w.cfg, b')
      && Alike(after, before)
      && (OnTime(b, act, now) ==> after == before)
  {
    var claims := Claims(w.ledger);
    if b.at.HaveKey? && act.InsertRow? {
      Inserted(o, w, b, now);
    } else if b.at.NextKind? && act.PickKind? {
      if b.kinds != [] { PickedKind(o, w, b, claims, now); }
    } else if b.at.NextRule? && act.PickRule? {
      if b.rules != [] { PickedRule(o, w, b, claims, now); }
    } else if b.at.HaveChannel? && act.Evaluate? {
      Evaluated(o, w, b, act.now, now);
      KindsAlike(KindDone(claims, Moved(o, w, b, act), now), KindDone(claims, b, now), w.cfg, b.event, b.kinds, now);
    } else {
      OtherAct(o, w, b, act, now);
    }
  }

  // --- one step ---

  /** Events handled, in hand, queued or to be submitted: the ticks committed so far. */
  function Started(w: World): nat
    requires |w.workers| == 1
  {
    w.finished + (if w.workers[0].Busy? then 1 else 0) + |w.queue| + |w.committed|
  }

  /** The step evaluates certificate alerts when the clock reads what it reads for the event in hand. */
  predicate Punctual(w: World, step: Step, clock: nat -> int) {
    step.Work? && step.w < |w.workers| ==> OnTime(w.workers[step.w], step.act, clock(w.finished))
  }

  predicate PunctualRun(o: Options, w: World, steps: seq<Step>, clock: nat -> int)
    decreases |steps|
  {
    steps == [] || (Punctual(w, steps[0], clock) && PunctualRun(o, Next(o, w, steps[0]), steps[1..], clock))
  }

  /** One worker under a fixed configuration, and the ticks committed so far. */
  ghost predicate Frame(w: World, cfg: Config, trace: seq<Exactness.Step>) {
    |w.workers| == 1 && w.cfg == cfg && Fit(cfg, w.workers[0]) && Follows(w, trace) && Started(w) == |trace|
  }

  /** The claims are those of the ledger, certificate alerts apart if evaluation is not punctual. */
  ghost predicate Matches(claims: seq<Claim>, ledger: seq<Claim>, punctual: bool) {
    Alike(claims, ledger) && (punctual ==> claims == ledger)
  }

  lemma {:induction false} MatchesTransitive(a: seq<Claim>, b: seq<Claim>, c: seq<Claim>, punctual: bool)
    requires Matches(a, b, punctual) && Matches(b, c, punctual)
    ensures Matches(a, c, punctual)
  {
    forall k, s, n, ch | k != SslExpiring ensures Exactness.Has(a, k, s, n, ch) <==> Exactness.Has(c, k, s, n, ch) {
      assert Exactness.Has(a, k, s, n, ch) <==> Exactness.Has(b, k, s, n, ch);
    }
  }

  lemma {:induction false} AllDoneSnoc(claims: seq<Claim>, cfg: Config, b: Worker, es: seq<Event>, e: Event, clock: nat -> int, k: nat)
    ensures AllDone(claims, cfg, b, es + [e], clock, k) ==
      Handled(AllDone(claims, cfg, b, es, clock, k), cfg, e, clock(k + |es| + if b.Busy? then 1 else 0))
  {
    if b.Busy? {
      Dispatcher.HandledAllSnoc(EventDone(claims, cfg, b, clock(k)), cfg, es, e, clock, k + 1);
    } else {
      Dispatcher.HandledAllSnoc(claims, cfg, es, e, clock, k);
    }
  }

  lemma {:induction false} EventFinal(w: World, w': World, e: Event, clock: nat -> int)
    requires |w.workers| == 1 && w'.workers == w.workers && w'.cfg == w.cfg && w'.ledger == w.ledger && w'.finished == w.finished
    requires w'.queue == w.queue && w'.committed == w.committed + [e]
    ensures Final(w', clock) == Handled(Final(w, clock), w.cfg, e, clock(Started(w)))
  {
    assert w'.queue + w'.committed == (w.queue + w.committed) + [e];
    AllDoneSnoc(Claims(w.ledger), w.cfg, w.workers[0], w.queue + w.committed, e, clock, w.finished);
  }

  /** A committed tick adds its event at the end of what is to be done. */
  lemma {:induction false} CommitFinal(o: Options, w: World, trace: seq<Exactness.Step>, step: Step, clock: nat -> int)
    requires |w.workers| == 1 && Follows(w, trace) && Started(w) == |trace| && step.Commit?
    ensures Final(Next(o, w, step), clock) ==
      Handled(Final(w, clock), w.cfg, Exactness.LastEvent(Traced(trace, step, clock), false), clock(|trace|))
  {
    CommitFollows(o, w, trace, step, clock);
    EventFinal(w, Next(o, w, step), Exactness.LastEvent(Traced(trace, step, clock), false), clock);
  }

  lemma {:induction false} CommitMatches(cfg: Config, trace: seq<Exactness.Step>, step: Step, claims: seq<Claim>, clock: nat -> int, punctual: bool)
    requires step.Commit? && Matches(claims, Exactness.LedgerOf(cfg, trace, false), punctual)
    ensures var trace' := Traced(trace, step, clock);
      var e := Exactness.LastEvent(trace', false);
      Matches(Handled(claims, cfg, e, clock(|trace|)), Exactness.LedgerOf(cfg, trace', false), punctual)
  {
    var trace' := Traced(trace, step, clock);
    var e, ledger := Exactness.LastEvent(trace', false), Exactness.LedgerOf(cfg, trace, false);
    assert trace'[..|trace'| - 1] == trace && trace'[|trace'| - 1].now == clock(|trace|);
    assert Exactness.LedgerOf(cfg, trace', false) == Handled(ledger, cfg, e, clock(|trace|));
    KindsAlike(claims, ledger, cfg, e, KindsFor(e.tr), clock(|trace|));
  }

  lemma {:induction false} SubmitFinal(o: Options, w: World, clock: nat -> int)
    requires |w.workers| == 1 && Lossless(o, w, Submit(0))
    ensures var w' := Next(o, w, Submit(0));
      |w'.workers| == 1 && Final(w', clock) == Final(w, clock) && Started(w') == Started(w)
  {
    var w' := Next(o, w, Submit(0));
    if w.committed != [] { assert w'.queue + w'.committed == w.queue + w.committed; }
  }

  lemma {:induction false} TakeFinal(o: Options, w: World, i: nat, clock: nat -> int)
    requires |w.workers| == 1
    ensures var w' := Next(o, w, Take(i));
      |w'.workers| == 1 && Final(w', clock) == Final(w, clock) && Started(w') == Started(w)
  {
    if i < |w.workers| && w.workers[i].Idle? && w.queue != [] {
      var w', es := Next(o, w, Take(i)), w.queue + w.committed;
      assert es[0] == w.queue[0] && es[1..] == w'.queue + w'.committed;
      Dispatcher.HandledAllHead(Claims(w.ledger), w.cfg, es, clock, w.finished);
    }
  }

  lemma {:induction false} ActAllDone(claims: seq<Claim>, claims': seq<Claim>, cfg: Config, b: Worker, b': Worker, es: seq<Event>,
                                      clock: nat -> int, k: nat, punctual: bool)
    requires b.Busy?
    requires Matches(if b'.Busy? then EventDone(claims', cfg, b', clock(k)) else claims', EventDone(claims, cfg, b, clock(k)), punctual)
    ensures Matches(AllDone(claims', cfg, b', es, clock, if b'.Busy? then k else k + 1), AllDone(claims, cfg, b, es, clock, k), punctual)
  {
    var before := EventDone(claims, cfg, b, clock(k));
    var after := if b'.Busy? then EventDone(claims', cfg, b', clock(k)) else claims';
    EventsAlike(after, before, cfg, es, clock, k + 1);
  }

  lemma {:induction false} WorkFields(o: Options, w: World, act: Act)
    requires |w.workers| == 1 && w.workers[0].Busy?
    ensures var w', b' := Worked(o, w, 0, act), Moved(o, w, w.workers[0], act);
      && w'.workers == [b'] && w'.cfg == w.cfg && w'.ledger == LedgerAfter(w, w.workers[0], act)
      && w'.queue == w.queue && w'.committed == w.committed
      && w'.finished == if b'.Idle? then w.finished + 1 else w.finished
  {
  }

  lemma {:induction false} FinalIs(w: World, claims: seq<Claim>, cfg: Config, b: Worker, es: seq<Event>, clock: nat -> int, k: nat)
    requires w.workers == [b] && Claims(w.ledger) == claims && w.cfg == cfg && w.queue + w.committed == es && w.finished == k
    ensures Final(w, clock) == AllDone(claims, cfg, b, es, clock, k)
  {
  }

  lemma {:induction false} ActFinal(w: World, w': World, b: Worker, b': Worker, clock: nat -> int, punctual: bool)
    requires w.workers == [b] && b.Busy? && (b'.Busy? || b'.Idle?)
    requires w'.workers == [b'] && w'.cfg == w.cfg && w'.queue == w.queue && w'.committed == w.committed
    requires w'.finished == if b'.Busy? then w.finished else w.finished + 1
    requires var now := clock(w.finished);
      Matches(if b'.Busy? then EventDone(Claims(w'.ledger), w.cfg, b', now) else Claims(w'.ledger),
              EventDone(Claims(w.ledger), w.cfg, b, now), punctual)
    ensures Matches(Final(w', clock), Final(w, clock), punctual)
  {
    var es := w.queue + w.committed;
    ActAllDone(Claims(w.ledger), Claims(w'.ledger), w.cfg, b, b', es, clock, w.finished, punctual);
    FinalIs(w, Claims(w.ledger), w.cfg, b, es, clock, w.finished);
    FinalIs(w', Claims(w'.ledger), w.cfg, b', es, clock, w'.finished);
  }

  lemma {:induction false} WorkFinal(o: Options, w: World, act: Act, clock: nat -> int, punctual: bool)
    requires |w.workers| == 1 && w.workers[0].Busy? && Faultless(act) && Fit(w.cfg, w.workers[0])
    requires punctual ==> OnTime(w.workers[0], act, clock(w.finished))
    ensures var w' := Worked(o, w, 0, act);
      && |w'.workers| == 1 && Started(w') == Started(w) && Fit(w'.cfg, w'.workers[0])
      && Matches(Final(w', clock), Final(w, clock), punctual)
  {
    WorkFields(o, w, act);
    ActKeepsEvent(o, w, w.workers[0], act, clock(w.finished));
    ActFinal(w, Worked(o, w, 0, act), w.workers[0], Moved(o, w, w.workers[0], act), clock, punctual);
  }

  /** One worker, and once all is done its ledger will be that of the trace. */
  ghost predicate Heads(w: World, cfg: Config, trace: seq<Exactness.Step>, clock: nat -> int, punctual: bool) {
    Frame(w, cfg, trace) && Matches(Final(w, clock), Exactness.LedgerOf(cfg, trace, false), punctual)
  }

  /** Steps other than commits leave what is to be done as it is. */
  lemma {:induction false} StepFinal(o: Options, w: World, step: Step, clock: nat -> int, punctual: bool)
    requires |w.workers| == 1 && Fit(w.cfg, w.workers[0]) && !step.Commit?
    requires Lossless(o, w, step) && (step.Submit? ==> step.i == 0) && (punctual ==> Punctual(w, step, clock))
    ensures var w' := Next(o, w, step);
      && |w'.workers| == 1 && Started(w') == Started(w) && w'.cfg == w.cfg && Fit(w'.cfg, w'.workers[0])
      && Matches(Final(w', clock), Final(w, clock), punctual)
  {
    match step
    case Submit(_) => SubmitFinal(o, w, clock);
    case Take(i) => TakeFinal(o, w, i, clock);
    case Exit(i) =>
    case Work(i, act) => if i < |w.workers| && w.workers[i].Busy? { WorkFinal(o, w, act, clock, punctual); }
    case Close =>
  }

  lemma {:induction false} StepHeads(o: Options, w: World, cfg: Config, trace: seq<Exactness.Step>, step: Step, clock: nat -> int, punctual: bool)
    requires Heads(w, cfg, trace, clock, punctual) && Lossless(o, w, step) && (step.Submit? ==> step.i == 0)
    requires punctual ==> Punctual(w, step, clock)
    ensures Heads(Next(o, w, step), cfg, Traced(trace, step, clock), clock, punctual)
  {
    NextFollows(o, w, trace, step, clock);
    if step.Commit? {
      CommitFinal(o, w, trace, step, clock);
      CommitMatches(cfg, trace, step, Final(w, clock), clock, punctual);
    } else {
      StepFinal(o, w, step, clock, punctual);
      MatchesTransitive(Final(Next(o, w, step), clock), Final(w, clock), Exactness.LedgerOf(cfg, trace, false), punctual);
    }
  }

  // --- a whole run ---

  lemma {:induction false} RunHeads(o: Options, w: World, cfg: Config, trace: seq<Exactness.Step>, steps: seq<Step>, clock: nat -> int, punctual: bool)
    requires Heads(w, cfg, trace, clock, punctual) && LosslessRun(o, w, steps) && InOrder(steps)
    requires punctual ==> PunctualRun(o, w, steps, clock)
    ensures Heads(Exec(o, w, steps), cfg, TraceFrom(trace, steps, clock), clock, punctual)
    decreases |steps|
  {
    if steps != [] {
      assert steps[0] in steps && forall s | s in steps[1..] :: s in steps;
      StepHeads(o, w, cfg, trace, steps[0], clock, punctual);
      RunHeads(o, Next(o, w, steps[0]), cfg, Traced(trace, steps[0], clock), steps[1..], clock, punctual);
    }
  }

  lemma {:induction false} StartHeads(o: Options, cfg: Config, clock: nat -> int, punctual: bool)
    requires o.workers == 1
    ensures Heads(Start(o, cfg), cfg, [], clock, punctual)
  {
    var w := Start(o, cfg);
    assert FRESH == Run([]);
    assert Claims(w.ledger) == [] && w.queue + w.committed == [];
    assert Final(w, clock) == [];
  }

  /**
   * One worker and events submitted in order: however commits, submits, work and shutdown interleave, a quiet lossless
   * run ends with the ledger of in-order dispatch, row for row, if certificate alerts are evaluated at the event's time;
   * and with the same DOWN and RECOVERED keys at any times.
   */
  lemma {:induction false} OneWorkerIsInOrder(o: Options, cfg: Config, steps: seq<Step>, clock: nat -> int)
    requires o.workers == 1 && LosslessRun(o, Start(o, cfg), steps) && InOrder(steps)
    requires Quiet(Exec(o, Start(o, cfg), steps))
    ensures var claims, ledger := Claims(Exec(o, Start(o, cfg), steps).ledger), Exactness.LedgerOf(cfg, TraceOf(steps, clock), false);
      && Alike(claims, ledger)
      && (PunctualRun(o, Start(o, cfg), steps, clock) ==> claims == ledger)
  {
    var w := Exec(o, Start(o, cfg), steps);
    StartHeads(o, cfg, clock, false);
    RunHeads(o, Start(o, cfg), cfg, [], steps, clock, false);
    assert w.queue + w.committed == [];
    assert w.workers[0] in w.workers;
    if PunctualRun(o, Start(o, cfg), steps, clock) {
      StartHeads(o, cfg, clock, true);
      RunHeads(o, Start(o, cfg), cfg, [], steps, clock, true);
    }
  }

  lemma {:induction false} TraceTimes(trace: seq<Exactness.Step>, steps: seq<Step>, clock: nat -> int)
    requires forall k | 0 <= k < |trace| :: clock(k) == trace[k].now
    ensures var t := TraceFrom(trace, steps, clock); forall k | 0 <= k < |t| :: clock(k) == t[k].now
    decreases |steps|
  {
    if steps != [] { TraceTimes(Traced(trace, steps[0], clock), steps[1..], clock); }
  }

  /** In particular it is what draining the events of its ticks, one by one, leaves. */
  lemma {:induction false} OneWorkerDrains(o: Options, cfg: Config, steps: seq<Step>, clock: nat -> int)
    requires o.workers == 1 && LosslessRun(o, Start(o, cfg), steps) && InOrder(steps) && PunctualRun(o, Start(o, cfg), steps, clock)
    requires Quiet(Exec(o, Start(o, cfg), steps))
    ensures Claims(Exec(o, Start(o, cfg), steps).ledger) == Dispatcher.HandledAll([], cfg, Dispatcher.Events(TraceOf(steps, clock)), clock, 0)
  {
    OneWorkerIsInOrder(o, cfg, steps, clock);
    TraceTimes([], steps, clock);
    Dispatcher.DrainGivesLedger(cfg, TraceOf(steps, clock), clock);
  }
}
