/** One worker handling its event while the others stand still; in-order dispatch is made of such runs. */
module Solo {
  import opened Wrappers
  import opened Keys
  import opened Incidents
  import opened Alerting
  import opened Ledger
  import opened Protocol
  import opened Steady
  import Exactness

  /** Only worker acts, none of which fails. */
  predicate OnlyWork(steps: seq<Step>) { forall s | s in steps :: s.Work? && Faultless(s.act) }

  /** Such steps lose nothing, submit nothing and commit nothing. */
  lemma {:induction false} WorkIsSteady(o: Options, w: World, steps: seq<Step>, trace: seq<Exactness.Step>, clock: nat -> int)
    requires OnlyWork(steps)
    ensures LosslessRun(o, w, steps) && InOrder(steps) && TraceFrom(trace, steps, clock) == trace
    decreases |steps|
  {
    if steps != [] {
      assert steps[0] in steps && forall s | s in steps[1..] :: s in steps;
      WorkIsSteady(o, Next(o, w, steps[0]), steps[1..], trace, clock);
    }
  }

  /** Only the ledger, its history, worker i and the count of finished events differ. */
  predicate OnlyBy(i: nat, w: World, w': World) {
    && w'.stores == w.stores && w'.cfg == w.cfg
    && w'.committed == w.committed && w'.queue == w.queue && w'.closed == w.closed
    && |w'.workers| == |w.workers| > i
    && w'.workers[..i] == w.workers[..i] && w'.workers[i + 1..] == w.workers[i + 1..]
  }

  predicate Doing(i: nat, w: World, e: Event, kinds: seq<Kind>, kind: Kind, rules: seq<Rule>) {
    i < |w.workers| && w.workers[i] == Busy(e, kinds, kind, rules, NextRule)
  }

  predicate Choosing(i: nat, w: World, e: Event, kinds: seq<Kind>) {
    i < |w.workers| && w.workers[i].Busy? && w.workers[i].event == e && w.workers[i].kinds == kinds && w.workers[i].at == NextKind
  }

  lemma {:induction false} WorkStep(o: Options, i: nat, w: World, act: Act)
    requires i < |w.workers| && w.workers[i].Busy?
    ensures Exec(o, w, [Work(i, act)]) == Worked(o, w, i, act)
    ensures OnlyBy(i, w, Worked(o, w, i, act))
    ensures Worked(o, w, i, act).workers[i] == Moved(o, w, w.workers[i], act)
  {
    assert Exec(o, Worked(o, w, i, act), []) == Worked(o, w, i, act);
    assert [Work(i, act)][1..] == [];
  }

  /** From an inserted row, one successful send and its mark. */
  lemma {:induction false} SoloSend(o: Options, i: nat, w: World) returns (steps: seq<Step>)
    requires i < |w.workers| && w.workers[i].Busy? && w.workers[i].at.Sending?
    ensures OnlyWork(steps)
    ensures var w' := Exec(o, w, steps);
      && OnlyBy(i, w, w') && Claims(w'.ledger) == Claims(w.ledger)
      && Doing(i, w', w.workers[i].event, w.workers[i].kinds, w.workers[i].kind, w.workers[i].rules)
  {
    WorkStep(o, i, w, Send(None));
    var w1 := Worked(o, w, i, Send(None));
    WorkStep(o, i, w1, Mark(false));
    ExecAppend(o, w, [Work(i, Send(None))], [Work(i, Mark(false))]);
    steps := [Work(i, Send(None))] + [Work(i, Mark(false))];
  }

  lemma {:induction false} SoloClaim(o: Options, i: nat, w: World, key: string, rule: Rule) returns (steps: seq<Step>)
    requires i < |w.workers| && w.workers[i].Busy? && w.workers[i].at == HaveKey(rule, key)
    ensures OnlyWork(steps)
    ensures var b, w' := w.workers[i], Exec(o, w, steps);
      && OnlyBy(i, w, w')
      && Claims(w'.ledger) == Alerting.Insert(Claims(w.ledger), ClaimOf(b.event, b.kind, rule, key))
      && Doing(i, w', b.event, b.kinds, b.kind, b.rules)
  {
    var b := w.workers[i];
    var act := InsertRow(false);
    WorkStep(o, i, w, act);
    var w1 := Worked(o, w, i, act);
    if Claimed(Claims(w.ledger), key) {
      steps := [Work(i, act)];
    } else {
      assert Claims(w1.ledger) == Claims(w.ledger) + [ClaimOf(b.event, b.kind, rule, key)];
      var more := SoloSend(o, i, w1);
      ExecAppend(o, w, [Work(i, act)], more);
      steps := [Work(i, act)] + more;
    }
  }

  /** A rule picked and evaluated. */
  lemma {:induction false} SoloEvaluate(o: Options, i: nat, w: World, e: Event, kinds: seq<Kind>, kind: Kind, rules: seq<Rule>, now: int)
    returns (steps: seq<Step>)
    requires Doing(i, w, e, kinds, kind, rules) && rules != [] && rules[0].channelId in w.cfg.channels
    ensures OnlyWork(steps)
    ensures var w' := Exec(o, w, steps);
      var key := Render(e, kind, rules[0], now, Claimed(Claims(w.ledger), DownKey(e, rules[0])));
      && OnlyBy(i, w, w') && w'.ledger == w.ledger
      && w'.workers[i] == Busy(e, kinds, kind, rules[1..], if key.None? then NextRule else HaveKey(rules[0], key.value))
  {
    WorkStep(o, i, w, PickRule(false));
    var w1 := Worked(o, w, i, PickRule(false));
    assert w1.workers[i] == Busy(e, kinds, kind, rules[1..], HaveChannel(rules[0])) && w1.ledger == w.ledger;
    WorkStep(o, i, w1, Evaluate(now, false));
    ExecAppend(o, w, [Work(i, PickRule(false))], [Work(i, Evaluate(now, false))]);
    steps := [Work(i, PickRule(false))] + [Work(i, Evaluate(now, false))];
  }

  lemma {:induction false} SoloRule(o: Options, i: nat, w: World, e: Event, kinds: seq<Kind>, kind: Kind, rules: seq<Rule>, now: int)
    returns (steps: seq<Step>)
    requires Doing(i, w, e, kinds, kind, rules) && rules != [] && rules[0].channelId in w.cfg.channels
    ensures OnlyWork(steps)
    ensures var w' := Exec(o, w, steps);
      && OnlyBy(i, w, w') && Doing(i, w', e, kinds, kind, rules[1..])
      && Claims(w'.ledger) == AppliedRule(Claims(w.ledger), e, kind, rules[0], now)
  {
    steps := SoloEvaluate(o, i, w, e, kinds, kind, rules, now);
    var key := Render(e, kind, rules[0], now, Claimed(Claims(w.ledger), DownKey(e, rules[0])));
    if key.Some? {
      var more := SoloClaim(o, i, Exec(o, w, steps), key.value, rules[0]);
      ExecAppend(o, w, steps, more);
      steps := steps + more;
    }
  }

  lemma {:induction false} SoloRules(o: Options, i: nat, w: World, e: Event, kinds: seq<Kind>, kind: Kind, rules: seq<Rule>, now: int)
    returns (steps: seq<Step>)
    requires Doing(i, w, e, kinds, kind, rules) && forall r | r in rules :: r.channelId in w.cfg.channels
    ensures OnlyWork(steps)
    ensures var w' := Exec(o, w, steps);
      && OnlyBy(i, w, w') && Choosing(i, w', e, kinds)
      && Claims(w'.ledger) == AppliedRules(Claims(w.ledger), e, kind, rules, now)
    decreases |rules|
  {
    if rules == [] {
      WorkStep(o, i, w, EndRules);
      steps := [Work(i, EndRules)];
    } else {
      steps := SoloRule(o, i, w, e, kinds, kind, rules, now);
      var more := SoloRules(o, i, Exec(o, w, steps), e, kinds, kind, rules[1..], now);
      ExecAppend(o, w, steps, more);
      steps := steps + more;
    }
  }

  lemma {:induction false} SoloKinds(o: Options, i: nat, w: World, e: Event, kinds: seq<Kind>, now: int) returns (steps: seq<Step>)
    requires Choosing(i, w, e, kinds)
    ensures OnlyWork(steps)
    ensures var w' := Exec(o, w, steps);
      && OnlyBy(i, w, w') && w'.workers[i] == Idle
      && Claims(w'.ledger) == HandledKinds(Claims(w.ledger), w.cfg, e, kinds, now)
    decreases |kinds|
  {
    if kinds == [] {
      WorkStep(o, i, w, Finish);
      steps := [Work(i, Finish)];
    } else {
      var rules := RulesFor(w.cfg, e.site, kinds[0]);
      WorkStep(o, i, w, PickKind(false));
      var w1 := Worked(o, w, i, PickKind(false));
      var a := SoloRules(o, i, w1, e, kinds[1..], kinds[0], rules, now);
      var w2 := Exec(o, w1, a);
      var b := SoloKinds(o, i, w2, e, kinds[1..], now);
      ExecAppend(o, w, [Work(i, PickKind(false))], a);
      ExecAppend(o, w, [Work(i, PickKind(false))] + a, b);
      steps := [Work(i, PickKind(false))] + a + b;
    }
  }

  /** A world at rest: nothing to submit, nothing queued, nobody working. */
  predicate AtRest(o: Options, w: World, cfg: Config) {
    w.cfg == cfg && w.committed == [] && w.queue == [] && !w.closed && w.workers == seq(o.workers, _ => Idle)
  }

  /** One tick committed, submitted and taken by worker i. */
  lemma {:induction false} Handed(o: Options, i: nat, w: World, site: string, tick: Tick, warnDays: int)
    requires w.committed == [] && w.queue == [] && !w.closed && i < |w.workers| && w.workers[i] == Idle && o.capacity > 0
    ensures var steps := [Commit(site, tick, warnDays), Submit(0), Take(i)];
      var (db, tr) := Recorded(StoreOf(w.stores, site), tick);
      var w' := Exec(o, w, steps);
      && LosslessRun(o, w, steps)
      && w'.stores == w.stores[site := db] && w'.cfg == w.cfg && w'.ledger == w.ledger
      && w'.committed == [] && w'.queue == [] && !w'.closed
      && w'.workers == w.workers[i := Busy(Event(site, warnDays, tr), KindsFor(tr), SiteDown, [], NextKind)]
  {
    var e := Event(site, warnDays, Recorded(StoreOf(w.stores, site), tick).1);
    var w1 := Next(o, w, Commit(site, tick, warnDays));
    var w2 := Next(o, w1, Submit(0));
    var w3 := Next(o, w2, Take(i));
    assert w1.committed == [e] && w2.queue == [e] && w3.queue == [];
    ThreeSteps(o, w, Commit(site, tick, warnDays), Submit(0), Take(i));
  }

  lemma {:induction false} ThreeSteps(o: Options, w: World, a: Step, b: Step, c: Step)
    ensures Exec(o, w, [a, b, c]) == Next(o, Next(o, Next(o, w, a), b), c)
    ensures Lossless(o, w, a) && Lossless(o, Next(o, w, a), b) && Lossless(o, Next(o, Next(o, w, a), b), c) ==> LosslessRun(o, w, [a, b, c])
  {
    assert [a, b, c][1..] == [b, c] && [b, c][1..] == [c] && [c][1..] == [];
    var w1, w2 := Next(o, w, a), Next(o, Next(o, w, a), b);
    assert Exec(o, w2, [c]) == Exec(o, Next(o, w2, c), []);
    if Lossless(o, w, a) && Lossless(o, w1, b) && Lossless(o, w2, c) {
      assert LosslessRun(o, Next(o, w2, c), []) && LosslessRun(o, w2, [c]) && LosslessRun(o, w1, [b, c]);
    }
  }

  /** One tick committed, submitted, taken and handled by the first worker alone. */
  lemma {:induction false} SoloTick(o: Options, w: World, cfg: Config, s: Exactness.Step) returns (steps: seq<Step>)
    requires AtRest(o, w, cfg) && o.capacity > 0 && o.workers > 0
    ensures var w' := Exec(o, w, steps);
      var (db, tr) := Recorded(StoreOf(w.stores, s.site), s.tick);
      && AtRest(o, w', cfg) && w'.stores == w.stores[s.site := db]
      && Claims(w'.ledger) == Handled(Claims(w.ledger), cfg, Event(s.site, s.warnDays, tr), s.now)
    ensures LosslessRun(o, w, steps) && InOrder(steps)
    ensures forall trace, clock: nat -> int | clock(|trace|) == s.now :: TraceFrom(trace, steps, clock) == trace + [s]
  {
    var e := Event(s.site, s.warnDays, Recorded(StoreOf(w.stores, s.site), s.tick).1);
    var first := [Commit(s.site, s.tick, s.warnDays), Submit(0), Take(0)];
    Handed(o, 0, w, s.site, s.tick, s.warnDays);
    var w3 := Exec(o, w, first);
    var more := SoloKinds(o, 0, w3, e, KindsFor(e.tr), s.now);
    ExecAppend(o, w, first, more);
    steps := first + more;
    var w' := Exec(o, w, steps);
    assert w'.workers == [w'.workers[0]] + w'.workers[1..];
    WorkIsSteady(o, w3, more, [], _ => 0);
    LosslessAppend(o, w, first, more);
    forall trace, clock: nat -> int | clock(|trace|) == s.now ensures TraceFrom(trace, steps, clock) == trace + [s] {
      OneTick(trace, first[0], first[1], first[2], clock);
      TraceFromAppend(trace, first, more, clock);
      WorkIsSteady(o, w3, more, TraceFrom(trace, first, clock), clock);
    }
  }

  lemma {:induction false} OneTick(trace: seq<Exactness.Step>, a: Step, b: Step, c: Step, clock: nat -> int)
    requires a.Commit? && !b.Commit? && !c.Commit?
    ensures TraceFrom(trace, [a, b, c], clock) == trace + [Exactness.Step(a.site, a.tick, a.warnDays, clock(|trace|))]
  {
    var t := Traced(trace, a, clock);
    assert [a, b, c][1..] == [b, c] && [b, c][1..] == [c] && [c][1..] == [];
    assert TraceFrom(t, [c], clock) == TraceFrom(t, [], clock);
    assert TraceFrom(t, [b, c], clock) == TraceFrom(t, [c], clock);
  }

  /** The steps are an in-order, lossless run of the trace, which ends at rest with the trace's stores and ledger. */
  ghost predicate Records(o: Options, cfg: Config, steps: seq<Step>, trace: seq<Exactness.Step>, clock: nat -> int) {
    var w := Exec(o, Start(o, cfg), steps);
    && AtRest(o, w, cfg) && Follows(w, trace) && Claims(w.ledger) == Exactness.LedgerOf(cfg, trace, false)
    && LosslessRun(o, Start(o, cfg), steps) && InOrder(steps) && TraceOf(steps, clock) == trace
  }

  lemma {:induction false} RecordsMore(o: Options, cfg: Config, steps: seq<Step>, before: seq<Exactness.Step>, last: Exactness.Step, clock: nat -> int)
    returns (steps': seq<Step>)
    requires Records(o, cfg, steps, before, clock) && o.capacity > 0 && o.workers > 0 && clock(|before|) == last.now
    ensures Records(o, cfg, steps', before + [last], clock)
  {
    var w0, w, trace := Start(o, cfg), Exec(o, Start(o, cfg), steps), before + [last];
    assert trace[..|trace| - 1] == before && trace[|trace| - 1] == last;
    var more := SoloTick(o, w, cfg, last);
    steps' := steps + more;
    ExecAppend(o, w0, steps, more);
    LosslessAppend(o, w0, steps, more);
    TraceFromAppend([], steps, more, clock);
    TraceStores(trace, w.stores);
  }

  lemma {:induction false} RecordsNothing(o: Options, cfg: Config, clock: nat -> int)
    ensures Records(o, cfg, [], [], clock)
  {
    assert Claims([]) == [] && FRESH == Run([]);
  }

  /** Some run of the concurrent system records a trace, in order and without loss, and ends with exactly the ledger `Exactness` gives it. */
  lemma {:induction false} TraceIsARun(o: Options, cfg: Config, trace: seq<Exactness.Step>, clock: nat -> int) returns (steps: seq<Step>)
    requires o.capacity > 0 && o.workers > 0
    requires forall k | 0 <= k < |trace| :: clock(k) == trace[k].now
    ensures Records(o, cfg, steps, trace, clock)
  {
    if trace == [] {
      RecordsNothing(o, cfg, clock);
      steps := [];
    } else {
      var before, last := trace[..|trace| - 1], trace[|trace| - 1];
      assert before + [last] == trace;
      var first := TraceIsARun(o, cfg, before, clock);
      steps := RecordsMore(o, cfg, first, before, last, clock);
    }
  }

  lemma {:induction false} TicksGrow(trace: seq<Exactness.Step>, s: string)
    requires trace != []
    ensures var last, before := trace[|trace| - 1], Exactness.TicksOf(trace[..|trace| - 1], s);
      var ticks := Exactness.TicksOf(trace, s);
      if s == last.site then ticks == before + [last.tick] && ticks[..|ticks| - 1] == before else ticks == before
  {
  }

  /** The stores and the event of a trace's last tick, from the stores before it. */
  lemma {:induction false} TraceStores(trace: seq<Exactness.Step>, stores: map<string, SiteDb>)
    requires trace != []
    requires forall s :: StoreOf(stores, s) == Run(Exactness.TicksOf(trace[..|trace| - 1], s))
    ensures var last := trace[|trace| - 1];
      var (db, tr) := Recorded(StoreOf(stores, last.site), last.tick);
      && (forall s :: StoreOf(stores[last.site := db], s) == Run(Exactness.TicksOf(trace, s)))
      && Exactness.LastEvent(trace, false) == Event(last.site, last.warnDays, tr)
  {
    var last := trace[|trace| - 1];
    TicksGrow(trace, last.site);
    var ticks, db := Exactness.TicksOf(trace, last.site), Recorded(StoreOf(stores, last.site), last.tick).0;
    assert Run(ticks) == db;
    forall s ensures StoreOf(stores[last.site := db], s) == Run(Exactness.TicksOf(trace, s)) {
      TicksGrow(trace, s);
      if s != last.site { assert StoreOf(stores[last.site := db], s) == StoreOf(stores, s); }
    }
  }
}
