/** Runs of `Protocol` in which nothing is lost or fails, and the history of ticks behind a run. */
module Steady {
  import opened Incidents
  import opened Protocol
  import Exactness

  /** No database error the event would suffer from, and no panic. A send may still answer anything. */
  predicate Faultless(act: Act) {
    match act
    case PickKind(failed) => !failed
    case PickRule(failed) => !failed
    case Evaluate(_, failed) => !failed
    case InsertRow(failed) => !failed
    case Panic => false
    case _ => true
  }

  /** The step drops no event, fails nowhere, and leaves the configuration alone. */
  predicate Lossless(o: Options, w: World, step: Step) {
    match step
    case Submit(_) => !w.closed && |w.queue| < o.capacity
    case Work(_, act) => Faultless(act)
    case Edit(_) => false
    case Crash => false
    case _ => true
  }

  predicate LosslessRun(o: Options, w: World, steps: seq<Step>)
    decreases |steps|
  {
    steps == [] || (Lossless(o, w, steps[0]) && LosslessRun(o, Next(o, w, steps[0]), steps[1..]))
  }

  /** Events are submitted in the order their ticks were committed. */
  predicate InOrder(steps: seq<Step>) { forall s | s in steps :: s.Submit? ==> s.i == 0 }

  /** Every committed tick's event has been handled. */
  predicate Quiet(w: World) {
    w.committed == [] && w.queue == [] && forall b | b in w.workers :: !b.Busy?
  }

  lemma {:induction false} LosslessAppend(o: Options, w: World, a: seq<Step>, b: seq<Step>)
    requires LosslessRun(o, w, a) && LosslessRun(o, Exec(o, w, a), b)
    ensures LosslessRun(o, w, a + b)
    decreases |a|
  {
    if a == [] {
      assert a + b == b;
    } else {
      assert (a + b)[0] == a[0] && (a + b)[1..] == a[1..] + b;
      LosslessAppend(o, Next(o, w, a[0]), a[1..], b);
    }
  }

  // --- the ticks of a run ---

  /** The trace with a step's tick, if it commits one; the k-th event is looked at when the clock reads clock(k). */
  function Traced(trace: seq<Exactness.Step>, step: Step, clock: nat -> int): seq<Exactness.Step> {
    if step.Commit? then trace + [Exactness.Step(step.site, step.tick, step.warnDays, clock(|trace|))] else trace
  }

  /** The ticks a run commits after those of `trace`. */
  function TraceFrom(trace: seq<Exactness.Step>, steps: seq<Step>, clock: nat -> int): (t: seq<Exactness.Step>)
    decreases |steps|
  {
    if steps == [] then trace else TraceFrom(Traced(trace, steps[0], clock), steps[1..], clock)
  }

  function TraceOf(steps: seq<Step>, clock: nat -> int): (t: seq<Exactness.Step>) { TraceFrom([], steps, clock) }

  /** The stores hold the ticks of the trace. */
  ghost predicate Follows(w: World, trace: seq<Exactness.Step>) {
    forall s :: StoreOf(w.stores, s) == Run(Exactness.TicksOf(trace, s))
  }

  lemma {:induction false} TraceFromAppend(trace: seq<Exactness.Step>, a: seq<Step>, b: seq<Step>, clock: nat -> int)
    ensures TraceFrom(trace, a + b, clock) == TraceFrom(TraceFrom(trace, a, clock), b, clock)
    decreases |a|
  {
    if a == [] {
      assert a + b == b;
    } else {
      assert (a + b)[0] == a[0] && (a + b)[1..] == a[1..] + b;
      TraceFromAppend(Traced(trace, a[0], clock), a[1..], b, clock);
    }
  }

  lemma {:induction false} TicksSnoc(trace: seq<Exactness.Step>, last: Exactness.Step, s: string)
    ensures Exactness.TicksOf(trace + [last], s) == Exactness.TicksOf(trace, s) + if last.site == s then [last.tick] else []
  {
    assert (trace + [last])[..|trace|] == trace;
  }

  /** A commit's store and event are those of its place in the history. */
  lemma {:induction false} CommitFollows(o: Options, w: World, trace: seq<Exactness.Step>, step: Step, clock: nat -> int)
    requires Follows(w, trace) && step.Commit?
    ensures var trace' := Traced(trace, step, clock);
      && Follows(Next(o, w, step), trace')
      && Next(o, w, step).committed == w.committed + [Exactness.LastEvent(trace', false)]
  {
    var last := Exactness.Step(step.site, step.tick, step.warnDays, clock(|trace|));
    var trace' := trace + [last];
    var before, ticks := Exactness.TicksOf(trace, step.site), Exactness.TicksOf(trace', step.site);
    TicksSnoc(trace, last, step.site);
    assert ticks[..|ticks| - 1] == before && ticks[|ticks| - 1] == step.tick;
    var w' := Next(o, w, step);
    assert StoreOf(w.stores, step.site) == Run(before);
    forall s ensures StoreOf(w'.stores, s) == Run(Exactness.TicksOf(trace', s)) {
      TicksSnoc(trace, last, s);
      assert StoreOf(w.stores, s) == Run(Exactness.TicksOf(trace, s));
      if s != step.site { assert Exactness.TicksOf(trace', s) == Exactness.TicksOf(trace, s); }
    }
    assert trace'[|trace'| - 1] == last;
  }

  lemma {:induction false} OthersFollow(o: Options, w: World, trace: seq<Exactness.Step>, step: Step)
    requires Follows(w, trace) && !step.Commit?
    ensures Follows(Next(o, w, step), trace)
  {
    assert Next(o, w, step).stores == w.stores;
  }

  lemma {:induction false} NextFollows(o: Options, w: World, trace: seq<Exactness.Step>, step: Step, clock: nat -> int)
    requires Follows(w, trace)
    ensures Follows(Next(o, w, step), Traced(trace, step, clock))
  {
    if step.Commit? { CommitFollows(o, w, trace, step, clock); } else { OthersFollow(o, w, trace, step); }
  }

  lemma {:induction false} RunFollows(o: Options, w: World, trace: seq<Exactness.Step>, steps: seq<Step>, clock: nat -> int)
    requires Follows(w, trace)
    ensures Follows(Exec(o, w, steps), TraceFrom(trace, steps, clock))
    decreases |steps|
  {
    if steps != [] {
      NextFollows(o, w, trace, steps[0], clock);
      RunFollows(o, Next(o, w, steps[0]), Traced(trace, steps[0], clock), steps[1..], clock);
    }
  }
}
