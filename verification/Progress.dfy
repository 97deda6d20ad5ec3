/** That workers get on: how many acts an event or a shutdown can take, and what a failing statement costs. */
module Progress {
  import opened Wrappers
  import opened Keys
  import opened Alerting
  import opened Protocol

  /** The act is one the worker can make where it stands. A panic can come anywhere. */
  predicate Possible(b: Worker, act: Act)
    requires b.Busy?
  {
    act.Panic? || match b.at
      case NextKind => if b.kinds == [] then act.Finish? else act.PickKind?
      case NextRule => if b.rules == [] then act.EndRules? else act.PickRule?
      case HaveChannel(_) => act.Evaluate?
      case HaveKey(_, _) => act.InsertRow?
      case Sending(_, _) => act.Send?
      case Waiting(_, _, _) => act.Backoff?
      case Marking(_, _, _) => act.Mark?
  }

  /** Acts one rule can take: the channel, the key, the row, the sends with the backoffs between them, the mark. */
  function PerRule(o: Options): nat { 2 * o.retries + 5 }

  /** Acts one kind can take, with at most m rules. */
  function PerKind(o: Options, m: nat): nat { m * PerRule(o) + 2 }

  /** Acts left for the rule at hand, and to end the rules and the event. */
  function AtStage(o: Options, at: Stage): (n: nat)
    ensures n > 0
  {
    match at
    case NextKind => 1
    case NextRule => 2
    case HaveChannel(_) => 2 * o.retries + 6
    case HaveKey(_, _) => 2 * o.retries + 5
    case Sending(_, attempt) => if attempt <= o.retries then 2 * (o.retries + 1 - attempt) + 4 else 4
    case Waiting(_, attempt, _) => if attempt <= o.retries then 2 * (o.retries + 1 - attempt) + 3 else 5
    case Marking(_, _, _) => 3
  }

  /** Acts left at most before the worker is done with its event. */
  function Left(o: Options, m: nat, b: Worker): (n: nat)
    requires b.Busy?
    ensures n > 0
  {
    |b.kinds| * PerKind(o, m) + (if b.at.NextKind? then 0 else |b.rules| * PerRule(o)) + AtStage(o, b.at)
  }

  lemma {:induction false} Product(n: nat, k: nat)
    ensures n > 0 ==> n * k == (n - 1) * k + k
  {
  }

  lemma {:induction false} ProductGrows(a: nat, b: nat, k: nat)
    requires a <= b
    ensures a * k <= b * k
  {
  }

  lemma {:induction false} FewSelected(cfg: Config, rules: seq<Rule>, site: string, kind: Kind)
    ensures |Selected(cfg, rules, site, kind)| <= |rules|
    decreases |rules|
  {
    if rules != [] { FewSelected(cfg, rules[1..], site, kind); }
  }

  /** Within one rule every act gets on. */
  lemma {:induction false} StageGetsOn(o: Options, w: World, b: Worker, act: Act)
    requires b.Busy? && Possible(b, act) && !act.Panic? && !b.at.NextKind? && !b.at.NextRule?
    ensures var b' := Moved(o, w, b, act);
      && b' == b.(at := b'.at) && !b'.at.NextKind? && AtStage(o, b'.at) < AtStage(o, b.at)
  {
  }

  lemma {:induction false} PickGetsOn(o: Options, m: nat, w: World, b: Worker, act: Act)
    requires b.Busy? && Possible(b, act) && !act.Panic? && (b.at.NextKind? || b.at.NextRule?) && |w.cfg.rules| <= m
    ensures var b' := Moved(o, w, b, act); b'.Idle? || (b'.Busy? && Left(o, m, b') < Left(o, m, b))
  {
    Product(|b.kinds|, PerKind(o, m));
    Product(|b.rules|, PerRule(o));
    if b.at.NextKind? && b.kinds != [] {
      var rules := RulesFor(w.cfg, b.event.site, b.kinds[0]);
      FewSelected(w.cfg, w.cfg.rules, b.event.site, b.kinds[0]);
      ProductGrows(|rules|, m, PerRule(o));
    }
  }

  /** Every act a worker can make brings it nearer to the end of its event, errors, retries and panics included. */
  lemma {:induction false} ActGetsOn(o: Options, m: nat, w: World, b: Worker, act: Act)
    requires b.Busy? && Possible(b, act) && |w.cfg.rules| <= m
    ensures var b' := Moved(o, w, b, act); b'.Idle? || (b'.Busy? && Left(o, m, b') < Left(o, m, b))
  {
    if act.Panic? {
    } else if b.at.NextKind? || b.at.NextRule? {
      PickGetsOn(o, m, w, b, act);
    } else {
      StageGetsOn(o, w, b, act);
    }
  }

  /** Any other act leaves the worker as it is. */
  lemma {:induction false} ImpossibleAct(o: Options, w: World, b: Worker, act: Act)
    requires b.Busy? && !Possible(b, act)
    ensures Moved(o, w, b, act) == b
  {
  }

  // --- all workers ---

  /** What an event in the queue can take. */
  function PerEvent(o: Options, m: nat): nat { 3 * PerKind(o, m) + 1 }

  function WorkerLeft(o: Options, m: nat, b: Worker): nat {
    match b
    case Exited => 0
    case Idle => 1
    case Busy(_, _, _, _, _) => Left(o, m, b) + 2
  }

  function WorkersLeft(o: Options, m: nat, ws: seq<Worker>): nat {
    if ws == [] then 0 else WorkersLeft(o, m, ws[..|ws| - 1]) + WorkerLeft(o, m, ws[|ws| - 1])
  }

  lemma {:induction false} WorkersLeftUpdate(o: Options, m: nat, ws: seq<Worker>, i: nat, b: Worker)
    requires i < |ws|
    ensures WorkersLeft(o, m, ws[i := b]) + WorkerLeft(o, m, ws[i]) == WorkersLeft(o, m, ws) + WorkerLeft(o, m, b)
  {
    var n := |ws| - 1;
    if i == n {
      assert ws[i := b][..n] == ws[..n];
    } else {
      assert ws[i := b][..n] == ws[..n][i := b];
      WorkersLeftUpdate(o, m, ws[..n], i, b);
    }
  }

  /** Steps the workers can still take once nothing is accepted any more. */
  function AllLeft(o: Options, m: nat, w: World): nat {
    |w.queue| * (PerEvent(o, m) + 2) + WorkersLeft(o, m, w.workers)
  }

  /** The step is a worker's own, and possible. */
  predicate Works(w: World, step: Step) {
    match step
    case Take(i) => i < |w.workers| && w.workers[i].Idle? && w.queue != []
    case Exit(i) => i < |w.workers| && w.workers[i].Idle? && w.queue == [] && w.closed
    case Work(i, act) => i < |w.workers| && w.workers[i].Busy? && Possible(w.workers[i], act)
    case _ => false
  }

  /** No crash, and never more than m rules. */
  predicate Small(step: Step, m: nat) { !step.Crash? && (step.Edit? ==> |step.cfg.rules| <= m) }

  /** An event just taken. */
  function Taken(e: Event): (b: Worker)
    ensures b.Busy?
  {
    Busy(e, KindsFor(e.tr), SiteDown, [], NextKind)
  }

  lemma {:induction false} TakenLeft(o: Options, m: nat, e: Event)
    ensures Left(o, m, Taken(e)) <= PerEvent(o, m)
  {
    ProductGrows(|KindsFor(e.tr)|, 3, PerKind(o, m));
  }

  lemma {:induction false} TakeLeaves(o: Options, m: nat, w: World, i: nat)
    requires Works(w, Take(i))
    ensures AllLeft(o, m, Next(o, w, Take(i))) < AllLeft(o, m, w)
  {
    var b := Taken(w.queue[0]);
    assert Next(o, w, Take(i)) == w.(queue := w.queue[1..], workers := w.workers[i := b]);
    WorkersLeftUpdate(o, m, w.workers, i, b);
    Product(|w.queue|, PerEvent(o, m) + 2);
    TakenLeft(o, m, w.queue[0]);
  }

  lemma {:induction false} WorkLeaves(o: Options, m: nat, w: World, i: nat, act: Act)
    requires i < |w.workers| && w.workers[i].Busy? && |w.cfg.rules| <= m
    ensures AllLeft(o, m, Worked(o, w, i, act)) + (if Possible(w.workers[i], act) then 1 else 0) <= AllLeft(o, m, w)
  {
    var b := w.workers[i];
    WorkersLeftUpdate(o, m, w.workers, i, Moved(o, w, b, act));
    if Possible(b, act) { ActGetsOn(o, m, w, b, act); } else { ImpossibleAct(o, w, b, act); }
  }

  lemma {:induction false} StepLeaves(o: Options, m: nat, w: World, step: Step)
    requires w.closed && |w.cfg.rules| <= m && Small(step, m)
    ensures var w' := Next(o, w, step);
      && w'.closed && |w'.cfg.rules| <= m
      && AllLeft(o, m, w') + (if Works(w, step) then 1 else 0) <= AllLeft(o, m, w)
  {
    match step
    case Take(i) => if Works(w, step) { TakeLeaves(o, m, w, i); }
    case Exit(i) => if Works(w, step) { WorkersLeftUpdate(o, m, w.workers, i, Exited); }
    case Work(i, act) => if i < |w.workers| && w.workers[i].Busy? { WorkLeaves(o, m, w, i, act); }
    case _ =>
  }

  /** How many steps of a run are workers' own. */
  function Worksteps(o: Options, w: World, steps: seq<Step>): nat
    decreases |steps|
  {
    if steps == [] then 0 else (if Works(w, steps[0]) then 1 else 0) + Worksteps(o, Next(o, w, steps[0]), steps[1..])
  }

  lemma {:induction false} RunLeaves(o: Options, m: nat, w: World, steps: seq<Step>)
    requires w.closed && |w.cfg.rules| <= m && forall s | s in steps :: Small(s, m)
    ensures Worksteps(o, w, steps) + AllLeft(o, m, Exec(o, w, steps)) <= AllLeft(o, m, w)
    ensures Exec(o, w, steps).closed
    decreases |steps|
  {
    if steps != [] {
      assert steps[0] in steps && forall s | s in steps[1..] :: s in steps;
      StepLeaves(o, m, w, steps[0]);
      RunLeaves(o, m, Next(o, w, steps[0]), steps[1..]);
    }
  }

  /** What a worker can do next without a panic or an error. */
  function NextAct(b: Worker): (act: Act)
    requires b.Busy?
    ensures Possible(b, act) && !act.Panic?
  {
    match b.at
    case NextKind => if b.kinds == [] then Finish else PickKind(false)
    case NextRule => if b.rules == [] then EndRules else PickRule(false)
    case HaveChannel(_) => Evaluate(0, false)
    case HaveKey(_, _) => InsertRow(false)
    case Sending(_, _) => Send(None)
    case Waiting(_, _, _) => Backoff(false)
    case Marking(_, _, _) => Mark(false)
  }

  /** A closed dispatcher is stuck only when every worker has exited. */
  lemma {:induction false} NotStuck(w: World, i: nat)
    requires w.closed && i < |w.workers| && !w.workers[i].Exited?
    ensures exists step :: Works(w, step) && (step.Work? ==> !step.act.Panic?)
  {
    var b := w.workers[i];
    var step := if b.Busy? then Work(i, NextAct(b)) else if w.queue == [] then Exit(i) else Take(i);
    assert Works(w, step);
  }

  /**
   * Shutdown ends: however the steps interleave, the workers take no more of them than there were left when the queue was
   * closed, and when none is left to take every worker has exited.
   */
  lemma {:induction false} ShutdownEnds(o: Options, m: nat, w: World, steps: seq<Step>)
    requires w.closed && |w.cfg.rules| <= m && forall s | s in steps :: Small(s, m)
    ensures Worksteps(o, w, steps) <= AllLeft(o, m, w)
    ensures var w' := Exec(o, w, steps);
      (forall step :: !Works(w', step)) ==> forall i | 0 <= i < |w'.workers| :: w'.workers[i].Exited?
  {
    RunLeaves(o, m, w, steps);
    var w' := Exec(o, w, steps);
    if forall step :: !Works(w', step) {
      forall i | 0 <= i < |w'.workers| ensures w'.workers[i].Exited? {
        if !w'.workers[i].Exited? { NotStuck(w', i); }
      }
    }
  }

  // --- one event ---

  /** Worker i is busy from w on to the end of the run. */
  predicate BusyAlong(o: Options, w: World, steps: seq<Step>, i: nat)
    decreases |steps|
  {
    i < |w.workers| && w.workers[i].Busy? && (steps == [] || BusyAlong(o, Next(o, w, steps[0]), steps[1..], i))
  }

  /** How many acts worker i makes in a run. */
  function ActsOf(o: Options, w: World, steps: seq<Step>, i: nat): nat
    decreases |steps|
  {
    if steps == [] then 0
    else (if steps[0].Work? && steps[0].w == i && Works(w, steps[0]) then 1 else 0) + ActsOf(o, Next(o, w, steps[0]), steps[1..], i)
  }

  /** A step brings a worker that stays busy nearer to its end if it is its own, and leaves it alone otherwise. */
  lemma {:induction false} StepOf(o: Options, m: nat, w: World, step: Step, i: nat)
    requires i < |w.workers| && w.workers[i].Busy? && |w.cfg.rules| <= m && Small(step, m)
    requires i < |Next(o, w, step).workers| && Next(o, w, step).workers[i].Busy?
    ensures |Next(o, w, step).cfg.rules| <= m
    ensures Left(o, m, Next(o, w, step).workers[i]) + (if step.Work? && step.w == i && Works(w, step) then 1 else 0) <= Left(o, m, w.workers[i])
  {
    if step.Work? && step.w == i {
      if Works(w, step) { ActGetsOn(o, m, w, w.workers[i], step.act); } else { ImpossibleAct(o, w, w.workers[i], step.act); }
    }
  }

  lemma {:induction false} ActsAreLeft(o: Options, m: nat, w: World, steps: seq<Step>, i: nat)
    requires BusyAlong(o, w, steps, i) && |w.cfg.rules| <= m && forall s | s in steps :: Small(s, m)
    ensures ActsOf(o, w, steps, i) < Left(o, m, w.workers[i])
    decreases |steps|
  {
    if steps != [] {
      var step, rest := steps[0], steps[1..];
      assert Small(step, m) by { assert step in steps; }
      assert forall s | s in rest :: Small(s, m) by { assert forall s | s in rest :: s in steps; }
      StepOf(o, m, w, step, i);
      ActsAreLeft(o, m, Next(o, w, step), rest, i);
    }
  }

  /** With m rules and r retries an event is done after at most 3 * (m * (2 * r + 5) + 2) + 1 acts of its worker, whatever fails and whatever the others do. */
  lemma {:induction false} EventEnds(o: Options, m: nat, w: World, steps: seq<Step>, i: nat)
    requires Works(w, Take(i)) && |w.cfg.rules| <= m && forall s | s in steps :: Small(s, m)
    requires BusyAlong(o, Next(o, w, Take(i)), steps, i)
    ensures ActsOf(o, Next(o, w, Take(i)), steps, i) <= 3 * (m * (2 * o.retries + 5) + 2)
  {
    var w' := Next(o, w, Take(i));
    ActsAreLeft(o, m, w', steps, i);
    assert w'.workers[i] == Taken(w.queue[0]);
    TakenLeft(o, m, w.queue[0]);
  }

  // --- errors and shutdown ---

  /**
   * What a database error costs: on reading the rules this kind, on reading a channel or claiming this rule, and on the ledger
   * lookup the alert of a recovery and no other, for only recoveries look the ledger up. Nothing else is lost.
   */
  lemma {:induction false} ErrorsCost(o: Options, w: World, b: Worker, now: int)
    requires b.Busy?
    ensures b.at.NextKind? && b.kinds != [] ==> Moved(o, w, b, PickKind(true)) == b.(kinds := b.kinds[1..])
    ensures b.at.NextRule? && b.rules != [] ==> Moved(o, w, b, PickRule(true)) == b.(rules := b.rules[1..])
    ensures b.at.HaveChannel? && b.kind != SiteRecovered ==> Moved(o, w, b, Evaluate(now, true)) == Moved(o, w, b, Evaluate(now, false))
    ensures b.at.HaveChannel? && b.kind == SiteRecovered ==> Moved(o, w, b, Evaluate(now, true)) == b.(at := NextRule)
    ensures b.at.HaveKey? ==> Moved(o, w, b, InsertRow(true)) == b.(at := NextRule) && LedgerAfter(w, b, InsertRow(true)) == w.ledger
  {
  }

  /** Restarting after a crash is starting, with the stores, the configuration, the ledger and its history as they were. */
  lemma {:induction false} CrashRestarts(o: Options, w: World)
    ensures Next(o, w, Crash) ==
      Start(o, w.cfg).(stores := w.stores, ledger := w.ledger, owners := w.owners, sends := w.sends, epoch := w.epoch + 1)
  {
    assert Next(o, w, Crash).workers == Start(o, w.cfg).workers;
  }

  /** A closed dispatcher takes no event in and counts none: what is submitted is lost. */
  lemma {:induction false} ClosedTakesNothing(o: Options, w: World, steps: seq<Step>)
    requires w.closed && forall s | s in steps :: !s.Crash?
    ensures var w' := Exec(o, w, steps);
      && w'.closed && w'.submitted == w.submitted && w'.dropped == w.dropped
      && |w'.queue| <= |w.queue| && w'.queue == w.queue[|w.queue| - |w'.queue|..]
    decreases |steps|
  {
    if steps != [] {
      assert steps[0] in steps && forall s | s in steps[1..] :: s in steps;
      var w1 := Next(o, w, steps[0]);
      assert w1.queue == w.queue || w1.queue == w.queue[1..];
      ClosedTakesNothing(o, w1, steps[1..]);
    }
  }
}
