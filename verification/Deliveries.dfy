/** Which rows a run leaves unsettled, and how many sends a failed row has had. */
module Deliveries {
  import opened Wrappers
  import opened Alerting
  import opened Ledger
  import opened Protocol
  import opened Safety

  /** Held means in some worker's hands. */
  ghost predicate HeldBySome(w: World, id: int) {
    exists j | 0 <= j < |w.workers| :: Holds(w.workers[j], id)
  }

  lemma {:induction false} WorkOwn(o: Options, w: World, i: nat, id: int)
    requires Safe(o, w) && i < |w.workers| && w.workers[i].Busy? && Holds(w.workers[i], id)
    ensures 1 <= id <= |w.ledger| == |w.owners| == |w.sends| && w.ledger[id - 1].status == Pending
    ensures StageLog(o.retries, w.workers[i].at, w.sends[id - 1]) && w.owners[id - 1] == Owner(w.epoch, i)
    ensures w.workers[i].at.id == id
  {
    assert WorkerSafe(o.retries, w.ledger, w.owners, w.sends, Owner(w.epoch, i), w.workers[i]);
  }

  // --- unsettled rows are in hand ---

  /** No crash, no panic, and no failure to record how a delivery ended. */
  predicate Records(step: Step) {
    !step.Crash? && (step.Work? ==> !step.act.Panic? && step.act != Mark(true))
  }

  ghost predicate InHand(w: World) {
    forall k | 0 <= k < |w.ledger| && w.ledger[k].status == Pending :: HeldBySome(w, k + 1)
  }

  lemma {:induction false} MovedHolds(o: Options, w: World, b: Worker, act: Act, id: int)
    requires b.Busy? && Holds(b, id) && !act.Panic? && act != Mark(true)
    ensures Holds(Moved(o, w, b, act), id) || Marks(b, act)
  {
    match b.at
    case Sending(_, _) => if act.Send? { StillHolds(o, w, b, act.error, id); }
    case Waiting(_, _, _) =>
    case Marking(_, _, _) =>
  }

  /** A worker that records its deliveries lets go of a row only by settling it. */
  lemma {:induction false} StillInHand(o: Options, w: World, i: nat, act: Act, id: int)
    requires i < |w.workers| && w.workers[i].Busy? && Holds(w.workers[i], id) && !act.Panic? && act != Mark(true)
    requires 1 <= id <= |w.ledger| && w.ledger[id - 1].status == Pending && w.workers[i].at.id == id
    ensures var w' := Worked(o, w, i, act);
      Holds(w'.workers[i], id) || (1 <= id <= |w'.ledger| && w'.ledger[id - 1].status != Pending)
  {
    MovedHolds(o, w, w.workers[i], act, id);
    if Marks(w.workers[i], act) { MarkedLedger(w, w.workers[i]); }
  }

  /** A row that is new is in the hands of the worker that inserted it. */
  lemma {:induction false} NewInHand(o: Options, w: World, i: nat, act: Act)
    requires i < |w.workers| && w.workers[i].Busy? && Inserts(w, w.workers[i], act)
    ensures var w' := Worked(o, w, i, act); |w'.ledger| == |w.ledger| + 1 && Holds(w'.workers[i], |w'.ledger|)
  {
  }

  lemma {:induction false} OthersStay(o: Options, w: World, i: nat, act: Act, j: nat)
    requires i < |w.workers| && w.workers[i].Busy? && j < |w.workers| && j != i
    ensures |Worked(o, w, i, act).workers| == |w.workers| && Worked(o, w, i, act).workers[j] == w.workers[j]
  {
  }

  /** A row that is unsettled after an act is still in the hands it was in. */
  lemma {:induction false} StillHeld(o: Options, w: World, i: nat, act: Act, j: nat, k: nat)
    requires i < |w.workers| && w.workers[i].Busy? && Records(Work(i, act))
    requires j < |w.workers| && Holds(w.workers[j], k + 1) && w.workers[j].at.id == k + 1
    requires k < |w.ledger| && w.ledger[k].status == Pending
    requires k < |Worked(o, w, i, act).ledger| && Worked(o, w, i, act).ledger[k].status == Pending
    ensures j < |Worked(o, w, i, act).workers| && Holds(Worked(o, w, i, act).workers[j], k + 1)
  {
    if j == i {
      StillInHand(o, w, i, act, k + 1);
    } else {
      OthersStay(o, w, i, act, j);
    }
  }

  lemma {:induction false} WorkInHand(o: Options, w: World, i: nat, act: Act)
    requires Safe(o, w) && InHand(w) && i < |w.workers| && w.workers[i].Busy? && Records(Work(i, act))
    ensures InHand(Worked(o, w, i, act))
  {
    var w' := Worked(o, w, i, act);
    WorkSafe(o, w, i, act);
    forall k | 0 <= k < |w'.ledger| && w'.ledger[k].status == Pending ensures HeldBySome(w', k + 1) {
      if k < |w.ledger| {
        assert HeldBySome(w, k + 1);
        var j :| 0 <= j < |w.workers| && Holds(w.workers[j], k + 1);
        WorkOwn(o, w, j, k + 1);
        StillHeld(o, w, i, act, j, k);
      } else {
        NewInHand(o, w, i, act);
        assert Holds(w'.workers[i], k + 1);
      }
    }
  }

  lemma {:induction false} HolderStays(o: Options, w: World, step: Step, j: nat, id: int)
    requires !step.Work? && !step.Crash? && j < |w.workers| && Holds(w.workers[j], id)
    ensures j < |Next(o, w, step).workers| && Next(o, w, step).workers[j] == w.workers[j]
  {
  }

  lemma {:induction false} QueueInHand(o: Options, w: World, step: Step)
    requires InHand(w) && !step.Work? && !step.Crash?
    ensures InHand(Next(o, w, step))
  {
    OnlyQueues(o, w, step);
    forall k | 0 <= k < |w.ledger| && w.ledger[k].status == Pending ensures HeldBySome(Next(o, w, step), k + 1) {
      assert HeldBySome(w, k + 1);
      var j :| 0 <= j < |w.workers| && Holds(w.workers[j], k + 1);
      HolderStays(o, w, step, j, k + 1);
    }
  }

  lemma {:induction false} NextInHand(o: Options, w: World, step: Step)
    requires Safe(o, w) && InHand(w) && Records(step)
    ensures InHand(Next(o, w, step))
  {
    if step.Work? {
      if step.w < |w.workers| && w.workers[step.w].Busy? { WorkInHand(o, w, step.w, step.act); }
    } else {
      QueueInHand(o, w, step);
    }
  }

  lemma {:induction false} RunInHand(o: Options, w: World, steps: seq<Step>)
    requires Safe(o, w) && InHand(w) && forall s | s in steps :: Records(s)
    ensures InHand(Exec(o, w, steps))
    decreases |steps|
  {
    if steps != [] {
      assert steps[0] in steps && forall s | s in steps[1..] :: s in steps;
      NextInHand(o, w, steps[0]);
      SafeNext(o, w, steps[0]);
      RunInHand(o, Next(o, w, steps[0]), steps[1..]);
    }
  }

  /** Where nothing crashes, an unsettled row is in some worker's hands; so none is left once no worker is busy, shutdown or not. */
  lemma {:induction false} AllSettled(o: Options, cfg: Config, steps: seq<Step>)
    requires forall s | s in steps :: Records(s)
    ensures var w := Exec(o, Start(o, cfg), steps);
      && (forall i | 0 <= i < |w.ledger| && w.ledger[i].status == Pending ::
            exists j | 0 <= j < |w.workers| :: Holds(w.workers[j], i + 1))
      && ((forall j | 0 <= j < |w.workers| :: !w.workers[j].Busy?) ==>
            forall i | 0 <= i < |w.ledger| :: w.ledger[i].status == Sent || w.ledger[i].status == Failed)
  {
    StartSafe(o, cfg);
    RunInHand(o, Start(o, cfg), steps);
    var w := Exec(o, Start(o, cfg), steps);
    forall i | 0 <= i < |w.ledger| && w.ledger[i].status == Pending
      ensures exists j | 0 <= j < |w.workers| :: Holds(w.workers[j], i + 1)
    {
      assert HeldBySome(w, i + 1);
    }
  }

  // --- without a shutdown every retry is made ---

  /** This worker, about to record a failure, has made every retry. */
  ghost predicate GaveUpLate(retries: nat, sends: seq<seq<Option<string>>>, b: Worker) {
    b.Busy? && b.at.Marking? && b.at.error.Some? && 1 <= b.at.id <= |sends| ==> |sends[b.at.id - 1]| == retries + 1
  }

  ghost predicate Persistent(o: Options, w: World) {
    && !w.closed && |w.sends| == |w.ledger|
    && (forall i | 0 <= i < |w.ledger| && w.ledger[i].status == Failed :: |w.sends[i]| == o.retries + 1)
    && forall j | 0 <= j < |w.workers| :: GaveUpLate(o.retries, w.sends, w.workers[j])
  }

  /** Before shutdown a worker comes to record a failure by its last retry alone. */
  lemma {:induction false} MovedGivesUp(o: Options, w: World, b: Worker, act: Act)
    requires b.Busy? && !w.closed
    ensures var b' := Moved(o, w, b, act);
      b'.Busy? && b'.at.Marking? && b'.at.error.Some? ==>
        || (b' == b && !Inserts(w, b, act))
        || (b.at.Sending? && act.Send? && b.at.attempt > o.retries && b'.at.id == b.at.id)
  {
  }

  lemma {:induction false} IdleSends(w: World, b: Worker, act: Act)
    requires b.Busy? && b.at.Marking?
    ensures SendsAfter(w, b, act) == w.sends
  {
  }

  /** A worker that gives up on a send has had the answers of all its retries. */
  lemma {:induction false} LastRetry(o: Options, w: World, b: Worker, error: Option<string>)
    requires b.Busy? && b.at.Sending? && 1 <= b.at.id <= |w.sends| && StageLog(o.retries, b.at, w.sends[b.at.id - 1])
    ensures GaveUpLate(o.retries, SendsAfter(w, b, Send(error)), Moved(o, w, b, Send(error)))
  {
  }

  /** What the acting worker brings along. */
  ghost predicate Fits(retries: nat, sends: seq<seq<Option<string>>>, b: Worker) {
    && GaveUpLate(retries, sends, b)
    && (b.Busy? && b.at.Sending? ==> 1 <= b.at.id <= |sends| && StageLog(retries, b.at, sends[b.at.id - 1]))
  }

  lemma {:induction false} ActorPersists(o: Options, w: World, i: nat, act: Act)
    requires i < |w.workers| && w.workers[i].Busy? && !w.closed && Fits(o.retries, w.sends, w.workers[i])
    ensures var w' := Worked(o, w, i, act);
      !w'.closed && |w'.workers| == |w.workers| && GaveUpLate(o.retries, w'.sends, w'.workers[i])
    ensures forall j | 0 <= j < |w.workers| && j != i :: Worked(o, w, i, act).workers[j] == w.workers[j]
  {
    var b := w.workers[i];
    if b.at.Sending? && act.Send? {
      LastRetry(o, w, b, act.error);
    } else {
      MovedGivesUp(o, w, b, act);
      if b.at.Marking? { IdleSends(w, b, act); }
    }
  }

  /** A held row comes to be failed only by its mark. */
  lemma {:induction false} FailedByMark(o: Options, w: World, i: nat, act: Act, k: nat)
    requires Safe(o, w) && Persistent(o, w) && i < |w.workers| && w.workers[i].Busy? && Holds(w.workers[i], k + 1)
    requires var l' := LedgerAfter(w, w.workers[i], act); k < |l'| && l'[k].status == Failed
    ensures k < |w.sends| == |w.ledger| && |w.sends[k]| == o.retries + 1 && SendsAfter(w, w.workers[i], act) == w.sends
  {
    var b := w.workers[i];
    WorkOwn(o, w, i, k + 1);
    assert GaveUpLate(o.retries, w.sends, b);
    if Marks(b, act) {
      MarkedLedger(w, b);
      IdleSends(w, b, act);
    }
  }

  lemma {:induction false} RowsPersist(o: Options, w: World, i: nat, act: Act, k: nat)
    requires Safe(o, w) && Persistent(o, w) && i < |w.workers| && w.workers[i].Busy?
    requires var w' := Worked(o, w, i, act); k < |w'.ledger| == |w'.sends| && w'.ledger[k].status == Failed
    ensures |Worked(o, w, i, act).sends[k]| == o.retries + 1
  {
    if Holds(w.workers[i], k + 1) {
      FailedByMark(o, w, i, act, k);
    } else {
      WorkLedger(o, w, i, act);
    }
  }

  /** The sends of a row another worker holds stay as they are. */
  lemma {:induction false} OtherPersists(o: Options, w: World, i: nat, act: Act, j: nat)
    requires Safe(o, w) && i < |w.workers| && w.workers[i].Busy? && j < |w.workers| && j != i
    requires GaveUpLate(o.retries, w.sends, w.workers[j])
    ensures GaveUpLate(o.retries, Worked(o, w, i, act).sends, w.workers[j])
  {
    var b := w.workers[j];
    if b.Busy? && b.at.Marking? {
      var k := b.at.id - 1;
      WorkOwn(o, w, j, k + 1);
      if Holds(w.workers[i], k + 1) { WorkOwn(o, w, i, k + 1); }
      WorkLedger(o, w, i, act);
    }
  }

  lemma {:induction false} ActorFits(o: Options, w: World, i: nat)
    requires Safe(o, w) && Persistent(o, w) && i < |w.workers|
    ensures Fits(o.retries, w.sends, w.workers[i])
  {
    var b := w.workers[i];
    if b.Busy? && b.at.Sending? { WorkOwn(o, w, i, b.at.id); }
  }

  lemma {:induction false} WorkPersists(o: Options, w: World, i: nat, act: Act)
    requires Safe(o, w) && Persistent(o, w) && i < |w.workers| && w.workers[i].Busy?
    ensures Persistent(o, Worked(o, w, i, act))
  {
    var w' := Worked(o, w, i, act);
    WorkSafe(o, w, i, act);
    ActorFits(o, w, i);
    ActorPersists(o, w, i, act);
    forall j | 0 <= j < |w'.workers| ensures GaveUpLate(o.retries, w'.sends, w'.workers[j]) {
      if j != i { OtherPersists(o, w, i, act, j); }
    }
    forall k | 0 <= k < |w'.ledger| && w'.ledger[k].status == Failed ensures |w'.sends[k]| == o.retries + 1 {
      RowsPersist(o, w, i, act, k);
    }
  }

  lemma {:induction false} NextPersists(o: Options, w: World, step: Step)
    requires Safe(o, w) && Persistent(o, w) && !step.Close?
    ensures Persistent(o, Next(o, w, step))
  {
    if step.Work? {
      if step.w < |w.workers| && w.workers[step.w].Busy? { WorkPersists(o, w, step.w, step.act); }
    } else if !step.Crash? {
      OnlyQueues(o, w, step);
    }
  }

  lemma {:induction false} RunPersists(o: Options, w: World, steps: seq<Step>)
    requires Safe(o, w) && Persistent(o, w) && forall s | s in steps :: !s.Close?
    ensures Persistent(o, Exec(o, w, steps))
    decreases |steps|
  {
    if steps != [] {
      assert steps[0] in steps && forall s | s in steps[1..] :: s in steps;
      NextPersists(o, w, steps[0]);
      SafeNext(o, w, steps[0]);
      RunPersists(o, Next(o, w, steps[0]), steps[1..]);
    }
  }

  /** Before any shutdown a failed row has had all its retries, and each of them failed. */
  lemma {:induction false} FailedAfterAllRetries(o: Options, cfg: Config, steps: seq<Step>)
    requires forall s | s in steps :: !s.Close?
    ensures var w := Exec(o, Start(o, cfg), steps);
      && |w.sends| == |w.ledger|
      && forall i | 0 <= i < |w.ledger| && w.ledger[i].status == Failed ::
           |w.sends[i]| == o.retries + 1 && forall k | 0 <= k < |w.sends[i]| :: w.sends[i][k].Some?
  {
    StartSafe(o, cfg);
    RunPersists(o, Start(o, cfg), steps);
    SafeExec(o, Start(o, cfg), steps);
    var w := Exec(o, Start(o, cfg), steps);
    assert forall i | 0 <= i < |w.ledger| :: RowLog(o.retries, w.ledger[i], w.sends[i]);
  }
}
