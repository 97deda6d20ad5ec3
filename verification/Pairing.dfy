/** Any number of workers: when no recovery overtakes its down alert, a run's recoveries are exact. */
module Pairing {
  import opened Keys
  import opened Incidents
  import opened Alerting
  import opened Ledger
  import opened Protocol
  import opened Steady
  import opened AnyOrder
  import Exactness
  import Origins

  // --- runs that finish an outage's first event before they take its last ---

  /** The down event that carries an incident's number: from 1 on, the one that opened it. */
  predicate IsOpening(e: Event, s: string, n: int) { e.site == s && e.tr.incidentId == n && !e.tr.up }

  /** The event that resolves it. */
  predicate IsClosing(e: Event, s: string, n: int) { e.site == s && e.tr.incidentId == n && e.tr.incidentResolved }

  /** The opening event is still to be submitted, queued or in hand. */
  ghost predicate Unfinished(w: World, s: string, n: int) {
    || (exists e | e in w.committed :: IsOpening(e, s, n))
    || (exists e | e in w.queue :: IsOpening(e, s, n))
    || (exists b | b in w.workers :: b.Busy? && IsOpening(b.event, s, n))
  }

  ghost predicate Waits(w: World, step: Step, s: string) {
    step.Take? && w.queue != [] && w.queue[0].site == s && w.queue[0].tr.incidentResolved ==>
      !Unfinished(w, s, w.queue[0].tr.incidentId)
  }

  /** The opening event of each outage of the site is finished before its resolving event is taken. */
  ghost predicate Paired(o: Options, w: World, steps: seq<Step>, s: string)
    decreases |steps|
  {
    steps == [] || (Waits(w, steps[0], s) && Paired(o, Next(o, w, steps[0]), steps[1..], s))
  }

  // --- who still owes a channel its RECOVERED row ---

  ghost predicate OnChannel(rules: seq<Rule>, c: int) { exists r | r in rules :: r.channelId == c }

  ghost predicate ClosingInHand(b: Worker, c: int)
    requires b.Busy?
  {
    match b.at
    case NextKind => false
    case HaveChannel(rule) => rule.channelId == c || OnChannel(b.rules, c)
    case HaveKey(rule, _) => rule.channelId == c || OnChannel(b.rules, c)
    case _ => OnChannel(b.rules, c)
  }

  ghost predicate OwesClosing(b: Worker, s: string, n: int, c: int) {
    b.Busy? && IsClosing(b.event, s, n) && (SiteRecovered in b.kinds || (b.kind == SiteRecovered && ClosingInHand(b, c)))
  }

  ghost predicate HasUp(ledger: seq<Delivery>, s: string, n: int, c: int) {
    Exactness.Has(Claims(ledger), SiteRecovered, s, n, c)
  }

  ghost predicate AnyClosing(es: seq<Event>, s: string, n: int) { exists e | e in es :: IsClosing(e, s, n) }

  ghost predicate AnyOwesClosing(ws: seq<Worker>, s: string, n: int, c: int) { exists b | b in ws :: OwesClosing(b, s, n, c) }

  /** The recovery is told, or will be by an event to come, or by a worker that finds the down alert. */
  ghost predicate Told(w: World, s: string, n: int, c: int) {
    || HasUp(w.ledger, s, n, c)
    || AnyClosing(w.committed, s, n)
    || AnyClosing(w.queue, s, n)
    || (HasDown(w.ledger, s, n, c) && AnyOwesClosing(w.workers, s, n, c))
  }

  /** A worker's kinds are among its event's. */
  ghost predicate OwnKinds(b: Worker) {
    b.Busy? ==> (forall k | k in b.kinds :: k in KindsFor(b.event.tr)) && (b.at != NextKind ==> b.kind in KindsFor(b.event.tr))
  }

  ghost predicate AllOwnKinds(w: World) { forall b | b in w.workers :: OwnKinds(b) }

  // --- one act ---

  lemma {:induction false} MovedOwnKinds(o: Options, w: World, b: Worker, act: Act)
    requires b.Busy? && OwnKinds(b)
    ensures OwnKinds(Moved(o, w, b, act))
  {
    Origins.MovedKinds(o, w, b, act);
  }

  /** Claims are only added. */
  lemma {:induction false} ClaimsStay(w: World, b: Worker, act: Act, k: Kind, s: string, n: int, c: int)
    requires b.Busy? && Exactness.Has(Claims(w.ledger), k, s, n, c)
    ensures Exactness.Has(Claims(LedgerAfter(w, b, act)), k, s, n, c)
  {
    if Inserts(w, b, act) {
      assert Claims(LedgerAfter(w, b, act)) == Claims(w.ledger) + [ClaimOf(b.event, b.kind, b.at.rule, b.at.key)];
    } else {
      assert Claims(LedgerAfter(w, b, act)) == Claims(w.ledger);
    }
  }

  lemma {:induction false} PickedClosing(o: Options, w: World, b: Worker, s: string, n: int, c: int)
    requires b.Busy? && b.at.NextKind? && OwesClosing(b, s, n, c) && Exactness.TellsRecovery(w.cfg, s, c)
    ensures OwesClosing(Moved(o, w, b, PickKind(false)), s, n, c)
  {
    assert b.kinds == [b.kinds[0]] + b.kinds[1..];
    var r :| r in w.cfg.rules && Applies(w.cfg, r, s, SiteRecovered) && r.channelId == c;
    assert r in RulesFor(w.cfg, s, SiteRecovered);
  }

  lemma {:induction false} RuleClosing(o: Options, w: World, b: Worker, s: string, n: int, c: int)
    requires b.Busy? && b.at.NextRule? && b.rules != [] && OwesClosing(b, s, n, c) && Fit(w.cfg, b)
    ensures OwesClosing(Moved(o, w, b, PickRule(false)), s, n, c)
  {
    assert b.rules[0] in b.rules;
    assert forall r :: r in b.rules <==> r == b.rules[0] || r in b.rules[1..];
  }

  /** The evaluation finds the down alert. */
  lemma {:induction false} EvaluatedClosing(o: Options, w: World, b: Worker, now: int, s: string, n: int, c: int)
    requires b.Busy? && b.at.HaveChannel? && OwesClosing(b, s, n, c) && HasDown(w.ledger, s, n, c)
    ensures OwesClosing(Moved(o, w, b, Evaluate(now, false)), s, n, c)
  {
  }

  lemma {:induction false} InsertedClosing(o: Options, w: World, b: Worker, s: string, n: int, c: int)
    requires b.Busy? && b.at.HaveKey? && OwesClosing(b, s, n, c) && Fit(w.cfg, b)
    ensures var act := InsertRow(false);
      HasUp(LedgerAfter(w, b, act), s, n, c) || OwesClosing(Moved(o, w, b, act), s, n, c)
  {
    var row := ClaimOf(b.event, b.kind, b.at.rule, b.at.key);
    var claims := Claims(w.ledger);
    if !Claimed(claims, row.key) {
      assert Claims(LedgerAfter(w, b, InsertRow(false))) == claims + [row];
      assert row in claims + [row];
    }
  }

  lemma {:induction false} OtherClosing(o: Options, w: World, b: Worker, act: Act, s: string, n: int, c: int)
    requires b.Busy? && OwesClosing(b, s, n, c) && Faultless(act) && !(b.at.HaveKey? && act.InsertRow?)
    requires !(b.at.NextKind? && act.PickKind?) && !(b.at.NextRule? && act.PickRule?) && !(b.at.HaveChannel? && act.Evaluate?)
    ensures OwesClosing(Moved(o, w, b, act), s, n, c)
  {
  }

  /** A worker that owes a recovery, its down alert in the ledger, goes on owing it until it is claimed. */
  lemma {:induction false} ActTells(o: Options, w: World, b: Worker, act: Act, s: string, n: int, c: int)
    requires b.Busy? && Faultless(act) && Fit(w.cfg, b) && Exactness.TellsRecovery(w.cfg, s, c)
    requires OwesClosing(b, s, n, c) && HasDown(w.ledger, s, n, c)
    ensures HasUp(LedgerAfter(w, b, act), s, n, c) || OwesClosing(Moved(o, w, b, act), s, n, c)
  {
    if b.at.HaveKey? && act.InsertRow? {
      InsertedClosing(o, w, b, s, n, c);
    } else if b.at.NextKind? && act.PickKind? {
      PickedClosing(o, w, b, s, n, c);
    } else if b.at.NextRule? && act.PickRule? {
      if b.rules != [] { RuleClosing(o, w, b, s, n, c); }
    } else if b.at.HaveChannel? && act.Evaluate? {
      EvaluatedClosing(o, w, b, act.now, s, n, c);
    } else {
      OtherClosing(o, w, b, act, s, n, c);
    }
  }

  // --- one step ---

  lemma {:induction false} WorkTells(o: Options, w: World, i: nat, act: Act, s: string, n: int, c: int)
    requires i < |w.workers| && w.workers[i].Busy? && Faultless(act) && AllFit(w) && Exactness.TellsRecovery(w.cfg, s, c)
    requires Told(w, s, n, c)
    ensures Told(Worked(o, w, i, act), s, n, c)
  {
    var b, w' := w.workers[i], Worked(o, w, i, act);
    assert b in w.workers;
    if HasUp(w.ledger, s, n, c) {
      ClaimsStay(w, b, act, SiteRecovered, s, n, c);
    } else if HasDown(w.ledger, s, n, c) && AnyOwesClosing(w.workers, s, n, c) {
      ClaimsStay(w, b, act, SiteDown, s, n, c);
      var x :| x in w.workers && OwesClosing(x, s, n, c);
      var j :| 0 <= j < |w.workers| && w.workers[j] == x;
      if j == i { ActTells(o, w, b, act, s, n, c); }
      assert w'.workers[j] in w'.workers;
    }
  }

  lemma {:induction false} SubmitTells(o: Options, w: World, i: nat, s: string, n: int, c: int)
    requires Lossless(o, w, Submit(i)) && Told(w, s, n, c)
    ensures Told(Next(o, w, Submit(i)), s, n, c)
  {
    if i < |w.committed| {
      var w' := Next(o, w, Submit(i));
      var a, e, z := w.committed[..i], w.committed[i], w.committed[i + 1..];
      assert w.committed == a + ([e] + z) && w'.committed == a + z && w'.queue == w.queue + [e];
      if AnyClosing(w.committed, s, n) {
        var x :| x in w.committed && IsClosing(x, s, n);
        assert x == e || x in a + z;
        assert e in w'.queue;
      } else if AnyClosing(w.queue, s, n) {
        var x :| x in w.queue && IsClosing(x, s, n);
        assert x in w'.queue;
      }
    }
  }

  lemma {:induction false} OwerHasOpening(cfg: Config, b: Worker, s: string, n: int, c: int)
    requires OwnKinds(b)
    ensures Owes(cfg, b, s, n, c) ==> b.Busy? && IsOpening(b.event, s, n)
  {
  }

  /** Once nothing else is to bring the row, what is due is in the ledger. */
  lemma {:induction false} DueIsHere(w: World, s: string, n: int, c: int)
    requires Due(w, s, n, c) && AllOwnKinds(w) && !Unfinished(w, s, n)
    ensures HasDown(w.ledger, s, n, c)
  {
    forall b | b in w.workers ensures !Owes(w.cfg, b, s, n, c) { OwerHasOpening(w.cfg, b, s, n, c); }
    assert forall e :: Calls(w.cfg, e, s, n, c) ==> IsOpening(e, s, n);
  }

  lemma {:induction false} TakeTells(o: Options, w: World, i: nat, s: string, n: int, c: int)
    requires Told(w, s, n, c) && Due(w, s, n, c) && AllOwnKinds(w) && Waits(w, Take(i), s)
    ensures Told(Next(o, w, Take(i)), s, n, c)
  {
    if i < |w.workers| && w.workers[i].Idle? && w.queue != [] {
      var e, w' := w.queue[0], Next(o, w, Take(i));
      assert w.queue == [e] + w'.queue;
      if IsClosing(e, s, n) {
        DueIsHere(w, s, n, c);
        assert SiteRecovered in KindsFor(e.tr);
        assert w'.workers[i] in w'.workers && OwesClosing(w'.workers[i], s, n, c);
      } else if HasDown(w.ledger, s, n, c) && AnyOwesClosing(w.workers, s, n, c) {
        var x :| x in w.workers && OwesClosing(x, s, n, c);
        var j :| 0 <= j < |w.workers| && w.workers[j] == x;
        assert w'.workers[j] in w'.workers;
      }
    }
  }

  lemma {:induction false} ExitTells(o: Options, w: World, i: nat, s: string, n: int, c: int)
    requires Told(w, s, n, c)
    ensures Told(Next(o, w, Exit(i)), s, n, c)
  {
    if HasDown(w.ledger, s, n, c) && AnyOwesClosing(w.workers, s, n, c) {
      var x :| x in w.workers && OwesClosing(x, s, n, c);
      var j :| 0 <= j < |w.workers| && w.workers[j] == x;
      assert Next(o, w, Exit(i)).workers[j] in Next(o, w, Exit(i)).workers;
    }
  }

  lemma {:induction false} StepOwnKinds(o: Options, w: World, step: Step)
    requires AllOwnKinds(w) && Lossless(o, w, step)
    ensures AllOwnKinds(Next(o, w, step))
  {
    if step.Work? && step.w < |w.workers| && w.workers[step.w].Busy? {
      assert w.workers[step.w] in w.workers;
      MovedOwnKinds(o, w, w.workers[step.w], step.act);
    }
  }

  /** A step other than a commit keeps what will be told, given the down alert is due. */
  lemma {:induction false} StepTells(o: Options, w: World, step: Step, s: string, n: int, c: int)
    requires Lossless(o, w, step) && !step.Commit? && Waits(w, step, s) && AllFit(w) && AllOwnKinds(w)
    requires Exactness.TellsRecovery(w.cfg, s, c) && Told(w, s, n, c) && Due(w, s, n, c)
    ensures Told(Next(o, w, step), s, n, c)
  {
    match step
    case Submit(i) => SubmitTells(o, w, i, s, n, c);
    case Take(i) => TakeTells(o, w, i, s, n, c);
    case Exit(i) => ExitTells(o, w, i, s, n, c);
    case Work(i, act) => if i < |w.workers| && w.workers[i].Busy? { WorkTells(o, w, i, act, s, n, c); }
    case Close =>
  }

  /** A commit brings the event that resolves what its tick resolves. */
  lemma {:induction false} CommitTells(o: Options, w: World, trace: seq<Exactness.Step>, step: Step, clock: nat -> int, s: string, n: int, c: int)
    requires Follows(w, trace) && step.Commit?
    requires Told(w, s, n, c) || Exactness.ResolvesNumber(Traced(trace, step, clock), s, n)
    ensures Told(Next(o, w, step), s, n, c)
  {
    var trace', w' := Traced(trace, step, clock), Next(o, w, step);
    var e := Exactness.LastEvent(trace', false);
    CommitFollows(o, w, trace, step, clock);
    Exactness.LastEventFacts(trace', false);
    assert e in w'.committed;
    if Exactness.ResolvesNumber(trace', s, n) {
      assert IsClosing(e, s, n);
    } else if AnyClosing(w.committed, s, n) {
      var x :| x in w.committed && IsClosing(x, s, n);
      assert x in w'.committed;
    }
  }

  // --- a whole run ---

  /** The recoveries a history accounts for are told or will be. */
  ghost predicate Kept(w: World, trace: seq<Exactness.Step>, s: string, n: int, c: int) {
    && AllFit(w) && AllOwnKinds(w) && Follows(w, trace) && Accounted(w, trace, s, n, c)
    && (n in Exactness.RecoveredNumbers(Exactness.TicksOf(trace, s), Exactness.Thresholds(w.cfg, s, c), false) ==> Told(w, s, n, c))
  }

  lemma {:induction false} StepKept(o: Options, w: World, trace: seq<Exactness.Step>, step: Step, clock: nat -> int, s: string, n: int, c: int)
    requires Kept(w, trace, s, n, c) && Lossless(o, w, step) && Waits(w, step, s) && Exactness.TellsRecovery(w.cfg, s, c)
    ensures Kept(Next(o, w, step), Traced(trace, step, clock), s, n, c) && Next(o, w, step).cfg == w.cfg
  {
    var ticks, d, trace' := Exactness.TicksOf(trace, s), Exactness.Thresholds(w.cfg, s, c), Traced(trace, step, clock);
    StepKeepsDue(o, w, step, s, n, c);
    StepOwnKinds(o, w, step);
    NextFollows(o, w, trace, step, clock);
    StepAccounted(o, w, trace, step, clock, s, n, c);
    Exactness.RecoveredAreAnnouncedAndOver(ticks, d, false);
    if step.Commit? {
      assert trace'[..|trace'| - 1] == trace;
      Exactness.RecoveredStep(w.cfg, trace', false, s, n, c);
      if n in Exactness.RecoveredNumbers(Exactness.TicksOf(trace', s), d, false) { CommitTells(o, w, trace, step, clock, s, n, c); }
    } else if n in Exactness.RecoveredNumbers(ticks, d, false) {
      StepTells(o, w, step, s, n, c);
    }
  }

  lemma {:induction false} RunKept(o: Options, w: World, trace: seq<Exactness.Step>, steps: seq<Step>, clock: nat -> int, s: string, n: int, c: int)
    requires Kept(w, trace, s, n, c) && LosslessRun(o, w, steps) && Paired(o, w, steps, s) && Exactness.TellsRecovery(w.cfg, s, c)
    ensures Kept(Exec(o, w, steps), TraceFrom(trace, steps, clock), s, n, c) && Exec(o, w, steps).cfg == w.cfg
    decreases |steps|
  {
    if steps != [] {
      StepKept(o, w, trace, steps[0], clock, s, n, c);
      RunKept(o, Next(o, w, steps[0]), Traced(trace, steps[0], clock), steps[1..], clock, s, n, c);
    }
  }

  /** With any number of workers, a quiet lossless run that finishes openings first claims every recovery in-order dispatch would. */
  lemma {:induction false} PairedRecovers(o: Options, cfg: Config, steps: seq<Step>, clock: nat -> int, s: string, n: int, c: int)
    requires LosslessRun(o, Start(o, cfg), steps) && Paired(o, Start(o, cfg), steps, s) && Quiet(Exec(o, Start(o, cfg), steps))
    requires Exactness.TellsRecovery(cfg, s, c)
    requires n in Exactness.RecoveredNumbers(Exactness.TicksOf(TraceOf(steps, clock), s), Exactness.Thresholds(cfg, s, c), false)
    ensures Exactness.Has(Claims(Exec(o, Start(o, cfg), steps).ledger), SiteRecovered, s, n, c)
  {
    var w := Start(o, cfg);
    assert FRESH == Run([]);
    assert Claims(w.ledger) == [];
    assert !Due(w, s, n, c);
    RunKept(o, w, [], steps, clock, s, n, c);
    var w' := Exec(o, w, steps);
    assert !AnyOwesClosing(w'.workers, s, n, c);
  }
}
