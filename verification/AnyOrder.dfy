/**
 * Any number of workers, in any interleaving: a run that loses and fails nothing ends with exactly the DOWN rows of
 * in-order dispatch, and with no RECOVERED row in-order dispatch would not have.
 */
module AnyOrder {
  import opened Keys
  import opened Incidents
  import opened Alerting
  import opened Ledger
  import opened Protocol
  import opened Steady
  import Exactness

  // --- who still owes a channel its DOWN row ---

  /** The event calls for DOWN row n of the site on the channel. */
  ghost predicate Calls(cfg: Config, e: Event, s: string, n: int, c: int) {
    && e.site == s && e.tr.incidentId == n && SiteDown in KindsFor(e.tr)
    && e.tr.consecutiveFailures in Exactness.Thresholds(cfg, s, c)
  }

  ghost predicate RuleFires(r: Rule, e: Event, c: int) { r.channelId == c && Confirm(r) == e.tr.consecutiveFailures }

  ghost predicate RulesFire(rules: seq<Rule>, e: Event, c: int) { exists r | r in rules :: RuleFires(r, e, c) }

  /** The kind in hand will still claim the key. */
  ghost predicate InHand(b: Worker, c: int)
    requires b.Busy?
  {
    match b.at
    case NextKind => false
    case HaveChannel(rule) => RuleFires(rule, b.event, c) || RulesFire(b.rules, b.event, c)
    case HaveKey(rule, _) => rule.channelId == c || RulesFire(b.rules, b.event, c)
    case _ => RulesFire(b.rules, b.event, c)
  }

  ghost predicate Owes(cfg: Config, b: Worker, s: string, n: int, c: int) {
    && b.Busy? && b.event.site == s && b.event.tr.incidentId == n
    && ((SiteDown in b.kinds && b.event.tr.consecutiveFailures in Exactness.Thresholds(cfg, s, c))
        || (b.kind == SiteDown && InHand(b, c)))
  }

  ghost predicate HasDown(ledger: seq<Delivery>, s: string, n: int, c: int) {
    Exactness.Has(Claims(ledger), SiteDown, s, n, c)
  }

  ghost predicate AnyCalls(cfg: Config, es: seq<Event>, s: string, n: int, c: int) {
    exists e | e in es :: Calls(cfg, e, s, n, c)
  }

  ghost predicate AnyOwes(cfg: Config, ws: seq<Worker>, s: string, n: int, c: int) {
    exists b | b in ws :: Owes(cfg, b, s, n, c)
  }

  /** The row is there, or an event or worker will still bring it. */
  ghost predicate Due(w: World, s: string, n: int, c: int) {
    || HasDown(w.ledger, s, n, c)
    || AnyCalls(w.cfg, w.committed, s, n, c)
    || AnyCalls(w.cfg, w.queue, s, n, c)
    || AnyOwes(w.cfg, w.workers, s, n, c)
  }

  /** What a worker holds fits the configuration and its event. */
  ghost predicate Fit(cfg: Config, b: Worker) {
    b.Busy? && b.at != NextKind ==>
      && (forall r | r in b.rules :: r.channelId in cfg.channels)
      && (b.at.HaveKey? ==> b.at.key == DedupeKey(b.kind, b.event.site, KeyNumber(b.event, b.kind), b.at.rule.channelId))
  }

  ghost predicate AllFit(w: World) { forall b | b in w.workers :: Fit(w.cfg, b) }

  // --- one act ---

  lemma {:induction false} MovedFit(o: Options, w: World, b: Worker, act: Act)
    requires b.Busy? && Fit(w.cfg, b)
    ensures Fit(w.cfg, Moved(o, w, b, act))
  {
  }

  lemma {:induction false} PickedKind(o: Options, w: World, b: Worker, s: string, n: int, c: int)
    requires b.Busy? && b.at.NextKind? && b.kinds != []
    ensures Owes(w.cfg, Moved(o, w, b, PickKind(false)), s, n, c) <==> Owes(w.cfg, b, s, n, c)
  {
    var rules := RulesFor(w.cfg, b.event.site, SiteDown);
    assert b.kinds == [b.kinds[0]] + b.kinds[1..];
    if b.event.tr.consecutiveFailures in Exactness.Thresholds(w.cfg, b.event.site, c) {
      var r :| r in w.cfg.rules && Applies(w.cfg, r, b.event.site, SiteDown) && RuleFires(r, b.event, c);
      assert r in rules;
    }
  }

  lemma {:induction false} PickedRule(o: Options, w: World, b: Worker, s: string, n: int, c: int)
    requires b.Busy? && b.at.NextRule? && b.rules != [] && Fit(w.cfg, b)
    ensures Owes(w.cfg, Moved(o, w, b, PickRule(false)), s, n, c) <==> Owes(w.cfg, b, s, n, c)
  {
    assert b.rules[0] in b.rules;
    assert forall r :: r in b.rules <==> r == b.rules[0] || r in b.rules[1..];
  }

  lemma {:induction false} Evaluated(o: Options, w: World, b: Worker, now: int, s: string, n: int, c: int)
    requires b.Busy? && b.at.HaveChannel?
    ensures Owes(w.cfg, Moved(o, w, b, Evaluate(now, false)), s, n, c) <==> Owes(w.cfg, b, s, n, c)
  {
  }

  /** An insert moves a row from owed to claimed. */
  lemma {:induction false} Inserted(o: Options, w: World, b: Worker, s: string, n: int, c: int)
    requires b.Busy? && b.at.HaveKey? && Fit(w.cfg, b)
    ensures var act := InsertRow(false);
      HasDown(LedgerAfter(w, b, act), s, n, c) || Owes(w.cfg, Moved(o, w, b, act), s, n, c) <==>
      HasDown(w.ledger, s, n, c) || Owes(w.cfg, b, s, n, c)
    ensures HasDown(w.ledger, s, n, c) ==> HasDown(LedgerAfter(w, b, InsertRow(false)), s, n, c)
  {
    var row := ClaimOf(b.event, b.kind, b.at.rule, b.at.key);
    var claims := Claims(w.ledger);
    if !Claimed(claims, row.key) {
      assert Claims(LedgerAfter(w, b, InsertRow(false))) == claims + [row];
    }
    Exactness.InsertHas(claims, row, SiteDown, s, n, c, b.kind, b.event.site, KeyNumber(b.event, b.kind), b.at.rule.channelId);
  }

  lemma {:induction false} OtherAct(o: Options, w: World, b: Worker, act: Act, s: string, n: int, c: int)
    requires b.Busy? && Faultless(act) && !(b.at.HaveKey? && act.InsertRow?)
    requires !(b.at.NextKind? && act.PickKind?) && !(b.at.NextRule? && act.PickRule?) && !(b.at.HaveChannel? && act.Evaluate?)
    ensures Owes(w.cfg, Moved(o, w, b, act), s, n, c) <==> Owes(w.cfg, b, s, n, c)
  {
  }

  lemma {:induction false} SameClaims(w: World, b: Worker, act: Act, s: string, n: int, c: int)
    requires b.Busy? && !Inserts(w, b, act)
    ensures Claims(LedgerAfter(w, b, act)) == Claims(w.ledger)
    ensures HasDown(LedgerAfter(w, b, act), s, n, c) == HasDown(w.ledger, s, n, c)
  {
  }

  /** A faultless act neither loses a row owed nor invents one. */
  lemma {:induction false} ActKeepsDue(o: Options, w: World, b: Worker, act: Act, s: string, n: int, c: int)
    requires b.Busy? && Faultless(act) && Fit(w.cfg, b)
    ensures HasDown(LedgerAfter(w, b, act), s, n, c) || Owes(w.cfg, Moved(o, w, b, act), s, n, c) <==>
            HasDown(w.ledger, s, n, c) || Owes(w.cfg, b, s, n, c)
    ensures HasDown(w.ledger, s, n, c) ==> HasDown(LedgerAfter(w, b, act), s, n, c)
  {
    if b.at.HaveKey? && act.InsertRow? {
      Inserted(o, w, b, s, n, c);
    } else {
      SameClaims(w, b, act, s, n, c);
      if b.at.NextKind? && act.PickKind? {
        if b.kinds != [] { PickedKind(o, w, b, s, n, c); }
      } else if b.at.NextRule? && act.PickRule? {
        if b.rules != [] { PickedRule(o, w, b, s, n, c); }
      } else if b.at.HaveChannel? && act.Evaluate? {
        Evaluated(o, w, b, act.now, s, n, c);
      } else {
        OtherAct(o, w, b, act, s, n, c);
      }
    }
  }

  // --- one step ---

  /** Replacing a worker replaces what it owes. */
  lemma {:induction false} OwesUpdate(cfg: Config, ws: seq<Worker>, i: nat, b: Worker, s: string, n: int, c: int)
    requires i < |ws|
    ensures AnyOwes(cfg, ws, s, n, c) <==> OthersOwe(cfg, ws, i, s, n, c) || Owes(cfg, ws[i], s, n, c)
    ensures AnyOwes(cfg, ws[i := b], s, n, c) <==> OthersOwe(cfg, ws, i, s, n, c) || Owes(cfg, b, s, n, c)
  {
    if AnyOwes(cfg, ws, s, n, c) {
      var x :| x in ws && Owes(cfg, x, s, n, c);
      var j :| 0 <= j < |ws| && ws[j] == x;
    }
    if AnyOwes(cfg, ws[i := b], s, n, c) {
      var x :| x in ws[i := b] && Owes(cfg, x, s, n, c);
      var j :| 0 <= j < |ws| && ws[i := b][j] == x;
    }
    if OthersOwe(cfg, ws, i, s, n, c) {
      var j :| 0 <= j < |ws| && j != i && Owes(cfg, ws[j], s, n, c);
      assert ws[j] in ws && ws[i := b][j] in ws[i := b];
    }
    assert ws[i] in ws && ws[i := b][i] in ws[i := b];
  }

  ghost predicate OthersOwe(cfg: Config, ws: seq<Worker>, i: nat, s: string, n: int, c: int) {
    exists j | 0 <= j < |ws| :: j != i && Owes(cfg, ws[j], s, n, c)
  }

  lemma {:induction false} CallsConcat(cfg: Config, a: seq<Event>, b: seq<Event>, s: string, n: int, c: int)
    ensures AnyCalls(cfg, a + b, s, n, c) <==> AnyCalls(cfg, a, s, n, c) || AnyCalls(cfg, b, s, n, c)
  {
    assert forall e :: e in a + b <==> e in a || e in b;
  }

  lemma {:induction false} CallsOne(cfg: Config, e: Event, s: string, n: int, c: int)
    ensures AnyCalls(cfg, [e], s, n, c) <==> Calls(cfg, e, s, n, c)
  {
    assert e in [e];
  }

  lemma {:induction false} SubmitKeepsDue(o: Options, w: World, i: nat, s: string, n: int, c: int)
    requires Lossless(o, w, Submit(i))
    ensures Due(Next(o, w, Submit(i)), s, n, c) <==> Due(w, s, n, c)
  {
    if i < |w.committed| {
      var a, e, z := w.committed[..i], w.committed[i], w.committed[i + 1..];
      assert w.committed == a + ([e] + z);
      CallsConcat(w.cfg, a, [e] + z, s, n, c);
      CallsConcat(w.cfg, [e], z, s, n, c);
      CallsConcat(w.cfg, a, z, s, n, c);
      CallsConcat(w.cfg, w.queue, [e], s, n, c);
    }
  }

  lemma {:induction false} TakeKeepsDue(o: Options, w: World, i: nat, s: string, n: int, c: int)
    ensures Due(Next(o, w, Take(i)), s, n, c) <==> Due(w, s, n, c)
  {
    if i < |w.workers| && w.workers[i].Idle? && w.queue != [] {
      var e := w.queue[0];
      assert w.queue == [e] + w.queue[1..];
      CallsConcat(w.cfg, [e], w.queue[1..], s, n, c);
      CallsOne(w.cfg, e, s, n, c);
      OwesUpdate(w.cfg, w.workers, i, Busy(e, KindsFor(e.tr), SiteDown, [], NextKind), s, n, c);
    }
  }

  lemma {:induction false} WorkKeepsDue(o: Options, w: World, i: nat, act: Act, s: string, n: int, c: int)
    requires i < |w.workers| && w.workers[i].Busy? && Faultless(act) && AllFit(w)
    ensures Due(Worked(o, w, i, act), s, n, c) <==> Due(w, s, n, c)
  {
    var b := w.workers[i];
    assert b in w.workers;
    ActKeepsDue(o, w, b, act, s, n, c);
    OwesUpdate(w.cfg, w.workers, i, Moved(o, w, b, act), s, n, c);
  }

  /** A lossless step changes what is due only by the event it commits. */
  lemma {:induction false} StepKeepsDue(o: Options, w: World, step: Step, s: string, n: int, c: int)
    requires Lossless(o, w, step) && AllFit(w)
    ensures AllFit(Next(o, w, step)) && Next(o, w, step).cfg == w.cfg
    ensures !step.Commit? ==> (Due(Next(o, w, step), s, n, c) <==> Due(w, s, n, c))
  {
    match step
    case Commit(_, _, _) =>
    case Submit(i) => SubmitKeepsDue(o, w, i, s, n, c);
    case Take(i) => TakeKeepsDue(o, w, i, s, n, c);
    case Exit(i) =>
      if i < |w.workers| { OwesUpdate(w.cfg, w.workers, i, Exited, s, n, c); }
    case Work(i, act) =>
      if i < |w.workers| && w.workers[i].Busy? {
        assert w.workers[i] in w.workers;
        MovedFit(o, w, w.workers[i], act);
        WorkKeepsDue(o, w, i, act, s, n, c);
      }
    case Close =>
  }

  /** The event of a trace's last tick calls for the row exactly when the tick adds it. */
  lemma {:induction false} LastCalls(cfg: Config, trace: seq<Exactness.Step>, s: string, n: int, c: int)
    requires trace != []
    ensures Calls(cfg, Exactness.LastEvent(trace, false), s, n, c) <==> Exactness.AddsDown(cfg, trace, false, s, n, c)
  {
    Exactness.LastEventFacts(trace, false);
  }

  lemma {:induction false} CommitAddsDue(o: Options, w: World, trace: seq<Exactness.Step>, step: Step, clock: nat -> int, s: string, n: int, c: int)
    requires Follows(w, trace) && step.Commit?
    ensures var trace' := Traced(trace, step, clock);
      Due(Next(o, w, step), s, n, c) <==> Due(w, s, n, c) || Exactness.AddsDown(w.cfg, trace', false, s, n, c)
  {
    CommitFollows(o, w, trace, step, clock);
    var e := Exactness.LastEvent(Traced(trace, step, clock), false);
    LastCalls(w.cfg, Traced(trace, step, clock), s, n, c);
    CallsConcat(w.cfg, w.committed, [e], s, n, c);
    CallsOne(w.cfg, e, s, n, c);
  }

  // --- a whole run ---

  /** Exactly the DOWN row its history accounts for is due. */
  ghost predicate Accounted(w: World, trace: seq<Exactness.Step>, s: string, n: int, c: int) {
    Due(w, s, n, c) <==> n in Exactness.DownNumbers(Exactness.TicksOf(trace, s), Exactness.Thresholds(w.cfg, s, c), false)
  }

  lemma {:induction false} StepAccounted(o: Options, w: World, trace: seq<Exactness.Step>, step: Step, clock: nat -> int, s: string, n: int, c: int)
    requires Lossless(o, w, step) && AllFit(w) && Follows(w, trace) && Accounted(w, trace, s, n, c)
    ensures Accounted(Next(o, w, step), Traced(trace, step, clock), s, n, c)
  {
    StepKeepsDue(o, w, step, s, n, c);
    if step.Commit? {
      var trace' := Traced(trace, step, clock);
      CommitAddsDue(o, w, trace, step, clock, s, n, c);
      assert trace'[..|trace'| - 1] == trace;
      Exactness.DownStep(w.cfg, trace', false, s, n, c);
    }
  }

  /** What is due after a run is what the ticks of the run account for. */
  lemma {:induction false} RunAccounted(o: Options, w: World, trace: seq<Exactness.Step>, steps: seq<Step>, clock: nat -> int, s: string, n: int, c: int)
    requires LosslessRun(o, w, steps) && AllFit(w) && Follows(w, trace) && Accounted(w, trace, s, n, c)
    ensures Exec(o, w, steps).cfg == w.cfg && Accounted(Exec(o, w, steps), TraceFrom(trace, steps, clock), s, n, c)
    decreases |steps|
  {
    if steps != [] {
      StepKeepsDue(o, w, steps[0], s, n, c);
      NextFollows(o, w, trace, steps[0], clock);
      StepAccounted(o, w, trace, steps[0], clock, s, n, c);
      RunAccounted(o, Next(o, w, steps[0]), Traced(trace, steps[0], clock), steps[1..], clock, s, n, c);
    }
  }

  /** With any number of workers, in any interleaving, a quiet lossless run has exactly the DOWN keys of in-order dispatch. */
  lemma {:induction false} DownKeysOfRun(o: Options, cfg: Config, steps: seq<Step>, clock: nat -> int, s: string, n: int, c: int)
    requires LosslessRun(o, Start(o, cfg), steps) && Quiet(Exec(o, Start(o, cfg), steps))
    ensures Exactness.Has(Claims(Exec(o, Start(o, cfg), steps).ledger), SiteDown, s, n, c) <==>
      n in Exactness.DownNumbers(Exactness.TicksOf(TraceOf(steps, clock), s), Exactness.Thresholds(cfg, s, c), false)
  {
    var w := Start(o, cfg);
    assert FRESH == Run([]);
    assert Claims(w.ledger) == [];
    RunAccounted(o, w, [], steps, clock, s, n, c);
    var w' := Exec(o, w, steps);
    assert !AnyOwes(w'.cfg, w'.workers, s, n, c);
  }
}
