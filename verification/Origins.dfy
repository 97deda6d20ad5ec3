/**
 * What ledger rows mean when every event comes from a recorded tick, under every interleaving:
 * they name real incidents; and with thresholds of 2 or more a channel is told at most once.
 */
module Origins {
  import opened Keys
  import opened Incidents
  import opened Alerting
  import opened Ledger
  import opened Protocol
  import opened Safety

  // --- the invariant ---

  /** The store has only ever been written by `RecordTick`. */
  ghost predicate FromTicks(db: SiteDb) { exists ticks :: db == Run(ticks) }

  predicate IsResolved(db: SiteDb, n: int) { 1 <= n <= |db.incidents| && db.incidents[n - 1].resolvedAt.Some? }

  /** What stays true of a reported transition as its store moves on. */
  predicate EventOk(db: SiteDb, tr: Transition) {
    && 0 <= tr.incidentId <= |db.incidents|
    && (tr.consecutiveFailures >= 2 ==> tr.incidentId == 0)
    && (tr.incidentResolved ==> IsResolved(db, tr.incidentId))
  }

  /** A row names an opened incident or none; a recovery names a resolved one. */
  predicate RowOk(db: SiteDb, c: Claim) {
    && (c.incidentId.Some? ==> 1 <= c.incidentId.value <= |db.incidents|)
    && (c.kind == SiteRecovered ==> IsResolved(db, c.incidentId.GetOr(0)))
  }

  predicate WorkerOk(stores: map<string, SiteDb>, b: Worker) {
    b.Busy? ==>
      && EventOk(StoreOf(stores, b.event.site), b.event.tr)
      && (forall k | k in b.kinds :: k in KindsFor(b.event.tr))
      && (b.at != NextKind ==> b.kind in KindsFor(b.event.tr))
  }

  ghost predicate Grounded(w: World) {
    && (forall s | s in w.stores :: FromTicks(w.stores[s]))
    && (forall e | e in w.committed :: EventOk(StoreOf(w.stores, e.site), e.tr))
    && (forall e | e in w.queue :: EventOk(StoreOf(w.stores, e.site), e.tr))
    && (forall b | b in w.workers :: WorkerOk(w.stores, b))
    && (forall k | 0 <= k < |w.ledger| :: RowOk(StoreOf(w.stores, w.ledger[k].claim.site), w.ledger[k].claim))
  }

  // --- a commit ---

  /** A store only gains incidents, and a resolved one stays resolved. */
  ghost predicate Grows(db: SiteDb, db': SiteDb) {
    && |db.incidents| <= |db'.incidents|
    && forall n :: IsResolved(db, n) ==> IsResolved(db', n)
  }

  lemma {:induction false} RecordedGrows(db: SiteDb, t: Tick)
    ensures Grows(db, Recorded(db, t).0)
  {
  }

  lemma {:induction false} RecordedOk(db: SiteDb, t: Tick)
    requires FromTicks(db)
    ensures FromTicks(Recorded(db, t).0)
    ensures EventOk(Recorded(db, t).0, Recorded(db, t).1)
  {
    var ticks :| db == Run(ticks);
    var ticks' := ticks + [t];
    assert ticks'[..|ticks'| - 1] == ticks;
    assert Recorded(db, t).0 == Run(ticks') && Recorded(db, t).1 == LastTransition(ticks');
    TransitionFacts(ticks');
    StateIsSummary(ticks);
    LastOutage(ticks);
  }

  /** What was grounded in some stores is grounded in grown ones. */
  lemma {:induction false} GroundedGrows(w: World, stores': map<string, SiteDb>)
    requires Grounded(w) && forall s :: Grows(StoreOf(w.stores, s), StoreOf(stores', s))
    ensures forall e | e in w.committed :: EventOk(StoreOf(stores', e.site), e.tr)
    ensures forall e | e in w.queue :: EventOk(StoreOf(stores', e.site), e.tr)
    ensures forall b | b in w.workers :: WorkerOk(stores', b)
    ensures forall k | 0 <= k < |w.ledger| :: RowOk(StoreOf(stores', w.ledger[k].claim.site), w.ledger[k].claim)
  {
  }

  lemma {:induction false} StoresGrow(stores: map<string, SiteDb>, site: string, tick: Tick)
    ensures var db := Recorded(StoreOf(stores, site), tick).0;
      forall s :: Grows(StoreOf(stores, s), StoreOf(stores[site := db], s))
  {
    RecordedGrows(StoreOf(stores, site), tick);
  }

  lemma {:induction false} CommitGrounded(o: Options, w: World, site: string, tick: Tick, warnDays: int)
    requires Grounded(w)
    ensures Grounded(Next(o, w, Commit(site, tick, warnDays)))
  {
    var db := StoreOf(w.stores, site);
    assert FromTicks(db) by { assert FRESH == Run([]); }
    RecordedOk(db, tick);
    StoresGrow(w.stores, site, tick);
    GroundedGrows(w, Next(o, w, Commit(site, tick, warnDays)).stores);
  }

  // --- an act ---

  /** An act keeps the event; it leaves the kinds alone, or goes on to the next one. */
  lemma {:induction false} MovedKinds(o: Options, w: World, b: Worker, act: Act)
    requires b.Busy?
    ensures var b' := Moved(o, w, b, act);
      b'.Busy? ==>
        && b'.event == b.event
        && (if b'.kinds == b.kinds then b'.kind == b.kind && (b.at == NextKind ==> b'.at == NextKind)
            else b.kinds != [] && b'.kinds == b.kinds[1..] && (b'.at == NextKind || b'.kind == b.kinds[0]))
  {
    if b.at.NextKind? && act.PickKind? && b.kinds != [] { assert |b.kinds[1..]| != |b.kinds|; }
  }

  lemma {:induction false} MovedGrounded(o: Options, w: World, b: Worker, act: Act)
    requires WorkerOk(w.stores, b) && b.Busy?
    ensures WorkerOk(w.stores, Moved(o, w, b, act))
  {
    MovedKinds(o, w, b, act);
  }

  lemma {:induction false} InsertedOk(w: World, b: Worker, act: Act)
    requires WorkerOk(w.stores, b) && b.Busy? && Inserts(w, b, act)
    ensures RowOk(StoreOf(w.stores, b.event.site), ClaimOf(b.event, b.kind, b.at.rule, b.at.key))
  {
  }

  lemma {:induction false} LedgerGrounded(w: World, b: Worker, act: Act)
    requires Grounded(w) && WorkerOk(w.stores, b) && b.Busy?
    ensures var l' := LedgerAfter(w, b, act);
      forall k | 0 <= k < |l'| :: RowOk(StoreOf(w.stores, l'[k].claim.site), l'[k].claim)
  {
    var l' := LedgerAfter(w, b, act);
    if Inserts(w, b, act) {
      InsertedOk(w, b, act);
    } else {
      assert Claims(l') == Claims(w.ledger);
      assert forall k | 0 <= k < |l'| :: l'[k].claim == w.ledger[k].claim;
    }
  }

  lemma {:induction false} WorkGrounded(o: Options, w: World, i: nat, act: Act)
    requires Grounded(w) && i < |w.workers| && w.workers[i].Busy?
    ensures Grounded(Worked(o, w, i, act))
  {
    var b := w.workers[i];
    assert b in w.workers;
    MovedGrounded(o, w, b, act);
    LedgerGrounded(w, b, act);
  }

  lemma {:induction false} SubmitGrounded(o: Options, w: World, i: nat)
    requires Grounded(w)
    ensures Grounded(Next(o, w, Submit(i)))
  {
    if i < |w.committed| {
      assert w.committed[i] in w.committed;
      assert forall e | e in w.committed[..i] + w.committed[i + 1..] :: e in w.committed;
    }
  }

  lemma {:induction false} TakeGrounded(o: Options, w: World, i: nat)
    requires Grounded(w)
    ensures Grounded(Next(o, w, Take(i)))
  {
    if i < |w.workers| && w.workers[i].Idle? && w.queue != [] { assert w.queue[0] in w.queue; }
  }

  lemma {:induction false} GroundedNext(o: Options, w: World, step: Step)
    requires Grounded(w)
    ensures Grounded(Next(o, w, step))
  {
    match step
    case Commit(site, tick, warnDays) => CommitGrounded(o, w, site, tick, warnDays);
    case Work(i, act) => if i < |w.workers| && w.workers[i].Busy? { WorkGrounded(o, w, i, act); }
    case Submit(i) => SubmitGrounded(o, w, i);
    case Take(i) => TakeGrounded(o, w, i);
    case _ =>
  }

  lemma {:induction false} GroundedExec(o: Options, w: World, steps: seq<Step>)
    requires Grounded(w)
    ensures Grounded(Exec(o, w, steps))
    decreases |steps|
  {
    if steps != [] {
      GroundedNext(o, w, steps[0]);
      GroundedExec(o, Next(o, w, steps[0]), steps[1..]);
    }
  }

  /** Rows name incidents of the site that were opened, or have NULL there; RECOVERED rows name incidents that were resolved. */
  lemma {:induction false} RowsNameIncidents(o: Options, cfg: Config, steps: seq<Step>, k: nat)
    requires k < |Exec(o, Start(o, cfg), steps).ledger|
    ensures var w := Exec(o, Start(o, cfg), steps);
      var c := w.ledger[k].claim;
      var incidents := StoreOf(w.stores, c.site).incidents;
      && (c.incidentId.Some? ==> 1 <= c.incidentId.value <= |incidents|)
      && (c.kind == SiteRecovered ==>
            c.incidentId.Some? && incidents[c.incidentId.value - 1].resolvedAt.Some?)
  {
    GroundedExec(o, Start(o, cfg), steps);
  }

  // --- thresholds of 2 or more ---

  predicate LateRule(r: Rule, c: int) { r.kind == SiteDown && r.enabled && r.channelId == c ==> Confirm(r) >= 2 }

  predicate LateConfig(cfg: Config, c: int) { forall r | r in cfg.rules :: LateRule(r, c) }

  /** Rules a worker has already read count too. */
  predicate LateWorker(b: Worker, c: int) {
    b.Busy? && b.at != NextKind ==>
      && (forall r | r in b.rules :: r.kind == b.kind && r.enabled && LateRule(r, c))
      && (b.at.HaveChannel? ==> b.at.rule.kind == b.kind && b.at.rule.enabled && LateRule(b.at.rule, c))
      && (b.at.HaveKey? && b.at.rule.channelId == c ==>
            b.kind != SiteRecovered && (b.kind == SiteDown ==> b.event.tr.incidentId == 0))
  }

  predicate LateRow(r: Claim, c: int) {
    r.channelId == c ==> r.kind != SiteRecovered && (r.kind == SiteDown ==> r.incidentId.GetOr(0) == 0)
  }

  ghost predicate Late(w: World, c: int) {
    && LateConfig(w.cfg, c)
    && (forall b | b in w.workers :: LateWorker(b, c))
    && (forall k | 0 <= k < |w.ledger| :: LateRow(w.ledger[k].claim, c))
  }

  predicate LateStep(step: Step, c: int) { step.Edit? ==> LateConfig(step.cfg, c) }

  /** Such a channel has been told of no outage by its number. */
  lemma {:induction false} NoneAnnounced(o: Options, w: World, c: int, site: string, number: int)
    requires Safe(o, w) && Late(w, c) && number != 0
    ensures !Claimed(Claims(w.ledger), DedupeKey(SiteDown, site, number, c))
  {
    if Claimed(Claims(w.ledger), DedupeKey(SiteDown, site, number, c)) { ClaimedIsAnnounced(w.ledger, site, number, c); }
  }

  lemma {:induction false} EvaluateLate(o: Options, w: World, b: Worker, act: Act, c: int)
    requires b.Busy? && b.at.HaveChannel? && WorkerOk(w.stores, b) && LateWorker(b, c)
    requires b.at.rule.channelId == c && b.event.tr.incidentId != 0 ==> !Claimed(Claims(w.ledger), DownKey(b.event, b.at.rule))
    ensures LateWorker(Moved(o, w, b, act), c)
  {
  }

  lemma {:induction false} MovedLate(o: Options, w: World, b: Worker, act: Act, c: int)
    requires Safe(o, w) && Late(w, c) && b.Busy? && WorkerOk(w.stores, b) && LateWorker(b, c)
    ensures LateWorker(Moved(o, w, b, act), c)
  {
    match b.at
    case NextKind =>
    case NextRule =>
    case HaveChannel(_) =>
      if b.event.tr.incidentId != 0 { NoneAnnounced(o, w, c, b.event.site, b.event.tr.incidentId); }
      EvaluateLate(o, w, b, act, c);
    case _ =>
  }

  lemma {:induction false} LedgerLate(w: World, b: Worker, act: Act, c: int)
    requires Late(w, c) && b.Busy? && LateWorker(b, c)
    ensures forall k | 0 <= k < |LedgerAfter(w, b, act)| :: LateRow(LedgerAfter(w, b, act)[k].claim, c)
  {
    var l' := LedgerAfter(w, b, act);
    if !Inserts(w, b, act) {
      assert Claims(l') == Claims(w.ledger);
      assert forall k | 0 <= k < |l'| :: l'[k].claim == w.ledger[k].claim;
    }
  }

  lemma {:induction false} LateNext(o: Options, w: World, step: Step, c: int)
    requires Safe(o, w) && Grounded(w) && Late(w, c) && LateStep(step, c)
    ensures Late(Next(o, w, step), c)
  {
    match step
    case Work(i, act) =>
      if i < |w.workers| && w.workers[i].Busy? {
        var b := w.workers[i];
        assert b in w.workers;
        MovedLate(o, w, b, act, c);
        LedgerLate(w, b, act, c);
      }
    case _ =>
  }

  lemma {:induction false} LateExec(o: Options, w: World, steps: seq<Step>, c: int)
    requires Safe(o, w) && Grounded(w) && Late(w, c) && forall s | s in steps :: LateStep(s, c)
    ensures Late(Exec(o, w, steps), c)
    decreases |steps|
  {
    if steps != [] {
      LateNext(o, w, steps[0], c);
      SafeNext(o, w, steps[0]);
      GroundedNext(o, w, steps[0]);
      LateExec(o, Next(o, w, steps[0]), steps[1..], c);
    }
  }

  /**
   * As long as every configuration in force gives a channel no enabled down rule with threshold 1:
   * however workers, crashes and edits interleave, the channel has at most one DOWN row per site, ever, and no RECOVERED row.
   */
  lemma {:induction false} LateChannelToldOnce(o: Options, cfg: Config, steps: seq<Step>, c: int)
    requires LateConfig(cfg, c) && forall s | s in steps :: LateStep(s, c)
    ensures var ledger := Exec(o, Start(o, cfg), steps).ledger;
      && (forall i | 0 <= i < |ledger| && ledger[i].claim.channelId == c :: ledger[i].claim.kind != SiteRecovered)
      && (forall i, j | 0 <= i < j < |ledger| && ledger[i].claim.channelId == c && ledger[j].claim.channelId == c
                      && ledger[i].claim.kind == SiteDown && ledger[j].claim.kind == SiteDown ::
            ledger[i].claim.site != ledger[j].claim.site)
  {
    var w0 := Start(o, cfg);
    StartSafe(o, cfg);
    SafeExec(o, w0, steps);
    LateExec(o, w0, steps, c);
    var ledger := Exec(o, w0, steps).ledger;
    var claims := Claims(ledger);
    forall i, j | 0 <= i < j < |ledger| && ledger[i].claim.channelId == c && ledger[j].claim.channelId == c
                && ledger[i].claim.kind == SiteDown && ledger[j].claim.kind == SiteDown
      ensures ledger[i].claim.site != ledger[j].claim.site
    {
      assert claims[i] in claims && claims[j] in claims && claims[i].key != claims[j].key;
    }
  }
}
