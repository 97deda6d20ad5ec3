/** What the ledger keeps under every interleaving, database error, shutdown and crash. */
module Safety {
  import opened Wrappers
  import opened Keys
  import opened Alerting
  import opened Ledger
  import opened Promise
  import opened Protocol

  // --- the invariant ---

  /** One of the first n rows announced this outage to this channel. */
  ghost predicate AnnouncedBefore(ledger: seq<Delivery>, n: int, site: string, number: int, c: int) {
    exists j | 0 <= j < n && j < |ledger| ::
      IsRow(ledger[j].claim, SiteDown, site, c) && ledger[j].claim.incidentId.GetOr(0) == number
  }

  /** Every send but possibly the last one failed. */
  predicate FailsBeforeLast(log: seq<Option<string>>) { forall k | 0 <= k < |log| - 1 :: log[k].Some? }

  predicate AllFail(log: seq<Option<string>>) { forall k | 0 <= k < |log| :: log[k].Some? }

  /** A row's status, attempt count and error against what its sends answered. */
  predicate RowLog(retries: nat, row: Delivery, log: seq<Option<string>>) {
    && FailsBeforeLast(log) && |log| <= retries + 1
    && match row.status
       case Pending => row.attempts == 0 && row.error == None
       case Sent => 1 <= |log| == row.attempts && log[|log| - 1].None? && row.error == None
       case Failed => 1 <= |log| && AllFail(log) && row.attempts == retries + 1 && row.error == log[|log| - 1]
  }

  predicate Holds(b: Worker, id: int) {
    b.Busy? && match b.at
      case Sending(x, _) => x == id
      case Waiting(x, _, _) => x == id
      case Marking(x, _, _) => x == id
      case _ => false
  }

  /** How far a worker's sends for its row have come. */
  predicate StageLog(retries: nat, at: Stage, log: seq<Option<string>>) {
    match at
    case Sending(_, attempt) => |log| == attempt - 1 <= retries && AllFail(log)
    case Waiting(_, attempt, lastErr) => 1 <= |log| == attempt <= retries && AllFail(log) && log[|log| - 1] == Some(lastErr)
    case Marking(_, error, attempts) =>
      && 1 <= |log| <= retries + 1 && FailsBeforeLast(log)
      && log[|log| - 1] == error
      && (if error.None? then attempts == |log| else AllFail(log) && attempts == retries + 1)
    case _ => true
  }

  ghost predicate WorkerSafe(retries: nat, ledger: seq<Delivery>, owners: seq<Owner>, sends: seq<seq<Option<string>>>,
                             me: Owner, b: Worker)
    requires |owners| == |sends| == |ledger|
  {
    b.Busy? ==>
      && (b.at.HaveKey? ==>
            && b.at.key == DedupeKey(b.kind, b.event.site, KeyNumber(b.event, b.kind), b.at.rule.channelId)
            && (b.kind == SiteRecovered ==>
                  AnnouncedBefore(ledger, |ledger|, b.event.site, b.event.tr.incidentId, b.at.rule.channelId)))
      && forall id | Holds(b, id) ::
           && 1 <= id <= |ledger|
           && owners[id - 1] == me
           && ledger[id - 1].status == Pending
           && StageLog(retries, b.at, sends[id - 1])
  }

  ghost predicate RecoveriesAnnounced(ledger: seq<Delivery>) {
    forall i | 0 <= i < |ledger| :: ledger[i].claim.kind == SiteRecovered ==>
      AnnouncedBefore(ledger, i, ledger[i].claim.site, ledger[i].claim.incidentId.GetOr(0), ledger[i].claim.channelId)
  }

  ghost predicate LedgerSafe(retries: nat, ledger: seq<Delivery>, owners: seq<Owner>, sends: seq<seq<Option<string>>>, epoch: nat) {
    && |owners| == |sends| == |ledger|
    && Sound(Claims(ledger))
    && RecoveriesAnnounced(ledger)
    && (forall i | 0 <= i < |ledger| :: RowLog(retries, ledger[i], sends[i]))
    && (forall i | 0 <= i < |owners| :: owners[i].epoch <= epoch)
  }

  ghost predicate Safe(o: Options, w: World) {
    && LedgerSafe(o.retries, w.ledger, w.owners, w.sends, w.epoch)
    && forall i | 0 <= i < |w.workers| ::
         WorkerSafe(o.retries, w.ledger, w.owners, w.sends, Owner(w.epoch, i), w.workers[i])
  }

  // --- acts that write ---

  lemma {:induction false} AnnouncedGrows(l: seq<Delivery>, l': seq<Delivery>, n: int, n': int, site: string, number: int, c: int)
    requires Evolves(l, l') && AnnouncedBefore(l, n, site, number, c) && n <= n'
    ensures AnnouncedBefore(l', n', site, number, c)
  {
    var j :| 0 <= j < n && j < |l| && IsRow(l[j].claim, SiteDown, site, c) && l[j].claim.incidentId.GetOr(0) == number;
    assert l'[j].claim == l[j].claim;
  }

  /** A claimed down key is an announcement row. */
  lemma {:induction false} ClaimedIsAnnounced(ledger: seq<Delivery>, site: string, number: int, c: int)
    requires Sound(Claims(ledger)) && Claimed(Claims(ledger), DedupeKey(SiteDown, site, number, c))
    ensures AnnouncedBefore(ledger, |ledger|, site, number, c)
  {
    var claims := Claims(ledger);
    NumbersAreKeys(claims, SiteDown, site, number, c);
    var r :| r in Rows(claims, SiteDown, site, c) && r.incidentId.GetOr(0) == number;
    var j :| 0 <= j < |claims| && claims[j] == r;
    assert ledger[j].claim == r;
  }

  lemma {:induction false} RecoveriesKept(l: seq<Delivery>, l': seq<Delivery>)
    requires Evolves(l, l') && RecoveriesAnnounced(l)
    requires forall k | |l| <= k < |l'| && l'[k].claim.kind == SiteRecovered ::
      AnnouncedBefore(l', k, l'[k].claim.site, l'[k].claim.incidentId.GetOr(0), l'[k].claim.channelId)
    ensures RecoveriesAnnounced(l')
  {
    forall k | 0 <= k < |l| && l'[k].claim.kind == SiteRecovered
      ensures AnnouncedBefore(l', k, l'[k].claim.site, l'[k].claim.incidentId.GetOr(0), l'[k].claim.channelId)
    {
      AnnouncedGrows(l, l', k, k, l[k].claim.site, l[k].claim.incidentId.GetOr(0), l[k].claim.channelId);
    }
  }

  /** A new row that keeps the keys sound, and announced if it is a recovery, keeps the ledger safe. */
  lemma {:induction false} NewRowSafe(retries: nat, l: seq<Delivery>, owners: seq<Owner>, sends: seq<seq<Option<string>>>, epoch: nat, row: Claim, me: Owner)
    requires LedgerSafe(retries, l, owners, sends, epoch) && me.epoch <= epoch && Sound(Claims(l) + [row])
    requires row.kind == SiteRecovered ==> AnnouncedBefore(l, |l|, row.site, row.incidentId.GetOr(0), row.channelId)
    ensures LedgerSafe(retries, l + [NewRow(row)], owners + [me], sends + [[]], epoch)
    ensures Evolves(l, l + [NewRow(row)])
  {
    var l' := l + [NewRow(row)];
    assert Claims(l') == Claims(l) + [row];
    if row.kind == SiteRecovered { AnnouncedGrows(l, l', |l|, |l|, row.site, row.incidentId.GetOr(0), row.channelId); }
    RecoveriesKept(l, l');
  }

  /** Inserting a row keyed as it should be keeps the ledger safe. */
  lemma {:induction false} InsertSafe(o: Options, w: World, i: nat)
    requires Safe(o, w) && i < |w.workers| && w.workers[i].Busy? && Inserts(w, w.workers[i], InsertRow(false))
    ensures var w' := Worked(o, w, i, InsertRow(false)); LedgerSafe(o.retries, w'.ledger, w'.owners, w'.sends, w'.epoch)
    ensures Evolves(w.ledger, Worked(o, w, i, InsertRow(false)).ledger)
  {
    var b := w.workers[i];
    var row := ClaimOf(b.event, b.kind, b.at.rule, b.at.key);
    InsertSound(Claims(w.ledger), row, KeyNumber(b.event, b.kind));
    NewRowSafe(o.retries, w.ledger, w.owners, w.sends, w.epoch, row, Owner(w.epoch, i));
  }

  lemma {:induction false} InsertSound(claims: seq<Claim>, row: Claim, number: int)
    requires Sound(claims) && !Claimed(claims, row.key)
    requires row.key == DedupeKey(row.kind, row.site, number, row.channelId)
    requires row.kind != SslExpiring ==> number == row.incidentId.GetOr(0)
    ensures Sound(claims + [row])
  {
    assert Insert(claims, row) == claims + [row];
  }

  /** One more answer, and what a pending row says of it: nothing yet. */
  lemma {:induction false} RowSends(retries: nat, at: Stage, error: Option<string>, log: seq<Option<string>>, row: Delivery)
    requires at.Sending? && StageLog(retries, at, log) && row.status == Pending && RowLog(retries, row, log)
    ensures RowLog(retries, row, log + [error])
  {
  }

  /** One more answer, and the stage it leads to. */
  lemma {:induction false} SendStage(o: Options, w: World, b: Worker, error: Option<string>, log: seq<Option<string>>)
    requires b.Busy? && b.at.Sending? && StageLog(o.retries, b.at, log)
    ensures Moved(o, w, b, Send(error)).Busy? && StageLog(o.retries, Moved(o, w, b, Send(error)).at, log + [error])
  {
  }

  /** A longer log for one row, as that row still tells the truth, keeps the ledger safe. */
  lemma {:induction false} LogSafe(retries: nat, ledger: seq<Delivery>, owners: seq<Owner>, sends: seq<seq<Option<string>>>, epoch: nat, k: nat, log: seq<Option<string>>)
    requires LedgerSafe(retries, ledger, owners, sends, epoch) && k < |sends| && RowLog(retries, ledger[k], log)
    ensures LedgerSafe(retries, ledger, owners, sends[k := log], epoch)
  {
  }

  lemma {:induction false} SendFields(o: Options, w: World, i: nat, error: Option<string>)
    requires i < |w.workers| && w.workers[i].Busy? && w.workers[i].at.Sending? && 1 <= w.workers[i].at.id <= |w.sends|
    ensures var w', k := Worked(o, w, i, Send(error)), w.workers[i].at.id - 1;
      && w'.ledger == w.ledger && w'.owners == w.owners && w'.epoch == w.epoch
      && w'.workers[i] == Moved(o, w, w.workers[i], Send(error))
      && w'.sends == w.sends[k := w.sends[k] + [error]]
  {
  }

  /** The row a sending worker holds. */
  lemma {:induction false} HeldRow(o: Options, w: World, i: nat)
    requires Safe(o, w) && i < |w.workers| && w.workers[i].Busy? && w.workers[i].at.Sending?
    ensures var b, k := w.workers[i], w.workers[i].at.id - 1;
      && 0 <= k < |w.ledger| == |w.sends| == |w.owners|
      && w.ledger[k].status == Pending && StageLog(o.retries, b.at, w.sends[k]) && RowLog(o.retries, w.ledger[k], w.sends[k])
  {
    assert WorkerSafe(o.retries, w.ledger, w.owners, w.sends, Owner(w.epoch, i), w.workers[i]);
    assert Holds(w.workers[i], w.workers[i].at.id);
  }

  /** A send extends only the log of the row its worker holds, which still tells the truth. */
  lemma {:induction false} SendSafe(o: Options, w: World, i: nat, error: Option<string>)
    requires Safe(o, w) && i < |w.workers| && w.workers[i].Busy? && w.workers[i].at.Sending?
    ensures var id := w.workers[i].at.id;
      && 1 <= id <= |w.ledger| == |w.sends| == |w.owners|
      && LedgerSafe(o.retries, w.ledger, w.owners, w.sends[id - 1 := w.sends[id - 1] + [error]], w.epoch)
  {
    HeldRow(o, w, i);
    var k := w.workers[i].at.id - 1;
    RowSends(o.retries, w.workers[i].at, error, w.sends[k], w.ledger[k]);
    LogSafe(o.retries, w.ledger, w.owners, w.sends, w.epoch, k, w.sends[k] + [error]);
  }

  /** The row as a mark leaves it. */
  function MarkedRow(row: Delivery, at: Stage): Delivery
    requires at.Marking?
  {
    if at.error.None? then row.(status := Sent, attempts := at.attempts, error := None)
    else row.(status := Failed, attempts := at.attempts, error := at.error)
  }

  lemma {:induction false} MarkStage(retries: nat, at: Stage, row: Delivery, log: seq<Option<string>>)
    requires at.Marking? && StageLog(retries, at, log)
    ensures RowLog(retries, MarkedRow(row, at), log)
  {
  }

  lemma {:induction false} MarkedLedger(w: World, b: Worker)
    requires b.Busy? && b.at.Marking? && 1 <= b.at.id <= |w.ledger| && w.ledger[b.at.id - 1].status == Pending
    ensures var l, l', n := w.ledger, LedgerAfter(w, b, Mark(false)), b.at.id - 1;
      l' == l[n := MarkedRow(l[n], b.at)] && Claims(l') == Claims(l) && Evolves(l, l')
  {
    var l, l', n := w.ledger, LedgerAfter(w, b, Mark(false)), b.at.id - 1;
    assert l' == l[n := MarkedRow(l[n], b.at)];
    assert Claims(l') == Claims(l);
  }

  /** One row changed, but not its claim, keeps the ledger safe if the row tells the truth. */
  lemma {:induction false} RowSafe(retries: nat, l: seq<Delivery>, owners: seq<Owner>, sends: seq<seq<Option<string>>>, epoch: nat, k: nat, row: Delivery)
    requires LedgerSafe(retries, l, owners, sends, epoch) && k < |l| && RowLog(retries, row, sends[k])
    requires var l' := l[k := row]; Claims(l') == Claims(l) && Evolves(l, l')
    ensures LedgerSafe(retries, l[k := row], owners, sends, epoch)
  {
    RecoveriesKept(l, l[k := row]);
  }

  lemma {:induction false} MarkSafe(o: Options, w: World, b: Worker, me: Owner)
    requires LedgerSafe(o.retries, w.ledger, w.owners, w.sends, w.epoch)
    requires b.Busy? && b.at.Marking? && WorkerSafe(o.retries, w.ledger, w.owners, w.sends, me, b)
    ensures var l' := LedgerAfter(w, b, Mark(false));
      && 1 <= b.at.id <= |w.ledger| == |l'|
      && LedgerSafe(o.retries, l', w.owners, w.sends, w.epoch)
      && Evolves(w.ledger, l')
      && forall k | 0 <= k < |w.ledger| && k != b.at.id - 1 :: l'[k] == w.ledger[k]
  {
    assert Holds(b, b.at.id);
    var l, k := w.ledger, b.at.id - 1;
    MarkedLedger(w, b);
    MarkStage(o.retries, b.at, l[k], w.sends[k]);
    RowSafe(o.retries, l, w.owners, w.sends, w.epoch, k, MarkedRow(l[k], b.at));
  }

  /** Any act keeps the ledger safe, and changes no row and no log but those its worker holds. */
  lemma {:induction false} WorkLedger(o: Options, w: World, i: nat, act: Act)
    requires Safe(o, w) && i < |w.workers| && w.workers[i].Busy?
    ensures var w' := Worked(o, w, i, act); LedgerSafe(o.retries, w'.ledger, w'.owners, w'.sends, w'.epoch)
    ensures var w' := Worked(o, w, i, act);
      && Evolves(w.ledger, w'.ledger)
      && w.owners <= w'.owners
      && forall k | 0 <= k < |w.ledger| && !Holds(w.workers[i], k + 1) :: w'.ledger[k] == w.ledger[k] && w'.sends[k] == w.sends[k]
  {
    var b := w.workers[i];
    if Inserts(w, b, act) {
      InsertSafe(o, w, i);
    } else if Marks(b, act) {
      MarkSafe(o, w, b, Owner(w.epoch, i));
    } else if b.at.Sending? && act.Send? {
      SendSafe(o, w, i, act.error);
      SendFields(o, w, i, act.error);
    }
  }

  /** Where evaluating a rule leads: on to the next one, or to a key as it should be. */
  lemma {:induction false} EvaluateKey(o: Options, w: World, b: Worker, act: Act)
    requires b.Busy? && b.at.HaveChannel?
    ensures var b' := Moved(o, w, b, act);
      b'.Busy? && b'.at.HaveKey? ==>
        && b' == b.(at := b'.at) && b'.at.rule == b.at.rule
        && b'.at.key == DedupeKey(b.kind, b.event.site, KeyNumber(b.event, b.kind), b.at.rule.channelId)
        && (b.kind == SiteRecovered ==> Claimed(Claims(w.ledger), DownKey(b.event, b.at.rule)))
    ensures forall id :: !Holds(Moved(o, w, b, act), id)
  {
  }

  lemma {:induction false} EvaluateSelf(o: Options, w: World, b: Worker, act: Act, me: Owner)
    requires LedgerSafe(o.retries, w.ledger, w.owners, w.sends, w.epoch) && b.Busy? && b.at.HaveChannel?
    ensures WorkerSafe(o.retries, w.ledger, w.owners, w.sends, me, Moved(o, w, b, act))
  {
    EvaluateKey(o, w, b, act);
    if Claimed(Claims(w.ledger), DownKey(b.event, b.at.rule)) {
      ClaimedIsAnnounced(w.ledger, b.event.site, b.event.tr.incidentId, b.at.rule.channelId);
    }
  }

  lemma {:induction false} InsertSelf(o: Options, w: World, i: nat, act: Act)
    requires Safe(o, w) && i < |w.workers| && w.workers[i].Busy? && w.workers[i].at.HaveKey?
    requires var w' := Worked(o, w, i, act); |w'.owners| == |w'.sends| == |w'.ledger|
    ensures var w' := Worked(o, w, i, act);
      WorkerSafe(o.retries, w'.ledger, w'.owners, w'.sends, Owner(w.epoch, i), w'.workers[i])
  {
  }

  lemma {:induction false} NoSendFields(o: Options, w: World, i: nat, act: Act)
    requires i < |w.workers| && w.workers[i].Busy? && w.workers[i].at.Sending? && !act.Send?
    ensures var w' := Worked(o, w, i, act);
      && w'.ledger == w.ledger && w'.owners == w.owners && w'.sends == w.sends
      && (w'.workers[i] == w.workers[i] || w'.workers[i] == Idle)
  {
  }

  /** After a send the worker still holds its row, and no other. */
  lemma {:induction false} StillHolds(o: Options, w: World, b: Worker, error: Option<string>, id: int)
    requires b.Busy? && b.at.Sending?
    ensures Holds(Moved(o, w, b, Send(error)), id) <==> id == b.at.id
    ensures Moved(o, w, b, Send(error)).Busy? && !Moved(o, w, b, Send(error)).at.HaveKey?
  {
  }

  lemma {:induction false} SendSelf(o: Options, w: World, i: nat, act: Act)
    requires Safe(o, w) && i < |w.workers| && w.workers[i].Busy? && w.workers[i].at.Sending?
    ensures var w' := Worked(o, w, i, act);
      && |w'.owners| == |w'.sends| == |w'.ledger|
      && WorkerSafe(o.retries, w'.ledger, w'.owners, w'.sends, Owner(w.epoch, i), w'.workers[i])
  {
    var b := w.workers[i];
    assert Holds(b, b.at.id);
    if act.Send? {
      HeldRow(o, w, i);
      SendStage(o, w, b, act.error, w.sends[b.at.id - 1]);
      SendFields(o, w, i, act.error);
      forall id ensures Holds(Moved(o, w, b, act), id) <==> id == b.at.id { StillHolds(o, w, b, act.error, id); }
      StillHolds(o, w, b, act.error, b.at.id);
    } else {
      NoSendFields(o, w, i, act);
    }
  }

  lemma {:induction false} WaitSelf(o: Options, w: World, b: Worker, act: Act, me: Owner)
    requires |w.owners| == |w.sends| == |w.ledger|
    requires WorkerSafe(o.retries, w.ledger, w.owners, w.sends, me, b) && b.Busy? && b.at.Waiting?
    ensures WorkerSafe(o.retries, w.ledger, w.owners, w.sends, me, Moved(o, w, b, act))
  {
    assert Holds(b, b.at.id);
    var b' := Moved(o, w, b, act);
    assert b'.Busy? ==> StageLog(o.retries, b'.at, w.sends[b.at.id - 1]);
  }

  /** The acting worker stays within its own row. */
  lemma {:induction false} WorkSelf(o: Options, w: World, i: nat, act: Act)
    requires Safe(o, w) && i < |w.workers| && w.workers[i].Busy?
    requires var w' := Worked(o, w, i, act); |w'.owners| == |w'.sends| == |w'.ledger|
    ensures var w' := Worked(o, w, i, act);
      WorkerSafe(o.retries, w'.ledger, w'.owners, w'.sends, Owner(w.epoch, i), w'.workers[i])
  {
    var b := w.workers[i];
    match b.at
    case NextKind =>
    case NextRule =>
    case HaveChannel(rule) => EvaluateSelf(o, w, b, act, Owner(w.epoch, i));
    case HaveKey(_, _) => InsertSelf(o, w, i, act);
    case Sending(_, _) => SendSelf(o, w, i, act);
    case Waiting(_, _, _) => WaitSelf(o, w, b, act, Owner(w.epoch, i));
    case Marking(_, _, _) =>
  }

  /** A worker is not disturbed by changes to rows it does not hold. */
  lemma {:induction false} OthersSafe(retries: nat, l: seq<Delivery>, os: seq<Owner>, ss: seq<seq<Option<string>>>,
                                      l': seq<Delivery>, os': seq<Owner>, ss': seq<seq<Option<string>>>, me: Owner, b: Worker)
    requires |os| == |ss| == |l| && |os'| == |ss'| == |l'|
    requires WorkerSafe(retries, l, os, ss, me, b)
    requires Evolves(l, l') && os <= os'
    requires forall k | 0 <= k < |l| && Holds(b, k + 1) :: l'[k] == l[k] && ss'[k] == ss[k]
    ensures WorkerSafe(retries, l', os', ss', me, b)
  {
    if b.Busy? {
      if b.at.HaveKey? && b.kind == SiteRecovered {
        AnnouncedGrows(l, l', |l|, |l'|, b.event.site, b.event.tr.incidentId, b.at.rule.channelId);
      }
      forall id | Holds(b, id)
        ensures 1 <= id <= |l'| && os'[id - 1] == me && l'[id - 1].status == Pending && StageLog(retries, b.at, ss'[id - 1])
      {
        assert 1 <= id <= |l|;
        var k := id - 1;
        assert Holds(b, k + 1);
      }
    }
  }

  lemma {:induction false} WorkSafe(o: Options, w: World, i: nat, act: Act)
    requires Safe(o, w) && i < |w.workers| && w.workers[i].Busy?
    ensures Safe(o, Worked(o, w, i, act))
    ensures Evolves(w.ledger, Worked(o, w, i, act).ledger) && w.owners <= Worked(o, w, i, act).owners
  {
    var w' := Worked(o, w, i, act);
    WorkLedger(o, w, i, act);
    WorkSelf(o, w, i, act);
    forall j | 0 <= j < |w.workers| && j != i
      ensures WorkerSafe(o.retries, w'.ledger, w'.owners, w'.sends, Owner(w.epoch, j), w'.workers[j])
    {
      var b := w.workers[j];
      forall k | 0 <= k < |w.ledger| && Holds(b, k + 1) ensures w'.ledger[k] == w.ledger[k] && w'.sends[k] == w.sends[k] {
        assert w.owners[k] == Owner(w.epoch, j);
        assert !Holds(w.workers[i], k + 1);
      }
      OthersSafe(o.retries, w.ledger, w.owners, w.sends, w'.ledger, w'.owners, w'.sends, Owner(w.epoch, j), b);
    }
  }

  // --- every step, every run ---

  lemma {:induction false} SafeNext(o: Options, w: World, step: Step)
    requires Safe(o, w)
    ensures Safe(o, Next(o, w, step))
    ensures Evolves(w.ledger, Next(o, w, step).ledger) && w.owners <= Next(o, w, step).owners
    ensures w.epoch <= Next(o, w, step).epoch
  {
    match step
    case Work(i, act) =>
      if i < |w.workers| && w.workers[i].Busy? { WorkSafe(o, w, i, act); }
    case Crash =>
    case _ => OnlyQueues(o, w, step);
  }

  /** Steps other than work and crashes touch neither ledger nor history, and give no worker a row. */
  lemma {:induction false} OnlyQueues(o: Options, w: World, step: Step)
    requires !step.Work? && !step.Crash?
    ensures var w' := Next(o, w, step);
      && w'.ledger == w.ledger && w'.owners == w.owners && w'.sends == w.sends && w'.epoch == w.epoch
      && |w'.workers| == |w.workers|
      && forall i | 0 <= i < |w.workers| ::
           w'.workers[i] == w.workers[i] || !w'.workers[i].Busy? || w'.workers[i].at == NextKind
  {
  }

  lemma {:induction false} SafeExec(o: Options, w: World, steps: seq<Step>)
    requires Safe(o, w)
    ensures Safe(o, Exec(o, w, steps))
    ensures Evolves(w.ledger, Exec(o, w, steps).ledger) && w.owners <= Exec(o, w, steps).owners
    ensures w.epoch <= Exec(o, w, steps).epoch
    decreases |steps|
  {
    if steps != [] {
      var w1 := Next(o, w, steps[0]);
      SafeNext(o, w, steps[0]);
      SafeExec(o, w1, steps[1..]);
      EvolvesTransitive(w.ledger, w1.ledger, Exec(o, w, steps).ledger);
    }
  }

  lemma {:induction false} StartSafe(o: Options, cfg: Config)
    ensures Safe(o, Start(o, cfg))
  {
  }

  // --- the main results ---

  /** Each dedupe key is claimed at most once, and every RECOVERED row has an earlier DOWN row for the same site, incident and channel. */
  lemma {:induction false} LedgerKeptSafe(o: Options, cfg: Config, steps: seq<Step>)
    ensures var ledger := Exec(o, Start(o, cfg), steps).ledger;
      && (forall i, j | 0 <= i < j < |ledger| :: ledger[i].claim.key != ledger[j].claim.key)
      && (forall i | 0 <= i < |ledger| && ledger[i].claim.kind == SiteRecovered ::
            exists j | 0 <= j < i ::
              && ledger[j].claim.kind == SiteDown
              && ledger[j].claim.site == ledger[i].claim.site
              && ledger[j].claim.channelId == ledger[i].claim.channelId
              && ledger[j].claim.incidentId.GetOr(0) == ledger[i].claim.incidentId.GetOr(0))
  {
    StartSafe(o, cfg);
    SafeExec(o, Start(o, cfg), steps);
    var ledger := Exec(o, Start(o, cfg), steps).ledger;
    forall i, j | 0 <= i < j < |ledger| ensures ledger[i].claim.key != ledger[j].claim.key {
      assert Claims(ledger)[i].key != Claims(ledger)[j].key;
    }
  }

  /** Over a whole run and any crashes in it, at most one worker ever holds the send job of a row. */
  lemma {:induction false} OneSender(o: Options, cfg: Config, steps: seq<Step>, more: seq<Step>, i: nat, j: nat, id: int)
    requires var w := Exec(o, Start(o, cfg), steps); i < |w.workers| && Holds(w.workers[i], id)
    requires var w' := Exec(o, Exec(o, Start(o, cfg), steps), more); j < |w'.workers| && Holds(w'.workers[j], id)
    ensures i == j && Exec(o, Start(o, cfg), steps).epoch == Exec(o, Exec(o, Start(o, cfg), steps), more).epoch
  {
    StartSafe(o, cfg);
    SafeExec(o, Start(o, cfg), steps);
    var w := Exec(o, Start(o, cfg), steps);
    SafeExec(o, w, more);
    var w' := Exec(o, w, more);
    assert w.owners[id - 1] == Owner(w.epoch, i);
    assert w'.owners[id - 1] == Owner(w'.epoch, j);
  }

  /**
   * Rows are never removed or rewritten, and leave pending at most once. A row is marked sent only if its last send
   * succeeded, with the exact number of sends; failed only if all failed, with the last error. No alert is ever sent after a success,
   * or more than retries + 1 times.
   */
  lemma {:induction false} RowsTellTheTruth(o: Options, cfg: Config, steps: seq<Step>, more: seq<Step>)
    ensures var w := Exec(o, Start(o, cfg), steps);
      && Evolves(w.ledger, Exec(o, w, more).ledger)
      && |w.sends| == |w.ledger|
      && forall i | 0 <= i < |w.ledger| :: RowLog(o.retries, w.ledger[i], w.sends[i])
  {
    StartSafe(o, cfg);
    SafeExec(o, Start(o, cfg), steps);
    SafeExec(o, Exec(o, Start(o, cfg), steps), more);
  }
}
