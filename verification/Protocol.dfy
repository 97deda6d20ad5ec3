/**
 * Ticks, the bounded queue, the workers, admins, shutdown and crashes, interleaved in every way.
 * Each SQL statement or transaction is one step. A step that is not possible changes nothing.
 */
module Protocol {
  import opened Wrappers
  import opened Keys
  import opened Incidents
  import opened Alerting
  import opened Ledger

  datatype Options = Options(capacity: nat, workers: nat, retries: nat)

  /** Where a worker is inside one event. */
  datatype Stage =
    | NextKind
    | NextRule
    | HaveChannel(rule: Rule)
    | HaveKey(rule: Rule, key: string)
    | Sending(id: int, attempt: nat)
    | Waiting(id: int, attempt: nat, lastErr: string)
    | Marking(id: int, error: Option<string>, attempts: nat)

  datatype Worker =
    | Idle
    | Exited
    | Busy(event: Event, kinds: seq<Kind>, kind: Kind, rules: seq<Rule>, at: Stage)

  /** Which worker, of which process lifetime, inserted a row. */
  datatype Owner = Owner(epoch: nat, worker: nat)

  /**
   * Stores, config and ledger survive a crash; the rest is lost.
   * `owners` and `sends` are history: who claimed each row, and what its sends answered.
   */
  datatype World = World(
    stores: map<string, SiteDb>, cfg: Config, ledger: seq<Delivery>,
    owners: seq<Owner>, sends: seq<seq<Option<string>>>, epoch: nat,
    committed: seq<Event>, queue: seq<Event>, workers: seq<Worker>, closed: bool,
    submitted: nat, dropped: nat, finished: nat)

  /** What a worker does next; `failed` is a database error, `cut` a backoff interrupted by shutdown. */
  datatype Act =
    | PickKind(failed: bool) | Finish | PickRule(failed: bool) | EndRules
    | Evaluate(now: int, failed: bool) | InsertRow(failed: bool)
    | Send(error: Option<string>) | Backoff(cut: bool) | Mark(failed: bool) | Panic

  datatype Step =
    | Commit(site: string, tick: Tick, warnDays: int)
    | Submit(i: nat)
    | Take(w: nat)
    | Exit(w: nat)
    | Work(w: nat, act: Act)
    | Edit(cfg: Config)
    | Close
    | Crash

  function Start(o: Options, cfg: Config): World {
    World(map[], cfg, [], [], [], 0, [], [], seq(o.workers, _ => Idle), false, 0, 0, 0)
  }

  function StoreOf(stores: map<string, SiteDb>, site: string): SiteDb {
    if site in stores then stores[site] else FRESH
  }

  // --- one step ---

  /** Where the act leaves the worker. */
  function Moved(o: Options, w: World, b: Worker, act: Act): Worker
    requires b.Busy?
  {
    match (b.at, act)
    case (_, Panic) => Idle
    case (NextKind, PickKind(failed)) =>
      if b.kinds == [] then b
      else if failed then b.(kinds := b.kinds[1..])
      else b.(kinds := b.kinds[1..], kind := b.kinds[0], rules := RulesFor(w.cfg, b.event.site, b.kinds[0]), at := NextRule)
    case (NextKind, Finish) => if b.kinds == [] then Idle else b
    case (NextRule, PickRule(failed)) =>
      if b.rules == [] then b
      else if failed || b.rules[0].channelId !in w.cfg.channels then b.(rules := b.rules[1..])
      else b.(rules := b.rules[1..], at := HaveChannel(b.rules[0]))
    case (NextRule, EndRules) => if b.rules == [] then b.(at := NextKind) else b
    case (HaveChannel(rule), Evaluate(now, failed)) =>
      var announced := Claimed(Claims(w.ledger), DownKey(b.event, rule));
      var key := Render(b.event, b.kind, rule, now, announced);
      if key.None? || (failed && b.kind == SiteRecovered) then b.(at := NextRule)
      else b.(at := HaveKey(rule, key.value))
    case (HaveKey(rule, key), InsertRow(failed)) =>
      if failed || Claimed(Claims(w.ledger), key) then b.(at := NextRule)
      else b.(at := Sending(|w.ledger| + 1, 1))
    case (Sending(id, attempt), Send(error)) =>
      if error.None? then b.(at := Marking(id, None, attempt))
      else if attempt <= o.retries then b.(at := Waiting(id, attempt, error.value))
      else b.(at := Marking(id, error, o.retries + 1))
    case (Waiting(id, attempt, lastErr), Backoff(cut)) =>
      if cut && w.closed then b.(at := Marking(id, Some(lastErr), o.retries + 1))
      else b.(at := Sending(id, attempt + 1))
    case (Marking(_, _, _), Mark(_)) => b.(at := NextRule)
    case _ => b
  }

  /** The act inserts a row. */
  predicate Inserts(w: World, b: Worker, act: Act)
    requires b.Busy?
  {
    b.at.HaveKey? && act == InsertRow(false) && !Claimed(Claims(w.ledger), b.at.key)
  }

  predicate Marks(b: Worker, act: Act)
    requires b.Busy?
  {
    b.at.Marking? && act == Mark(false)
  }

  function LedgerAfter(w: World, b: Worker, act: Act): seq<Delivery>
    requires b.Busy?
  {
    if Inserts(w, b, act) then w.ledger + [NewRow(ClaimOf(b.event, b.kind, b.at.rule, b.at.key))]
    else if Marks(b, act) then
      if b.at.error.None? then MarkedSent(w.ledger, b.at.id, b.at.attempts)
      else MarkedFailed(w.ledger, b.at.id, b.at.attempts, b.at.error.value)
    else w.ledger
  }

  function SendsAfter(w: World, b: Worker, act: Act): seq<seq<Option<string>>>
    requires b.Busy?
  {
    if Inserts(w, b, act) then w.sends + [[]]
    else if b.at.Sending? && act.Send? && 1 <= b.at.id <= |w.sends|
    then w.sends[b.at.id - 1 := w.sends[b.at.id - 1] + [act.error]]
    else w.sends
  }

  function Worked(o: Options, w: World, i: nat, act: Act): World
    requires i < |w.workers| && w.workers[i].Busy?
  {
    var b := w.workers[i];
    var b' := Moved(o, w, b, act);
    w.(workers := w.workers[i := b'],
       ledger := LedgerAfter(w, b, act),
       sends := SendsAfter(w, b, act),
       owners := if Inserts(w, b, act) then w.owners + [Owner(w.epoch, i)] else w.owners,
       finished := if b'.Idle? then w.finished + 1 else w.finished)
  }

  function Next(o: Options, w: World, step: Step): World {
    match step
    case Commit(site, tick, warnDays) =>
      var (db, tr) := Recorded(StoreOf(w.stores, site), tick);
      w.(stores := w.stores[site := db], committed := w.committed + [Event(site, warnDays, tr)])
    case Submit(i) =>
      if i >= |w.committed| then w
      else
        var e := w.committed[i];
        var w' := w.(committed := w.committed[..i] + w.committed[i + 1..]);
        // Sending on a closed channel panics; the tick recovers and the event is gone.
        if w.closed then w'
        else if |w.queue| < o.capacity then w'.(queue := w.queue + [e], submitted := w.submitted + 1)
        else w'.(dropped := w.dropped + 1, submitted := w.submitted + 1)
    case Take(i) =>
      if i >= |w.workers| || !w.workers[i].Idle? || w.queue == [] then w
      else w.(queue := w.queue[1..],
              workers := w.workers[i := Busy(w.queue[0], KindsFor(w.queue[0].tr), SiteDown, [], NextKind)])
    case Exit(i) =>
      if i >= |w.workers| || !w.workers[i].Idle? || w.queue != [] || !w.closed then w
      else w.(workers := w.workers[i := Exited])
    case Work(i, act) =>
      if i >= |w.workers| || !w.workers[i].Busy? then w else Worked(o, w, i, act)
    case Edit(cfg) => w.(cfg := cfg)
    case Close => w.(closed := true)
    case Crash =>
      w.(epoch := w.epoch + 1, committed := [], queue := [], workers := seq(o.workers, _ => Idle),
         closed := false, submitted := 0, dropped := 0, finished := 0)
  }

  /** The world after a sequence of steps. */
  function Exec(o: Options, w: World, steps: seq<Step>): World
    decreases |steps|
  {
    if steps == [] then w else Exec(o, Next(o, w, steps[0]), steps[1..])
  }

  lemma {:induction false} ExecAppend(o: Options, w: World, a: seq<Step>, b: seq<Step>)
    ensures Exec(o, w, a + b) == Exec(o, Exec(o, w, a), b)
    decreases |a|
  {
    if a == [] {
      assert a + b == b;
    } else {
      assert (a + b)[0] == a[0] && (a + b)[1..] == a[1..] + b;
      ExecAppend(o, Next(o, w, a[0]), a[1..], b);
    }
  }

  // --- conservation of events ---

  function BusyCount(ws: seq<Worker>): (n: nat) {
    if ws == [] then 0 else BusyCount(ws[..|ws| - 1]) + if ws[|ws| - 1].Busy? then 1 else 0
  }

  lemma {:induction false} BusyCountUpdate(ws: seq<Worker>, i: nat, b: Worker)
    requires i < |ws|
    ensures BusyCount(ws[i := b]) == BusyCount(ws) - (if ws[i].Busy? then 1 else 0) + (if b.Busy? then 1 else 0)
  {
    var n := |ws| - 1;
    if i == n {
      assert ws[i := b][..n] == ws[..n];
    } else {
      assert ws[i := b][..n] == ws[..n][i := b];
      BusyCountUpdate(ws[..n], i, b);
    }
  }

  lemma {:induction false} NoneBusy(ws: seq<Worker>)
    requires forall i | 0 <= i < |ws| :: !ws[i].Busy?
    ensures BusyCount(ws) == 0
  {
    if ws != [] { NoneBusy(ws[..|ws| - 1]); }
  }

  ghost predicate Conserved(o: Options, w: World) {
    && w.submitted == w.dropped + |w.queue| + BusyCount(w.workers) + w.finished
    && |w.queue| <= o.capacity
    && |w.workers| == o.workers
    && forall i | 0 <= i < |w.workers| :: w.workers[i].Exited? ==> w.closed && w.queue == []
  }

  lemma {:induction false} MovedBusyOrIdle(o: Options, w: World, b: Worker, act: Act)
    requires b.Busy?
    ensures !Moved(o, w, b, act).Exited?
    ensures Moved(o, w, b, act).Busy? ==> Moved(o, w, b, act).event == b.event
  {
  }

  lemma {:induction false} WorkConserved(o: Options, w: World, i: nat, act: Act)
    requires Conserved(o, w) && i < |w.workers| && w.workers[i].Busy?
    ensures Conserved(o, Worked(o, w, i, act))
  {
    MovedBusyOrIdle(o, w, w.workers[i], act);
    BusyCountUpdate(w.workers, i, Moved(o, w, w.workers[i], act));
  }

  lemma {:induction false} ConservedNext(o: Options, w: World, step: Step)
    requires Conserved(o, w)
    ensures Conserved(o, Next(o, w, step))
  {
    match step
    case Commit(_, _, _) =>
    case Submit(i) =>
    case Take(i) =>
      if i < |w.workers| && w.workers[i].Idle? && w.queue != [] {
        BusyCountUpdate(w.workers, i, Next(o, w, step).workers[i]);
      }
    case Exit(i) =>
      if i < |w.workers| && w.workers[i].Idle? { BusyCountUpdate(w.workers, i, Exited); }
    case Work(i, act) =>
      if i < |w.workers| && w.workers[i].Busy? { WorkConserved(o, w, i, act); }
    case Edit(_) =>
    case Close =>
    case Crash => NoneBusy(Next(o, w, step).workers);
  }

  /** At every step of every run: submitted = dropped + queued + in progress + finished, and the queue fits. */
  lemma {:induction false} EventsConserved(o: Options, w: World, steps: seq<Step>)
    requires Conserved(o, w)
    ensures Conserved(o, Exec(o, w, steps))
    decreases |steps|
  {
    if steps != [] {
      ConservedNext(o, w, steps[0]);
      EventsConserved(o, Next(o, w, steps[0]), steps[1..]);
    }
  }

  /** In particular from the start of the program, and of every later process lifetime. */
  lemma {:induction false} EventsConservedFromStart(o: Options, cfg: Config, steps: seq<Step>)
    ensures var w := Exec(o, Start(o, cfg), steps);
      w.submitted == w.dropped + |w.queue| + BusyCount(w.workers) + w.finished && |w.queue| <= o.capacity
  {
    NoneBusy(Start(o, cfg).workers);
    EventsConserved(o, Start(o, cfg), steps);
  }

  /** When Shutdown returns, every worker having exited, nothing is queued or in progress. */
  lemma {:induction false} ShutdownDrains(o: Options, cfg: Config, steps: seq<Step>)
    requires o.workers > 0
    ensures var w := Exec(o, Start(o, cfg), steps);
      (forall i | 0 <= i < |w.workers| :: w.workers[i].Exited?) ==> w.closed && w.queue == [] && w.submitted == w.dropped + w.finished
  {
    NoneBusy(Start(o, cfg).workers);
    EventsConserved(o, Start(o, cfg), steps);
    var w := Exec(o, Start(o, cfg), steps);
    if forall i | 0 <= i < |w.workers| :: w.workers[i].Exited? {
      assert w.workers[0].Exited?;
      NoneBusy(w.workers);
    }
  }
}
