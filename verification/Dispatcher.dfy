/** The alert dispatcher with nothing else running: one event handled, one alert delivered with retries. */
module Dispatcher {
  import opened Wrappers
  import opened Keys
  import opened Alerting
  import opened Ledger
  import Exactness

  /** One call to the sender: the row it is for, the destination, and the error it returned. */
  datatype Mail = Mail(id: int, to: string, error: Option<string>)

  /** The ledger after events are handled one by one; the k-th is looked at when the clock reads clock(k). */
  function HandledAll(claims: seq<Claim>, cfg: Config, es: seq<Event>, clock: nat -> int, k: nat): seq<Claim>
    decreases |es|
  {
    if es == [] then claims
    else HandledAll(Handled(claims, cfg, es[0], clock(k)), cfg, es[1..], clock, k + 1)
  }

  lemma {:induction false} HandledAllHead(claims: seq<Claim>, cfg: Config, es: seq<Event>, clock: nat -> int, k: nat)
    requires es != []
    ensures HandledAll(claims, cfg, es, clock, k) == HandledAll(Handled(claims, cfg, es[0], clock(k)), cfg, es[1..], clock, k + 1)
  {
  }

  lemma {:induction false} HandledAllSnoc(claims: seq<Claim>, cfg: Config, es: seq<Event>, e: Event, clock: nat -> int, k: nat)
    ensures HandledAll(claims, cfg, es + [e], clock, k) == Handled(HandledAll(claims, cfg, es, clock, k), cfg, e, clock(k + |es|))
    decreases |es|
  {
    if es == [] {
      assert es + [e] == [e] && [e][1..] == [];
    } else {
      assert (es + [e])[1..] == es[1..] + [e];
      HandledAllSnoc(Handled(claims, cfg, es[0], clock(k)), cfg, es[1..], e, clock, k + 1);
    }
  }

  /** The events the ticks of a trace cause, in order. */
  function Events(trace: seq<Exactness.Step>): (es: seq<Event>)
    ensures |es| == |trace|
  {
    if trace == [] then [] else Events(trace[..|trace| - 1]) + [Exactness.LastEvent(trace, false)]
  }

  /** Draining the events of a trace into an empty ledger leaves exactly the ledger of that trace. */
  lemma {:induction false} DrainGivesLedger(cfg: Config, trace: seq<Exactness.Step>, clock: nat -> int)
    requires forall k | 0 <= k < |trace| :: clock(k) == trace[k].now
    ensures HandledAll([], cfg, Events(trace), clock, 0) == Exactness.LedgerOf(cfg, trace, false)
  {
    if trace != [] {
      var n := |trace| - 1;
      DrainGivesLedger(cfg, trace[..n], clock);
      HandledAllSnoc([], cfg, Events(trace[..n]), Exactness.LastEvent(trace, false), clock, 0);
    }
  }

  lemma {:induction false} AppliedRulesHead(claims: seq<Claim>, e: Event, kind: Kind, rules: seq<Rule>, j: nat, now: int)
    requires j < |rules|
    ensures AppliedRules(claims, e, kind, rules[j..], now) ==
      AppliedRules(AppliedRule(claims, e, kind, rules[j], now), e, kind, rules[j + 1..], now)
  {
    assert rules[j..][1..] == rules[j + 1..];
  }

  lemma {:induction false} ClaimedIffRow(ledger: seq<Delivery>, key: string)
    ensures Claimed(Claims(ledger), key) <==> exists i | 0 <= i < |ledger| :: ledger[i].claim.key == key
  {
    if Claimed(Claims(ledger), key) {
      var c :| c in Claims(ledger) && c.key == key;
      var i :| 0 <= i < |ledger| && Claims(ledger)[i] == c;
      assert ledger[i].claim.key == key;
    }
    if i :| 0 <= i < |ledger| && ledger[i].claim.key == key {
      assert Claims(ledger)[i] in Claims(ledger);
    }
  }

  /**
   * Calls b to e - 1 of the sender, all for row `id` and to its destination: all failed but possibly the last, and only the
   * last may have run into shutdown. The row says what they answered: sent, and after how many attempts, or failed, with the
   * last error and retries + 1 attempts however many were made.
   */
  ghost predicate Block(mail: seq<Mail>, answers: nat -> Option<string>, cuts: nat -> Option<nat>, retries: nat,
                        b: nat, e: nat, id: int, to: string, row: Delivery) {
    && b < e <= |mail| && e - b <= retries + 1
    && (forall k | b <= k < e :: mail[k] == Mail(id, to, answers(k)))
    && (forall k | b <= k < e - 1 :: answers(k).Some? && cuts(k).None?)
    && if answers(e - 1).None? then row.status == Sent && row.attempts == e - b && row.error == None
       else row.status == Failed && row.attempts == retries + 1 && row.error == answers(e - 1) && (e - b <= retries ==> cuts(e - 1).Some?)
  }

  lemma {:induction false} BlockStays(mail: seq<Mail>, mail': seq<Mail>, answers: nat -> Option<string>, cuts: nat -> Option<nat>,
                                      retries: nat, b: nat, e: nat, id: int, to: string, row: Delivery)
    requires Block(mail, answers, cuts, retries, b, e, id, to, row) && mail <= mail'
    ensures Block(mail', answers, cuts, retries, b, e, id, to, row)
  {
    assert forall k | 0 <= k < |mail| :: mail'[k] == mail[k];
  }

  /** Where the sends of the k-th new row begin. */
  function Begin(ends: seq<nat>, k: nat): nat
    requires k <= |ends|
  {
    if k == 0 then 0 else ends[k - 1]
  }

  /** The k-th row from `first` on has its own sends, to its channel's destination, and says what they answered. */
  ghost predicate BlockOf(cfg: Config, answers: nat -> Option<string>, cuts: nat -> Option<nat>, retries: nat,
                          first: nat, ends: seq<nat>, ledger: seq<Delivery>, mail: seq<Mail>, k: nat)
    requires k < |ends| && first + k < |ledger|
  {
    var row := ledger[first + k];
    && row.claim.channelId in cfg.channels
    && Block(mail, answers, cuts, retries, Begin(ends, k), ends[k], first + k + 1, cfg.channels[row.claim.channelId].target, row)
  }

  /** One block of sends for each row from `first` on, in order, and no other sends. */
  ghost predicate BookedAs(cfg: Config, answers: nat -> Option<string>, cuts: nat -> Option<nat>, retries: nat,
                           first: nat, ends: seq<nat>, ledger: seq<Delivery>, mail: seq<Mail>) {
    && |ledger| == first + |ends| && |mail| == Begin(ends, |ends|)
    && forall k | 0 <= k < |ends| :: BlockOf(cfg, answers, cuts, retries, first, ends, ledger, mail, k)
  }

  lemma {:induction false} BookedMore(cfg: Config, answers: nat -> Option<string>, cuts: nat -> Option<nat>, retries: nat,
                                      first: nat, ends: seq<nat>, ledger: seq<Delivery>, mail: seq<Mail>, row: Delivery, mail': seq<Mail>)
    requires BookedAs(cfg, answers, cuts, retries, first, ends, ledger, mail) && mail <= mail' && row.claim.channelId in cfg.channels
    requires Block(mail', answers, cuts, retries, |mail|, |mail'|, |ledger| + 1, cfg.channels[row.claim.channelId].target, row)
    ensures BookedAs(cfg, answers, cuts, retries, first, ends + [|mail'|], ledger + [row], mail')
  {
    var ends', ledger' := ends + [|mail'|], ledger + [row];
    forall k | 0 <= k < |ends'| ensures BlockOf(cfg, answers, cuts, retries, first, ends', ledger', mail', k) {
      if k < |ends| {
        assert BlockOf(cfg, answers, cuts, retries, first, ends, ledger, mail, k);
        var r := ledger[first + k];
        BlockStays(mail, mail', answers, cuts, retries, Begin(ends, k), ends[k], first + k + 1, cfg.channels[r.claim.channelId].target, r);
      }
    }
  }

  const DEFAULT_QUEUE_SIZE := 256
  const DEFAULT_WORKERS := 2
  const DEFAULT_RETRIES := 2
  const DEFAULT_RETRY_DELAY := 5_000_000_000

  class Dispatcher {
    const cfg: Config
    const capacity: nat
    const workers: nat
    const retries: nat
    const retryDelay: nat
    /** What the i-th call to the sender answers: an error, or none. */
    const answers: nat -> Option<string>
    /** Whether, and how far into it, shutdown interrupts the backoff after the i-th call. */
    const cuts: nat -> Option<nat>
    /** What the clock reads while the k-th event is handled. */
    const clock: nat -> int

    var ledger: seq<Delivery>
    var mail: seq<Mail>
    var waited: nat
    var queue: seq<Event>
    var dropped: nat
    var finished: nat
    /** How many rows there were before this dispatcher, and where the sends of each row since end. */
    ghost const first: nat
    ghost var ends: seq<nat>

    ghost predicate Valid()
      reads this
    {
      UniqueKeys(Claims(ledger)) && |queue| <= capacity
    }

    /** The mail sent is, row by row, that of the rows added; there is no other. */
    ghost predicate Booked()
      reads `ledger, `mail, `ends
    {
      BookedAs(cfg, answers, cuts, retries, first, ends, ledger, mail)
    }

    /** Options that are not positive take their defaults. */
    constructor (cfg: Config, queueSize: int, workers: int, retries: int, retryDelay: int,
                 answers: nat -> Option<string>, cuts: nat -> Option<nat>, clock: nat -> int,
                 ledger: seq<Delivery>)
      requires UniqueKeys(Claims(ledger))
      ensures Valid() && Booked() && this.ledger == ledger && first == |ledger| && mail == [] && queue == [] && dropped == finished == 0
      ensures this.cfg == cfg
      ensures capacity == (if queueSize <= 0 then 256 else queueSize)
      ensures this.workers == (if workers <= 0 then 2 else workers)
      ensures this.retries == (if retries <= 0 then 2 else retries)
      ensures this.retryDelay == (if retryDelay <= 0 then 5_000_000_000 else retryDelay)
      ensures this.answers == answers && this.cuts == cuts && this.clock == clock
    {
      this.cfg := cfg;
      capacity := if queueSize <= 0 then DEFAULT_QUEUE_SIZE else queueSize;
      this.workers := if workers <= 0 then DEFAULT_WORKERS else workers;
      this.retries := if retries <= 0 then DEFAULT_RETRIES else retries;
      this.retryDelay := if retryDelay <= 0 then DEFAULT_RETRY_DELAY else retryDelay;
      this.answers, this.cuts, this.clock := answers, cuts, clock;
      this.ledger, mail, waited, queue, dropped, finished := ledger, [], 0, [], 0, 0;
      first, ends := |ledger|, [];
    }

    /** Never waits: the event is queued, or counted as dropped. */
    method Enqueue(e: Event)
      requires Valid()
      modifies `queue, `dropped
      ensures Valid()
      ensures if |old(queue)| < capacity then queue == old(queue) + [e] && dropped == old(dropped)
              else queue == old(queue) && dropped == old(dropped) + 1
    {
      if |queue| < capacity { queue := queue + [e]; } else { dropped := dropped + 1; }
    }

    /** `SELECT COUNT(*) ... > 0`: some row, whatever its status, holds the key. */
    method DeliveryExists(key: string) returns (found: bool)
      ensures found <==> exists i | 0 <= i < |ledger| :: ledger[i].claim.key == key
      ensures found <==> Claimed(Claims(ledger), key)
    {
      var count, i := 0, 0;
      while i < |ledger|
        invariant 0 <= i <= |ledger| && 0 <= count
        invariant count > 0 <==> exists j | 0 <= j < i :: ledger[j].claim.key == key
      {
        if ledger[i].claim.key == key { count := count + 1; }
        i := i + 1;
      }
      found := count > 0;
      ClaimedIffRow(ledger, key);
    }

    /** The id of the new row, or none when the key is already claimed. */
    method ClaimDelivery(c: Claim) returns (id: Option<int>)
      requires Valid()
      modifies `ledger
      ensures Valid()
      ensures Claims(ledger) == Insert(old(Claims(ledger)), c)
      ensures id.None? <==> Claimed(old(Claims(ledger)), c.key)
      ensures id.None? ==> ledger == old(ledger)
      ensures id.Some? ==> id.value == |ledger| && ledger == old(ledger) + [NewRow(c)]
    {
      var taken := DeliveryExists(c.key);
      if taken { return None; }
      ghost var was := Claims(ledger);
      ledger := ledger + [NewRow(c)];
      assert Claims(ledger) == was + [c];
      return Some(|ledger|);
    }

    /** Calls to the sender from `base` on, all for this row, all failed but possibly the last, none cut short before it. */
    ghost predicate Tried(base: nat, id: int, to: string)
      reads `mail
    {
      && base < |mail|
      && (forall k | base <= k < |mail| :: mail[k] == Mail(id, to, answers(k)))
      && (forall k | base <= k < |mail| - 1 :: answers(k).Some? && cuts(k).None?)
    }

    /** Waits `retryDelay` doubled with each attempt, or until shutdown. */
    method Backoff(attempt: nat) returns (interrupted: bool)
      requires attempt > 0 && mail != []
      modifies `waited
      ensures interrupted <==> cuts(|mail| - 1).Some?
      ensures waited <= old(waited) + retryDelay * Pow2(attempt - 1)
      ensures !interrupted ==> waited == old(waited) + retryDelay * Pow2(attempt - 1)
    {
      var backoff := retryDelay * Pow2(attempt - 1);
      var cut := cuts(|mail| - 1);
      if cut.Some? {
        waited := waited + if cut.value < backoff then cut.value else backoff;
        return true;
      }
      waited := waited + backoff;
      return false;
    }

    /** Sends until one succeeds, the retries run out, or shutdown interrupts a backoff. */
    method SendWithRetries(id: int, to: string) returns (sent: bool, attempts: nat, lastErr: string)
      modifies `mail, `waited
      ensures |old(mail)| < |mail| <= |old(mail)| + retries + 1 && mail[..|old(mail)|] == old(mail)
      ensures Tried(|old(mail)|, id, to)
      ensures sent <==> answers(|mail| - 1).None?
      ensures sent ==> attempts == |mail| - |old(mail)|
      ensures !sent ==> answers(|mail| - 1) == Some(lastErr) && attempts == retries + 1
      ensures !sent && |mail| < |old(mail)| + retries + 1 ==> cuts(|mail| - 1).Some?
      ensures sent || |mail| == |old(mail)| + retries + 1 ==>
                waited == old(waited) + TotalBackoff(retryDelay, |mail| - |old(mail)| - 1)
      ensures waited <= old(waited) + TotalBackoff(retryDelay, retries)
    {
      lastErr := "";
      var attempt := 1;
      ghost var base, w := |mail|, waited;
      while attempt <= retries + 1
        invariant 1 <= attempt <= retries + 2
        invariant |mail| == base + attempt - 1 && mail[..base] == old(mail)
        invariant attempt > 1 ==> Tried(base, id, to) && answers(|mail| - 1) == Some(lastErr)
        invariant 1 < attempt <= retries + 1 ==> cuts(|mail| - 1).None?
        invariant waited == w + TotalBackoff(retryDelay, if attempt <= retries then attempt - 1 else retries)
      {
        var err := answers(|mail|);
        mail := mail + [Mail(id, to, err)];
        assert Tried(base, id, to);
        if err.None? {
          TotalBackoffMonotone(retryDelay, attempt - 1, retries);
          return true, attempt, lastErr;
        }
        lastErr := err.value;
        if attempt <= retries {
          TotalBackoffMonotone(retryDelay, attempt, retries);
          var interrupted := Backoff(attempt);
          if interrupted { break; }  // no more attempts, but the row is still settled below
        }
        attempt := attempt + 1;
      }
      return false, retries + 1, lastErr;
    }

    /** The row at `id` is settled by what its sends answered: a failed one records retries + 1 attempts however many were made. */
    twostate predicate Settled(id: int)
      requires 1 <= id <= |old(ledger)|
      reads this
    {
      var n := |mail| - |old(mail)|;
      && 1 <= n <= retries + 1
      && ledger == (if answers(|mail| - 1).None? then MarkedSent(old(ledger), id, n)
                    else MarkedFailed(old(ledger), id, retries + 1, answers(|mail| - 1).value))
      && (answers(|mail| - 1).Some? && n < retries + 1 ==> cuts(|mail| - 1).Some?)
    }

    method Deliver(id: int, to: string)
      requires 1 <= id <= |ledger|
      modifies `ledger, `mail, `waited
      ensures Tried(|old(mail)|, id, to) && mail[..|old(mail)|] == old(mail)
      ensures Settled(id)
      ensures waited <= old(waited) + TotalBackoff(retryDelay, retries)
    {
      var sent, attempts, lastErr := SendWithRetries(id, to);
      if sent {
        ledger := MarkedSent(ledger, id, attempts);
      } else {
        ledger := MarkedFailed(ledger, id, attempts, lastErr);
      }
    }

    /** Rows that were there are untouched; rows added are settled. */
    twostate predicate OnlySettledAdded()
      reads `ledger
    {
      && |old(ledger)| <= |ledger|
      && (forall i | 0 <= i < |old(ledger)| :: ledger[i] == old(ledger)[i])
      && (forall i | |old(ledger)| <= i < |ledger| :: ledger[i].status != Pending)
    }

    /** What a rule that fires on a key not yet claimed comes to: one more row, with its own sends. */
    twostate predicate OneSentTo(c: Claim, to: string)
      reads this
    {
      && |ledger| == |old(ledger)| + 1 && old(ledger) <= ledger && ledger[|old(ledger)|].claim == c
      && old(mail) <= mail
      && Block(mail, answers, cuts, retries, |old(mail)|, |mail|, |ledger|, to, ledger[|old(ledger)|])
    }

    /** One rule against one event: mail goes out, to the rule's channel, exactly when it fires on a key not yet claimed. */
    method ApplyRule(e: Event, kind: Kind, rule: Rule, now: int)
      requires Valid() && Booked()
      modifies `ledger, `mail, `waited, `ends
      ensures Valid() && Booked() && OnlySettledAdded() && old(mail) <= mail
      ensures rule.channelId !in cfg.channels ==> ledger == old(ledger) && mail == old(mail)
      ensures rule.channelId in cfg.channels ==> Claims(ledger) == AppliedRule(old(Claims(ledger)), e, kind, rule, now)
      ensures rule.channelId in cfg.channels ==>
        var key := Render(e, kind, rule, now, Claimed(old(Claims(ledger)), DownKey(e, rule)));
        if key.Some? && !Claimed(old(Claims(ledger)), key.value)
        then OneSentTo(ClaimOf(e, kind, rule, key.value), cfg.channels[rule.channelId].target)
        else ledger == old(ledger) && mail == old(mail)
    {
      if rule.channelId !in cfg.channels { return; }
      var announced := DeliveryExists(DownKey(e, rule));
      var key := Render(e, kind, rule, now, announced);
      if key.None? { return; }
      ClaimAndDeliver(ClaimOf(e, kind, rule, key.value), cfg.channels[rule.channelId].target);
    }

    /** An alert that fires: sent by whoever claims its key, and by no one else. */
    method ClaimAndDeliver(c: Claim, to: string)
      requires Valid() && Booked() && c.channelId in cfg.channels && to == cfg.channels[c.channelId].target
      modifies `ledger, `mail, `waited, `ends
      ensures Valid() && Booked() && OnlySettledAdded() && Claims(ledger) == Insert(old(Claims(ledger)), c)
      ensures if Claimed(old(Claims(ledger)), c.key) then ledger == old(ledger) && mail == old(mail) else OneSentTo(c, to)
    {
      ghost var l, m, n := ledger, mail, ends;
      var id := ClaimDelivery(c);
      if id.None? { return; }
      Deliver(id.value, to);
      ghost var row := ledger[|l|];
      assert ledger == l + [row] && row.claim == c;
      assert forall k | |m| <= k < |mail| :: mail[k] == Mail(id.value, to, answers(k));
      assert Block(mail, answers, cuts, retries, |m|, |mail|, |ledger|, to, row);
      BookedMore(cfg, answers, cuts, retries, first, n, l, m, row, mail);
      ends := ends + [|mail|];
    }

    method ApplyNext(e: Event, kind: Kind, rules: seq<Rule>, j: nat, now: int)
      requires Valid() && Booked() && j < |rules| && rules[j].channelId in cfg.channels
      modifies `ledger, `mail, `waited, `ends
      ensures Valid() && Booked() && OnlySettledAdded() && old(mail) <= mail
      ensures AppliedRules(Claims(ledger), e, kind, rules[j + 1..], now) == AppliedRules(old(Claims(ledger)), e, kind, rules[j..], now)
    {
      AppliedRulesHead(Claims(ledger), e, kind, rules, j, now);
      ApplyRule(e, kind, rules[j], now);
    }

    /** The rules of one kind, in order. */
    method ApplyRules(e: Event, kind: Kind, rules: seq<Rule>, now: int)
      requires Valid() && Booked() && forall r | r in rules :: r.channelId in cfg.channels
      modifies `ledger, `mail, `waited, `ends
      ensures Valid() && Booked() && OnlySettledAdded() && old(mail) <= mail
      ensures Claims(ledger) == AppliedRules(old(Claims(ledger)), e, kind, rules, now)
    {
      ghost var total := AppliedRules(Claims(ledger), e, kind, rules, now);
      var j := 0;
      while j < |rules|
        invariant 0 <= j <= |rules| && Valid() && Booked() && OnlySettledAdded() && old(mail) <= mail
        invariant AppliedRules(Claims(ledger), e, kind, rules[j..], now) == total
      {
        ApplyNext(e, kind, rules, j, now);
        j := j + 1;
      }
    }

    method HandleKinds(e: Event, kinds: seq<Kind>, now: int)
      requires Valid() && Booked()
      modifies `ledger, `mail, `waited, `ends
      ensures Valid() && Booked() && OnlySettledAdded() && old(mail) <= mail
      ensures Claims(ledger) == HandledKinds(old(Claims(ledger)), cfg, e, kinds, now)
    {
      ghost var total := HandledKinds(Claims(ledger), cfg, e, kinds, now);
      var i := 0;
      while i < |kinds|
        invariant 0 <= i <= |kinds| && Valid() && Booked() && OnlySettledAdded() && old(mail) <= mail
        invariant HandledKinds(Claims(ledger), cfg, e, kinds[i..], now) == total
      {
        assert kinds[i..][1..] == kinds[i + 1..];
        ApplyRules(e, kinds[i], RulesFor(cfg, e.site, kinds[i]), now);
        i := i + 1;
      }
    }

    /** All kinds, all rules, in order. */
    method Handle(e: Event, now: int)
      requires Valid() && Booked()
      modifies `ledger, `mail, `waited, `ends
      ensures Valid() && Booked() && OnlySettledAdded() && old(mail) <= mail
      ensures Claims(ledger) == Handled(old(Claims(ledger)), cfg, e, now)
    {
      HandleKinds(e, KindsFor(e.tr), now);
    }

    /** One turn of the worker's loop. */
    method HandleNext()
      requires Valid() && Booked() && queue != []
      modifies `ledger, `mail, `waited, `ends, `queue, `finished
      ensures Valid() && Booked() && OnlySettledAdded() && old(mail) <= mail && queue == old(queue)[1..] && finished == old(finished) + 1
      ensures HandledAll(Claims(ledger), cfg, queue, clock, finished) ==
        HandledAll(old(Claims(ledger)), cfg, old(queue), clock, old(finished))
    {
      HandledAllHead(Claims(ledger), cfg, queue, clock, finished);
      var e := queue[0];
      queue := queue[1..];
      Handle(e, clock(finished));
      finished := finished + 1;
    }

    /** One worker emptying the queue in order, as after Shutdown closes it. */
    method Drain()
      requires Valid() && Booked()
      modifies `ledger, `mail, `waited, `ends, `queue, `finished
      ensures Valid() && Booked() && OnlySettledAdded() && old(mail) <= mail && queue == [] && finished == old(finished) + |old(queue)|
      ensures Claims(ledger) == HandledAll(old(Claims(ledger)), cfg, old(queue), clock, old(finished))
    {
      ghost var total := HandledAll(Claims(ledger), cfg, queue, clock, finished);
      while queue != []
        invariant Valid() && Booked() && OnlySettledAdded() && old(mail) <= mail
        invariant finished + |queue| == old(finished) + |old(queue)|
        invariant HandledAll(Claims(ledger), cfg, queue, clock, finished) == total
        decreases |queue|
      {
        HandleNext();
      }
    }
  }

  /** The time the first n backoffs take, doubling each time: delay * (2^n - 1) in all. */
  function TotalBackoff(delay: nat, n: nat): (t: nat) {
    if n == 0 then 0 else TotalBackoff(delay, n - 1) + delay * Pow2(n - 1)
  }

  lemma {:induction false} TotalBackoffClosed(delay: nat, n: nat)
    ensures TotalBackoff(delay, n) == delay * (Pow2(n) - 1)
  {
    if n > 0 {
      TotalBackoffClosed(delay, n - 1);
      var p := Pow2(n - 1);
      assert delay * (p - 1) + delay * p == delay * (p - 1 + p);
    }
  }

  lemma {:induction false} TotalBackoffMonotone(delay: nat, m: nat, n: nat)
    requires m <= n
    ensures TotalBackoff(delay, m) <= TotalBackoff(delay, n)
    decreases n
  {
    if m < n { TotalBackoffMonotone(delay, m, n - 1); }
  }
}
