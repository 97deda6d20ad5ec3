/** What the login limiter promises: when a blocked caller may retry, and how far concurrent logins can overshoot. */
module Throttling {
  import opened Limiter

  /** A log as a clock that has reached `clock` writes it. */
  ghost predicate LogOk(log: Log, clock: int) {
    forall k :: Sorted(Of(log, k)) && AllAtMost(Of(log, k), clock)
  }

  predicate AllAtMost(ts: seq<int>, x: int) { forall i | 0 <= i < |ts| :: ts[i] <= x }

  /** The limiter's own log is such a log. */
  lemma {:induction false} StoreLogOk(attempts: Log, log: Log, cutoff: int, clock: int)
    requires StoreOk(attempts, log, cutoff, clock)
    ensures LogOk(log, clock)
  {
    forall k ensures Sorted(Of(log, k)) && AllAtMost(Of(log, k), clock) {
      assert KeyOkAt(attempts, log, k, cutoff, clock);
    }
  }

  // --- live entries ---

  /** Entries up to the cutoff at the front of a log. */
  function Expired(ts: seq<int>, cutoff: int): (n: nat)
    ensures n <= |ts|
    ensures forall i | 0 <= i < n :: ts[i] <= cutoff
    ensures n < |ts| ==> ts[n] > cutoff
  {
    if ts == [] || ts[0] > cutoff then 0 else 1 + Expired(ts[1..], cutoff)
  }

  /** The live entries of a sorted log are its suffix from the first one newer than the cutoff. */
  lemma {:induction false} LiveIsSuffix(ts: seq<int>, cutoff: int)
    requires Sorted(ts)
    ensures |Live(ts, cutoff)| <= |ts| && Live(ts, cutoff) == ts[|ts| - |Live(ts, cutoff)|..]
    ensures forall i | 0 <= i < |ts| :: ts[i] > cutoff <==> i >= |ts| - |Live(ts, cutoff)|
  {
    var n := Expired(ts, cutoff);
    PruneIsLive(ts[n..], ts, cutoff);
  }

  /** At least n entries are live exactly when the n-th newest is. */
  lemma {:induction false} LiveAtLeast(ts: seq<int>, cutoff: int, n: nat)
    requires Sorted(ts) && n > 0
    ensures |Live(ts, cutoff)| >= n <==> |ts| >= n && ts[|ts| - n] > cutoff
  {
    LiveIsSuffix(ts, cutoff);
  }

  // --- RetryAfter ---

  /** The key that makes callers wait longest. */
  lemma {:induction false} LongestKey(log: Log, keys: seq<string>, maxAttempts: int, window: int, now: int) returns (k: string)
    requires maxAttempts > 0 && SpecRetry(log, keys, maxAttempts, window, now) > 0
    ensures k in keys && KeyRetry(log, k, maxAttempts, window, now) == SpecRetry(log, keys, maxAttempts, window, now)
  {
    k := keys[|keys| - 1];
    if KeyRetry(log, k, maxAttempts, window, now) != SpecRetry(log, keys, maxAttempts, window, now) {
      k := LongestKey(log, keys[..|keys| - 1], maxAttempts, window, now);
    }
  }

  lemma {:induction false} RetryBounds(log: Log, keys: seq<string>, maxAttempts: int, window: int, now: int, k: string)
    requires maxAttempts > 0 && k in keys
    ensures KeyRetry(log, k, maxAttempts, window, now) <= SpecRetry(log, keys, maxAttempts, window, now)
  {
    if k != keys[|keys| - 1] { RetryBounds(log, keys[..|keys| - 1], maxAttempts, window, now, k); }
  }

  lemma {:induction false} KeyRetryPositive(log: Log, k: string, maxAttempts: int, window: int, now: int)
    requires maxAttempts > 0 && LogOk(log, now)
    ensures KeyRetry(log, k, maxAttempts, window, now) > 0 <==> !KeyAllowed(log, k, maxAttempts, window, now)
  {
    assert Sorted(Of(log, k));
    LiveIsSuffix(Of(log, k), now - window);
  }

  /** RetryAfter is positive exactly when Allowed is false. */
  lemma {:induction false} RetryIffBlocked(log: Log, keys: seq<string>, maxAttempts: int, window: int, now: int)
    requires maxAttempts > 0 && LogOk(log, now)
    ensures SpecRetry(log, keys, maxAttempts, window, now) > 0 <==> !SpecAllowed(log, keys, maxAttempts, window, now)
  {
    forall k | k in keys
      ensures KeyRetry(log, k, maxAttempts, window, now) > 0 <==> !KeyAllowed(log, k, maxAttempts, window, now)
      ensures KeyRetry(log, k, maxAttempts, window, now) <= SpecRetry(log, keys, maxAttempts, window, now)
    {
      KeyRetryPositive(log, k, maxAttempts, window, now);
      RetryBounds(log, keys, maxAttempts, window, now, k);
    }
    if SpecRetry(log, keys, maxAttempts, window, now) > 0 {
      var k := LongestKey(log, keys, maxAttempts, window, now);
    }
  }

  /** With no further calls, the keys stay blocked at every instant before it elapses. */
  lemma {:induction false} BlockedUntilRetry(log: Log, keys: seq<string>, maxAttempts: int, window: int, now: int, t: int)
    requires maxAttempts > 0 && LogOk(log, now)
    requires now <= t < now + SpecRetry(log, keys, maxAttempts, window, now)
    ensures !SpecAllowed(log, keys, maxAttempts, window, t)
  {
    var k := LongestKey(log, keys, maxAttempts, window, now);
    assert Sorted(Of(log, k));
    KeyBlockedUntil(log, k, maxAttempts, window, now, t);
  }

  lemma {:induction false} KeyBlockedUntil(log: Log, k: string, maxAttempts: int, window: int, now: int, t: int)
    requires maxAttempts > 0 && Sorted(Of(log, k))
    requires now <= t < now + KeyRetry(log, k, maxAttempts, window, now)
    ensures !KeyAllowed(log, k, maxAttempts, window, t)
  {
    var ts := Of(log, k);
    LiveIsSuffix(ts, now - window);
    LiveAtLeast(ts, now - window, maxAttempts);
    LiveAtLeast(ts, t - window, maxAttempts);
  }

  /** Live entries of a key beyond the limit: 0 or less when the key is not over it. */
  function Excess(log: Log, k: string, maxAttempts: int, window: int, now: int): int {
    |Live(Of(log, k), now - window)| - maxAttempts
  }

  lemma {:induction false} KeyAllowedAt(log: Log, k: string, maxAttempts: int, window: int, now: int, at: int)
    requires maxAttempts > 0 && Sorted(Of(log, k)) && now <= at
    ensures KeyAllowed(log, k, maxAttempts, window, at) <==>
            (Excess(log, k, maxAttempts, window, now) >= 0 ==>
             Live(Of(log, k), now - window)[Excess(log, k, maxAttempts, window, now)] + window <= at)
  {
    var ts := Of(log, k);
    LiveIsSuffix(ts, now - window);
    LiveAtLeast(ts, now - window, maxAttempts);
    LiveAtLeast(ts, at - window, maxAttempts);
  }

  /** With no further calls: allowed at a later instant exactly when, in every key at or over the limit, the entry that brings it back under has aged out. */
  lemma {:induction false} AllowedLaterIff(log: Log, keys: seq<string>, maxAttempts: int, window: int, now: int, at: int)
    requires maxAttempts > 0 && LogOk(log, now) && now <= at
    ensures SpecAllowed(log, keys, maxAttempts, window, at) <==>
      forall k | k in keys && Excess(log, k, maxAttempts, window, now) >= 0 ::
        Live(Of(log, k), now - window)[Excess(log, k, maxAttempts, window, now)] + window <= at
  {
    forall k | k in keys
      ensures KeyAllowed(log, k, maxAttempts, window, at) <==>
              (Excess(log, k, maxAttempts, window, now) >= 0 ==>
               Live(Of(log, k), now - window)[Excess(log, k, maxAttempts, window, now)] + window <= at)
    {
      assert Sorted(Of(log, k));
      KeyAllowedAt(log, k, maxAttempts, window, now, at);
    }
  }

  /** So at the instant `RetryAfter` elapses. */
  lemma {:induction false} AllowedAtRetry(log: Log, keys: seq<string>, maxAttempts: int, window: int, now: int)
    requires maxAttempts > 0 && LogOk(log, now)
    ensures var at := now + SpecRetry(log, keys, maxAttempts, window, now);
      SpecAllowed(log, keys, maxAttempts, window, at) <==>
      forall k | k in keys && Excess(log, k, maxAttempts, window, now) >= 0 ::
        Live(Of(log, k), now - window)[Excess(log, k, maxAttempts, window, now)] + window <= at
  {
    AllowedLaterIff(log, keys, maxAttempts, window, now, now + SpecRetry(log, keys, maxAttempts, window, now));
  }

  /** In particular when every blocked key holds exactly the limit. */
  lemma {:induction false} AllowedAtRetryExactly(log: Log, keys: seq<string>, maxAttempts: int, window: int, now: int)
    requires maxAttempts > 0 && LogOk(log, now)
    requires forall k | k in keys :: Excess(log, k, maxAttempts, window, now) <= 0
    ensures SpecAllowed(log, keys, maxAttempts, window, now + SpecRetry(log, keys, maxAttempts, window, now))
  {
    AllowedAtRetry(log, keys, maxAttempts, window, now);
    forall k | k in keys && Excess(log, k, maxAttempts, window, now) >= 0
      ensures Live(Of(log, k), now - window)[0] + window <= now + SpecRetry(log, keys, maxAttempts, window, now)
    {
      RetryBounds(log, keys, maxAttempts, window, now, k);
    }
  }

  // --- of a limiter ---

  /** What the store of a limiter and the wait it computes say about its next answers. */
  lemma {:induction false} LimiterWaits(l: Limiter, keys: seq<string>, now: int)
    requires l.Valid() && l.clock <= now
    ensures var wait := SpecRetry(l.log, keys, l.maxAttempts, l.window, now);
      && LogOk(l.log, now)
      && (wait > 0 <==> !SpecAllowed(l.log, keys, l.maxAttempts, l.window, now))
      && (forall t | now <= t < now + wait :: !SpecAllowed(l.log, keys, l.maxAttempts, l.window, t))
      && ((forall k | k in keys :: Excess(l.log, k, l.maxAttempts, l.window, now) <= 0) ==>
            SpecAllowed(l.log, keys, l.maxAttempts, l.window, now + wait))
  {
    AdvanceOk(l.attempts, l.log, l.clock - l.window, l.clock, now - l.window, now);
    StoreLogOk(l.attempts, l.log, now - l.window, now);
    RetryIffBlocked(l.log, keys, l.maxAttempts, l.window, now);
    forall t | now <= t < now + SpecRetry(l.log, keys, l.maxAttempts, l.window, now)
      ensures !SpecAllowed(l.log, keys, l.maxAttempts, l.window, t)
    {
      BlockedUntilRetry(l.log, keys, l.maxAttempts, l.window, now, t);
    }
    if forall k | k in keys :: Excess(l.log, k, l.maxAttempts, l.window, now) <= 0 {
      AllowedAtRetryExactly(l.log, keys, l.maxAttempts, l.window, now);
    }
  }

  // --- concurrent logins ---

  /** A login counts against its username and its address. */
  datatype Attempt = Attempt(user: string, ip: string)

  function KeysOf(a: Attempt): (keys: seq<string>) { ["user:" + a.user, "ip:" + a.ip] }

  /** Attempts that passed `Allowed` and whose password check has not been recorded yet. */
  datatype Logins = Logins(log: Log, clock: int, flying: map<int, Attempt>)

  datatype Event =
    | Begin(id: int, a: Attempt, now: int)
    | Fail(id: int, now: int)
    | Succeed(id: int)
    | Abort(id: int)

  /** Clock readings do not go back; a refused or impossible event changes nothing. */
  function Next(maxAttempts: int, window: int, s: Logins, e: Event): Logins {
    match e
    case Begin(id, a, now) =>
      if now < s.clock || id in s.flying then s
      else if !SpecAllowed(s.log, KeysOf(a), maxAttempts, window, now) then s.(clock := now)
      else s.(clock := now, flying := s.flying[id := a])
    case Fail(id, now) =>
      if now < s.clock || id !in s.flying then s
      else s.(clock := now, log := SpecRecord(s.log, KeysOf(s.flying[id]), now), flying := s.flying - {id})
    case Succeed(id) =>
      if id !in s.flying then s
      else s.(log := SpecReset(s.log, KeysOf(s.flying[id])), flying := s.flying - {id})
    case Abort(id) => s.(flying := s.flying - {id})
  }

  /** Attempts in flight that count against a key. */
  function Flying(s: Logins, k: string): (ids: set<int>) {
    set id | id in s.flying && k in KeysOf(s.flying[id])
  }

  /** Failures in the window that ends at `to`: strictly after its start, up to its end. */
  function InWindow(ts: seq<int>, window: int, to: int): (n: nat) {
    if ts == [] then 0
    else InWindow(ts[..|ts| - 1], window, to) + if to - window < ts[|ts| - 1] <= to then 1 else 0
  }

  /** One key's log, with so many attempts in flight: live failures and flights together stay within the bound, and so does every window. */
  ghost predicate LogBounded(ts: seq<int>, clock: int, window: int, flying: nat, bound: int) {
    && Sorted(ts) && AllAtMost(ts, clock)
    && |Live(ts, clock - window)| + flying <= bound
    && WindowsBounded(ts, window, bound)
  }

  ghost predicate WindowsBounded(ts: seq<int>, window: int, bound: int) { forall to :: InWindow(ts, window, to) <= bound }

  ghost predicate KeyBounded(s: Logins, maxAttempts: int, window: int, m: nat, k: string) {
    LogBounded(Of(s.log, k), s.clock, window, |Flying(s, k)|, maxAttempts - 1 + m)
  }

  lemma {:induction false} LiveShrinks(ts: seq<int>, c: int, c': int)
    requires c <= c'
    ensures |Live(ts, c')| <= |Live(ts, c)|
  {
    if ts != [] { LiveShrinks(ts[..|ts| - 1], c, c'); }
  }

  /** A window holds no more than what is live when its start is the cutoff. */
  lemma {:induction false} WindowIsLive(ts: seq<int>, window: int, to: int, cutoff: int)
    requires cutoff <= to - window
    ensures InWindow(ts, window, to) <= |Live(ts, cutoff)|
  {
    if ts != [] { WindowIsLive(ts[..|ts| - 1], window, to, cutoff); }
  }

  lemma {:induction false} RecordSnoc(log: Log, keys: seq<string>, k: string, now: int)
    ensures SpecRecord(log, keys + [k], now) == SpecRecord(log, keys, now)[k := Of(SpecRecord(log, keys, now), k) + [now]]
  {
    assert (keys + [k])[..|keys|] == keys;
  }

  /** The log of one key after a recorded failure. */
  lemma {:induction false} RecordOf(log: Log, a: Attempt, now: int, k: string)
    ensures Of(SpecRecord(log, KeysOf(a), now), k) == if k in KeysOf(a) then Of(log, k) + [now] else Of(log, k)
  {
    var u, i := "user:" + a.user, "ip:" + a.ip;
    assert u[0] == 'u' && i[0] == 'i';
    RecordSnoc(log, [], u, now);
    RecordSnoc(log, [u], i, now);
    assert [] + [u] == [u] && [u] + [i] == KeysOf(a);
  }

  lemma {:induction false} FlyingRemove(s: Logins, id: int, k: string)
    ensures var s' := s.(flying := s.flying - {id});
      |Flying(s', k)| == |Flying(s, k)| - if id in Flying(s, k) then 1 else 0
  {
    assert Flying(s.(flying := s.flying - {id}), k) == Flying(s, k) - {id};
  }

  lemma {:induction false} BeginBounded(maxAttempts: int, window: int, m: nat, s: Logins, id: int, a: Attempt, now: int, k: string)
    requires KeyBounded(s, maxAttempts, window, m, k) && now >= s.clock && id !in s.flying
    requires SpecAllowed(s.log, KeysOf(a), maxAttempts, window, now)
    requires |Flying(s.(flying := s.flying[id := a]), k)| <= m
    ensures KeyBounded(s.(clock := now, flying := s.flying[id := a]), maxAttempts, window, m, k)
  {
    var s' := s.(clock := now, flying := s.flying[id := a]);
    LiveShrinks(Of(s.log, k), s.clock - window, now - window);
    assert Flying(s', k) == Flying(s.(flying := s.flying[id := a]), k);
    if k in KeysOf(a) {
      assert KeyAllowed(s.log, k, maxAttempts, window, now);
    } else {
      assert Flying(s', k) == Flying(s, k);
    }
  }

  /** One more entry, at `now`: windows that contain it hold no more than what is live then. */
  lemma {:induction false} WindowsAfter(ts: seq<int>, window: int, now: int, bound: int)
    requires |Live(ts, now - window)| + 1 <= bound && WindowsBounded(ts, window, bound)
    ensures WindowsBounded(ts + [now], window, bound)
  {
    forall to ensures InWindow(ts + [now], window, to) <= bound {
      assert (ts + [now])[..|ts|] == ts;
      if to - window < now <= to { WindowIsLive(ts, window, to, now - window); }
    }
  }

  lemma {:induction false} LiveSnoc(ts: seq<int>, now: int, cutoff: int)
    requires cutoff < now
    ensures Live(ts + [now], cutoff) == Live(ts, cutoff) + [now]
  {
    assert (ts + [now])[..|ts|] == ts;
  }

  /** One flight less and one failure more. */
  lemma {:induction false} AppendBounded(ts: seq<int>, clock: int, now: int, window: int, flying: nat, bound: int)
    requires LogBounded(ts, clock, window, flying, bound) && flying > 0 && clock <= now && window > 0
    ensures LogBounded(ts + [now], now, window, flying - 1, bound)
  {
    LiveShrinks(ts, clock - window, now - window);
    LiveSnoc(ts, now, now - window);
    WindowsAfter(ts, window, now, bound);
  }

  lemma {:induction false} LaterBounded(ts: seq<int>, clock: int, now: int, window: int, flying: nat, bound: int)
    requires LogBounded(ts, clock, window, flying, bound) && clock <= now
    ensures LogBounded(ts, now, window, flying, bound)
  {
    LiveShrinks(ts, clock - window, now - window);
  }

  /** What a failure does to one key. */
  lemma {:induction false} FailEffect(maxAttempts: int, window: int, s: Logins, id: int, now: int, k: string)
    requires now >= s.clock && id in s.flying
    ensures var s', counts := Next(maxAttempts, window, s, Fail(id, now)), k in KeysOf(s.flying[id]);
      && s'.clock == now
      && Of(s'.log, k) == (if counts then Of(s.log, k) + [now] else Of(s.log, k))
      && |Flying(s', k)| == |Flying(s, k)| - (if counts then 1 else 0)
  {
    RecordOf(s.log, s.flying[id], now, k);
    FlyingRemove(s, id, k);
    assert Flying(Next(maxAttempts, window, s, Fail(id, now)), k) == Flying(s.(flying := s.flying - {id}), k);
  }

  lemma {:induction false} FailBounded(maxAttempts: int, window: int, m: nat, s: Logins, id: int, now: int, k: string)
    requires KeyBounded(s, maxAttempts, window, m, k) && now >= s.clock && id in s.flying && window > 0
    ensures KeyBounded(Next(maxAttempts, window, s, Fail(id, now)), maxAttempts, window, m, k)
  {
    FailEffect(maxAttempts, window, s, id, now, k);
    if k in KeysOf(s.flying[id]) {
      AppendBounded(Of(s.log, k), s.clock, now, window, |Flying(s, k)|, maxAttempts - 1 + m);
    } else {
      LaterBounded(Of(s.log, k), s.clock, now, window, |Flying(s, k)|, maxAttempts - 1 + m);
    }
  }

  lemma {:induction false} SucceedBounded(maxAttempts: int, window: int, m: nat, s: Logins, id: int, k: string)
    requires KeyBounded(s, maxAttempts, window, m, k) && id in s.flying && |Flying(s, k)| <= m && maxAttempts > 0
    ensures KeyBounded(Next(maxAttempts, window, s, Succeed(id)), maxAttempts, window, m, k)
  {
    var s' := Next(maxAttempts, window, s, Succeed(id));
    FlyingRemove(s, id, k);
    assert Flying(s', k) == Flying(s.(flying := s.flying - {id}), k);
  }

  lemma {:induction false} NextBounded(maxAttempts: int, window: int, m: nat, s: Logins, e: Event, k: string)
    requires maxAttempts > 0 && window > 0 && KeyBounded(s, maxAttempts, window, m, k)
    requires |Flying(s, k)| <= m && |Flying(Next(maxAttempts, window, s, e), k)| <= m
    ensures KeyBounded(Next(maxAttempts, window, s, e), maxAttempts, window, m, k)
  {
    match e
    case Begin(id, a, now) =>
      if now >= s.clock && id !in s.flying {
        if SpecAllowed(s.log, KeysOf(a), maxAttempts, window, now) {
          assert Flying(s.(flying := s.flying[id := a]), k) == Flying(Next(maxAttempts, window, s, e), k);
          BeginBounded(maxAttempts, window, m, s, id, a, now, k);
        } else {
          LiveShrinks(Of(s.log, k), s.clock - window, now - window);
          assert Flying(s.(clock := now), k) == Flying(s, k);
        }
      }
    case Fail(id, now) => if now >= s.clock && id in s.flying { FailBounded(maxAttempts, window, m, s, id, now, k); }
    case Succeed(id) => if id in s.flying { SucceedBounded(maxAttempts, window, m, s, id, k); }
    case Abort(id) => FlyingRemove(s, id, k);
  }

  function Run(maxAttempts: int, window: int, s: Logins, es: seq<Event>): Logins {
    if es == [] then s else Next(maxAttempts, window, Run(maxAttempts, window, s, es[..|es| - 1]), es[|es| - 1])
  }

  function Fresh(clock: int): Logins { Logins(map[], clock, map[]) }

  /**
   * With never more than m attempts of a key in flight, no window free of a Reset
   * holds more than maxAttempts + m - 1 failures for it, in any interleaving.
   */
  lemma {:induction false} OvershootBounded(maxAttempts: int, window: int, m: nat, clock: int, es: seq<Event>, k: string)
    requires maxAttempts > 0 && window > 0
    requires forall n | 0 <= n <= |es| :: |Flying(Run(maxAttempts, window, Fresh(clock), es[..n]), k)| <= m
    ensures KeyBounded(Run(maxAttempts, window, Fresh(clock), es), maxAttempts, window, m, k)
    ensures forall to :: InWindow(Of(Run(maxAttempts, window, Fresh(clock), es).log, k), window, to) <= maxAttempts + m - 1
  {
    if es != [] {
      var before := es[..|es| - 1];
      forall n | 0 <= n <= |before| ensures |Flying(Run(maxAttempts, window, Fresh(clock), before[..n]), k)| <= m {
        assert before[..n] == es[..n];
      }
      OvershootBounded(maxAttempts, window, m, clock, before, k);
      assert es[..|es|] == es && before[..|before|] == before;
      NextBounded(maxAttempts, window, m, Run(maxAttempts, window, Fresh(clock), before), es[|es| - 1], k);
    } else {
      assert Flying(Fresh(clock), k) == {};
    }
  }

  // --- accounts and spellings ---

  function UserKey(user: string): string { "user:" + user }

  lemma {:induction false} UserKeyOf(a: Attempt, user: string)
    ensures UserKey(user) in KeysOf(a) <==> a.user == user
  {
    assert UserKey(user)[0] == 'u' && ("ip:" + a.ip)[0] == 'i';
    assert UserKey(user)[5..] == user && UserKey(a.user)[5..] == a.user;
  }

  /** Nothing is counted against a username no attempt was spelled with. */
  lemma {:induction false} UnspelledUncounted(maxAttempts: int, window: int, clock: int, es: seq<Event>, user: string)
    requires forall i | 0 <= i < |es| && es[i].Begin? :: es[i].a.user != user
    ensures var s := Run(maxAttempts, window, Fresh(clock), es);
      Of(s.log, UserKey(user)) == [] && forall id | id in s.flying :: s.flying[id].user != user
  {
    if es != [] {
      var n := |es| - 1;
      UnspelledUncounted(maxAttempts, window, clock, es[..n], user);
      var s := Run(maxAttempts, window, Fresh(clock), es[..n]);
      if es[n].Fail? && es[n].id in s.flying {
        RecordOf(s.log, s.flying[es[n].id], es[n].now, UserKey(user));
        UserKeyOf(s.flying[es[n].id], user);
      }
    }
  }

  /**
   * An account is known by its normalised name, the limiter by the spelling. If every attempt on an account is spelled
   * alike, all its failures are counted under that spelling, and no window free of a Reset holds more than
   * maxAttempts + m - 1 of them.
   */
  lemma {:induction false} AccountBounded(
      normalise: string -> string, maxAttempts: int, window: int, m: nat, clock: int, es: seq<Event>, spelling: string)
    requires maxAttempts > 0 && window > 0
    requires forall i | 0 <= i < |es| && es[i].Begin? && normalise(es[i].a.user) == normalise(spelling) :: es[i].a.user == spelling
    requires forall n | 0 <= n <= |es| :: |Flying(Run(maxAttempts, window, Fresh(clock), es[..n]), UserKey(spelling))| <= m
    ensures var log := Run(maxAttempts, window, Fresh(clock), es).log;
      && (forall user | normalise(user) == normalise(spelling) && user != spelling :: Of(log, UserKey(user)) == [])
      && (forall to :: InWindow(Of(log, UserKey(spelling)), window, to) <= maxAttempts + m - 1)
  {
    OvershootBounded(maxAttempts, window, m, clock, es, UserKey(spelling));
    forall user | normalise(user) == normalise(spelling) && user != spelling
      ensures Of(Run(maxAttempts, window, Fresh(clock), es).log, UserKey(user)) == []
    {
      UnspelledUncounted(maxAttempts, window, clock, es, user);
    }
  }

  /** At a limit of 1 and one attempt at a time, two spellings of one account count one failure each, two in all. */
  lemma {:induction false} SpellingsCountApart(window: int, a: Attempt, b: Attempt)
    requires window > 0 && a.user != b.user && a.ip != b.ip
    ensures var s := Run(1, window, Fresh(0), [Begin(0, a, 0), Fail(0, 0), Begin(1, b, 0), Fail(1, 0)]);
      InWindow(Of(s.log, UserKey(a.user)), window, 0) == InWindow(Of(s.log, UserKey(b.user)), window, 0) == 1
  {
    var e0, e1, e2, e3 := Begin(0, a, 0), Fail(0, 0), Begin(1, b, 0), Fail(1, 0);
    var es := [e0, e1, e2, e3];
    assert es[..3] == [e0, e1, e2] && [e0, e1, e2][..2] == [e0, e1] && [e0, e1][..1] == [e0] && [e0][..0] == [];
    var s0 := Fresh(0);
    var s1 := Next(1, window, s0, e0);
    var s2 := Next(1, window, s1, e1);
    var s3 := Next(1, window, s2, e2);
    assert Run(1, window, s0, [e0]) == s1;
    assert Run(1, window, s0, [e0, e1]) == s2;
    assert Run(1, window, s0, [e0, e1, e2]) == s3;
    assert Run(1, window, s0, es) == Next(1, window, s3, e3);
    assert s1.flying == map[0 := a];
    forall k ensures Of(s2.log, k) == if k in KeysOf(a) then [0] else [] { RecordOf(s1.log, a, 0, k); }
    KeysApart(a, b);
    assert s3.flying[1] == b;
    UserKeyOf(a, a.user);
    UserKeyOf(b, b.user);
    RecordOf(s3.log, b, 0, UserKey(a.user));
    RecordOf(s3.log, b, 0, UserKey(b.user));
    assert [0][..0] == [] && InWindow([0], window, 0) == 1;
  }

  lemma {:induction false} KeysApart(a: Attempt, b: Attempt)
    requires a.user != b.user && a.ip != b.ip
    ensures forall k | k in KeysOf(b) :: k !in KeysOf(a)
  {
    UserKeyOf(a, b.user);
    var i, j := "ip:" + a.ip, "ip:" + b.ip;
    assert i[3..] == a.ip && j[3..] == b.ip;
    assert UserKey(a.user)[0] == 'u' && j[0] == 'i';
  }

  // --- failures counted from the events themselves ---

  /** The times of the failures of some attempts since the last success of one of them. */
  function FailuresOf(maxAttempts: int, window: int, clock: int, es: seq<Event>, of: Attempt -> bool): (ts: seq<int>) {
    if es == [] then []
    else
      var before := es[..|es| - 1];
      var s, ts := Run(maxAttempts, window, Fresh(clock), before), FailuresOf(maxAttempts, window, clock, before, of);
      match es[|es| - 1]
      case Fail(id, now) => if now >= s.clock && id in s.flying && of(s.flying[id]) then ts + [now] else ts
      case Succeed(id) => if id in s.flying && of(s.flying[id]) then [] else ts
      case _ => ts
  }

  function FromAddress(ip: string): Attempt -> bool { (a: Attempt) => a.ip == ip }

  function WithName(user: string): Attempt -> bool { (a: Attempt) => a.user == user }

  function AddressKey(ip: string): string { "ip:" + ip }

  lemma {:induction false} AddressKeyOf(a: Attempt, ip: string)
    ensures AddressKey(ip) in KeysOf(a) <==> a.ip == ip
  {
    assert ("user:" + a.user)[0] == 'u' && AddressKey(ip)[0] == 'i';
    assert AddressKey(ip)[3..] == ip && AddressKey(a.ip)[3..] == a.ip;
  }

  lemma {:induction false} KeyFailures(maxAttempts: int, window: int, clock: int, es: seq<Event>, k: string, of: Attempt -> bool)
    requires forall a :: of(a) <==> k in KeysOf(a)
    ensures Of(Run(maxAttempts, window, Fresh(clock), es).log, k) == FailuresOf(maxAttempts, window, clock, es, of)
  {
    if es != [] {
      var before, last := es[..|es| - 1], es[|es| - 1];
      var s := Run(maxAttempts, window, Fresh(clock), before);
      KeyFailures(maxAttempts, window, clock, before, k, of);
      if last.Fail? && last.id in s.flying { RecordOf(s.log, s.flying[last.id], last.now, k); }
    }
  }

  /** The limiter counts, for an address, the failures of attempts from it, whatever names they tried; and for a name those that tried it. */
  lemma {:induction false} CountsAddressAndName(maxAttempts: int, window: int, clock: int, es: seq<Event>, user: string, ip: string)
    ensures var log := Run(maxAttempts, window, Fresh(clock), es).log;
      && Of(log, "ip:" + ip) == FailuresOf(maxAttempts, window, clock, es, FromAddress(ip))
      && Of(log, "user:" + user) == FailuresOf(maxAttempts, window, clock, es, WithName(user))
  {
    forall a: Attempt ensures FromAddress(ip)(a) <==> AddressKey(ip) in KeysOf(a) { AddressKeyOf(a, ip); }
    forall a: Attempt ensures WithName(user)(a) <==> UserKey(user) in KeysOf(a) { UserKeyOf(a, user); }
    KeyFailures(maxAttempts, window, clock, es, AddressKey(ip), FromAddress(ip));
    KeyFailures(maxAttempts, window, clock, es, UserKey(user), WithName(user));
  }

  /** Attempts of some kind in flight. */
  function InFlight(s: Logins, of: Attempt -> bool): (ids: set<int>) { set id | id in s.flying && of(s.flying[id]) }

  /**
   * Whatever names are tried from an address: with never more than m attempts from it in flight, no window without a
   * success from it holds more than maxAttempts + m - 1 of its failures.
   */
  lemma {:induction false} AddressBounded(maxAttempts: int, window: int, m: nat, clock: int, es: seq<Event>, ip: string)
    requires maxAttempts > 0 && window > 0
    requires forall n | 0 <= n <= |es| :: |InFlight(Run(maxAttempts, window, Fresh(clock), es[..n]), FromAddress(ip))| <= m
    ensures forall to :: InWindow(FailuresOf(maxAttempts, window, clock, es, FromAddress(ip)), window, to) <= maxAttempts + m - 1
  {
    forall n | 0 <= n <= |es| ensures |Flying(Run(maxAttempts, window, Fresh(clock), es[..n]), AddressKey(ip))| <= m {
      var s := Run(maxAttempts, window, Fresh(clock), es[..n]);
      forall id | id in s.flying ensures AddressKey(ip) in KeysOf(s.flying[id]) <==> FromAddress(ip)(s.flying[id]) {
        AddressKeyOf(s.flying[id], ip);
      }
      assert Flying(s, AddressKey(ip)) == InFlight(s, FromAddress(ip));
    }
    OvershootBounded(maxAttempts, window, m, clock, es, AddressKey(ip));
    CountsAddressAndName(maxAttempts, window, clock, es, "", ip);
  }

  /** Entries after an instant, counted by their positions. */
  lemma {:induction false} LiveCount(ts: seq<int>, cutoff: int)
    ensures |Live(ts, cutoff)| == |set i | 0 <= i < |ts| && ts[i] > cutoff|
  {
    if ts != [] {
      var n := |ts| - 1;
      LiveCount(ts[..n], cutoff);
      var before, all := set i | 0 <= i < n && ts[..n][i] > cutoff, set i | 0 <= i < |ts| && ts[i] > cutoff;
      assert all == before + if ts[n] > cutoff then {n} else {};
    }
  }

  /** After maxAttempts failures from an address inside the window, no attempt from it is let in, under any name; and so for a name, from any address. */
  lemma {:induction false} ThrottlesBoth(maxAttempts: int, window: int, clock: int, es: seq<Event>, user: string, ip: string, now: int, id: int)
    requires var s := Run(maxAttempts, window, Fresh(clock), es); now >= s.clock && id !in s.flying
    requires
      var byIp, byName := FailuresOf(maxAttempts, window, clock, es, FromAddress(ip)), FailuresOf(maxAttempts, window, clock, es, WithName(user));
      || |set i | 0 <= i < |byIp| && byIp[i] > now - window| >= maxAttempts
      || |set i | 0 <= i < |byName| && byName[i] > now - window| >= maxAttempts
    ensures var s := Run(maxAttempts, window, Fresh(clock), es);
      && !SpecAllowed(s.log, ["user:" + user, "ip:" + ip], maxAttempts, window, now)
      && Next(maxAttempts, window, s, Begin(id, Attempt(user, ip), now)).flying == s.flying
  {
    var s, keys := Run(maxAttempts, window, Fresh(clock), es), ["user:" + user, "ip:" + ip];
    CountsAddressAndName(maxAttempts, window, clock, es, user, ip);
    LiveCount(FailuresOf(maxAttempts, window, clock, es, FromAddress(ip)), now - window);
    LiveCount(FailuresOf(maxAttempts, window, clock, es, WithName(user)), now - window);
    assert keys[0] in keys && keys[1] in keys && KeysOf(Attempt(user, ip)) == keys;
    assert !KeyAllowed(s.log, keys[0], maxAttempts, window, now) || !KeyAllowed(s.log, keys[1], maxAttempts, window, now);
  }

  /** And an attempt whose name and address both have fewer is let in. */
  lemma {:induction false} LetsIn(maxAttempts: int, window: int, clock: int, es: seq<Event>, user: string, ip: string, now: int)
    requires
      var byIp, byName := FailuresOf(maxAttempts, window, clock, es, FromAddress(ip)), FailuresOf(maxAttempts, window, clock, es, WithName(user));
      && |set i | 0 <= i < |byIp| && byIp[i] > now - window| < maxAttempts
      && |set i | 0 <= i < |byName| && byName[i] > now - window| < maxAttempts
    ensures SpecAllowed(Run(maxAttempts, window, Fresh(clock), es).log, ["user:" + user, "ip:" + ip], maxAttempts, window, now)
  {
    CountsAddressAndName(maxAttempts, window, clock, es, user, ip);
    LiveCount(FailuresOf(maxAttempts, window, clock, es, FromAddress(ip)), now - window);
    LiveCount(FailuresOf(maxAttempts, window, clock, es, WithName(user)), now - window);
  }
}
