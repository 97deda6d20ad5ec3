/** The login handler: the order of its calls on the limiter and the session table. */
module Login {
  import opened Wrappers
  import opened Limiter
  import opened Throttling
  import S = Sessions

  const NANOS := 1_000_000_000

  datatype Reply =
    | BadRequest
    | TooMany(retryAfter: int)
    | Unauthorized
    | Unavailable
    | LoggedIn(id: string, expiresAt: int)

  /** `Retry-After`: whole seconds of the wait, plus one. */
  function Header(retry: int): (h: int)
    requires retry >= 0
    ensures (h - 1) * NANOS <= retry < h * NANOS
  {
    retry / NANOS + 1
  }

  /** What the password store knows: the account a name belongs to, and whether a password fits a hash. */
  datatype Accounts = Accounts(byName: string -> Option<int>, fits: (string, string) -> bool)

  class Server {
    const limiter: Limiter
    const reg: S.Registry

    constructor (limiter: Limiter, reg: S.Registry)
      ensures this.limiter == limiter && this.reg == reg
    {
      this.limiter, this.reg := limiter, reg;
    }

    /**
     * The clock, in nanoseconds, reads `asked` at `Allowed`, `answered` at `RetryAfter` or `RecordFailure`, and
     * `created` for the new session. The body is readable JSON or not. `lookupFails` and `insertFails` are database
     * errors, `token` the fresh session id, if one could be made.
     */
    method HandleLogin(readable: bool, username: string, password: string, ip: string, accounts: Accounts,
                       lookupFails: bool, token: Option<string>, insertFails: bool, asked: int, answered: int, created: int)
      returns (reply: Reply)
      requires limiter.Valid() && limiter.clock <= asked <= answered <= created
      modifies limiter`attempts, limiter`clock, limiter`log, reg
      ensures limiter.Valid() && limiter.clock <= created
      ensures var keys, users, user := ["user:" + username, "ip:" + ip], old(reg.users), accounts.byName(username);
        var authentic := user.Some? && user.value in users && accounts.fits(users[user.value].passwordHash, password);
        var blank := !readable || username == "" || password == "";
        var open := SpecAllowed(old(limiter.log), keys, limiter.maxAttempts, limiter.window, asked);
        && (reply.BadRequest? <==> blank)
        && (reply.TooMany? <==> !blank && !open)
        && (reply.TooMany? ==>
              reply.retryAfter == Header(SpecRetry(limiter.log, keys, limiter.maxAttempts, limiter.window, answered)))
        && (reply.Unauthorized? <==> !blank && open && !lookupFails && !authentic)
        && (reply.LoggedIn? <==>
              && !blank && open && !lookupFails && authentic
              && token.Some? && !insertFails && token.value !in old(reg.sessions))
        && limiter.log ==
             (if reply.Unauthorized? then SpecRecord(old(limiter.log), keys, answered)
              else if reply.LoggedIn? then SpecReset(old(limiter.log), keys)
              else old(limiter.log))
      ensures reply.LoggedIn? ==>
        && reply.id == token.value && reply.expiresAt == created / 1_000_000_000 + 7 * 24 * 3600
        && reg.Tables() == S.Next(old(reg.Tables()),
             S.Create(reply.id, accounts.byName(username).value, reply.expiresAt), created / NANOS)
      ensures !reply.LoggedIn? ==> reg.Tables() == old(reg.Tables())
      ensures reply.TooMany? ==> var keys := ["user:" + username, "ip:" + ip];
        && limiter.clock == answered
        && forall t | answered <= t < answered + (reply.retryAfter - 1) * NANOS ::
             !SpecAllowed(limiter.log, keys, limiter.maxAttempts, limiter.window, t)
    {
      if !readable { return BadRequest; }
      if username == "" || password == "" { return BadRequest; }
      var keys := ["user:" + username, "ip:" + ip];
      var allowed := limiter.Allowed(keys, asked);
      if !allowed {
        var retry := limiter.RetryAfter(keys, answered);
        LimiterWaits(limiter, keys, answered);
        return TooMany(Header(retry));
      }
      if lookupFails { return Unavailable; }
      var user := accounts.byName(username);
      var found := user.Some? && user.value in reg.users;
      if !found || !accounts.fits(reg.users[user.value].passwordHash, password) {
        limiter.RecordFailure(keys, answered);
        return Unauthorized;
      }
      if token.None? { return Unavailable; }
      var expires := created / NANOS + S.SESSION_TTL;
      if insertFails { return Unavailable; }
      var ok := reg.CreateSession(token.value, user.value, expires, created / NANOS);
      if !ok { return Unavailable; }
      limiter.Reset(keys);
      return LoggedIn(token.value, expires);
    }
  }

  // --- what the replies mean ---

  /** The events of one login that nothing interleaves with, as the concurrent model has them. */
  function EventsOf(id: int, a: Attempt, reply: Reply, asked: int, answered: int): (es: seq<Event>) {
    match reply
    case BadRequest => []
    case TooMany(_) => [Begin(id, a, asked)]
    case Unauthorized => [Begin(id, a, asked), Fail(id, answered)]
    case Unavailable => [Begin(id, a, asked), Abort(id)]
    case LoggedIn(_, _) => [Begin(id, a, asked), Succeed(id)]
  }

  lemma {:induction false} Run1(maxAttempts: int, window: int, s: Logins, e: Event)
    ensures Run(maxAttempts, window, s, [e]) == Throttling.Next(maxAttempts, window, s, e)
  {
    assert Run(maxAttempts, window, s, [e][..0]) == s;
  }

  lemma {:induction false} Run2(maxAttempts: int, window: int, s: Logins, e: Event, f: Event)
    ensures Run(maxAttempts, window, s, [e, f]) ==
      Throttling.Next(maxAttempts, window, Throttling.Next(maxAttempts, window, s, e), f)
  {
    assert [e, f][..1] == [e];
    Run1(maxAttempts, window, s, e);
  }

  /** A handler's effect on the failure log is that of its events in the model whose overshoot is bounded. */
  lemma {:induction false} HandlerIsEvents(
      maxAttempts: int, window: int, s: Logins, id: int, a: Attempt, reply: Reply, asked: int, answered: int)
    requires s.clock <= asked <= answered && id !in s.flying && maxAttempts > 0
    requires !reply.BadRequest? ==> (reply.TooMany? <==> !SpecAllowed(s.log, KeysOf(a), maxAttempts, window, asked))
    ensures var s' := Run(maxAttempts, window, s, EventsOf(id, a, reply, asked, answered));
      && s'.flying == s.flying
      && s'.log ==
           (if reply.Unauthorized? then SpecRecord(s.log, KeysOf(a), answered)
            else if reply.LoggedIn? then SpecReset(s.log, KeysOf(a))
            else s.log)
  {
    if reply.TooMany? {
      Run1(maxAttempts, window, s, Begin(id, a, asked));
    } else if !reply.BadRequest? {
      var es := EventsOf(id, a, reply, asked, answered);
      Run2(maxAttempts, window, s, es[0], es[1]);
      assert s.flying[id := a] - {id} == s.flying;
    }
  }

  /** The failure log after logins refused with a 401, the k-th for `names[k]` at `times[k]`, all from one address. */
  function After401s(log: Log, names: seq<string>, ip: string, times: seq<int>): (log': Log)
    requires |names| == |times|
  {
    if names == [] then log
    else
      var n := |names| - 1;
      SpecRecord(After401s(log, names[..n], ip, times[..n]), ["user:" + names[n], "ip:" + ip], times[n])
  }

  lemma {:induction false} AddressRemembers(log: Log, names: seq<string>, ip: string, times: seq<int>)
    requires |names| == |times|
    ensures Of(After401s(log, names, ip, times), "ip:" + ip) == Of(log, "ip:" + ip) + times
  {
    if names != [] {
      var n := |names| - 1;
      AddressRemembers(log, names[..n], ip, times[..n]);
      var a := Attempt(names[n], ip);
      assert KeysOf(a) == ["user:" + names[n], "ip:" + ip];
      RecordOf(After401s(log, names[..n], ip, times[..n]), a, times[n], "ip:" + ip);
      AddressKeyOf(a, ip);
      assert times == times[..n] + [times[n]];
    }
  }

  lemma {:induction false} AllLive(before: seq<int>, times: seq<int>, cutoff: int)
    requires forall k | 0 <= k < |times| :: times[k] > cutoff
    ensures |Live(before + times, cutoff)| >= |times|
  {
    if times == [] {
      assert before + times == before;
    } else {
      var n := |times| - 1;
      assert before + times == (before + times[..n]) + [times[n]];
      LiveLast(before + times[..n], times[n], cutoff);
      AllLive(before, times[..n], cutoff);
    }
  }

  /** After maxAttempts 401s from an address inside the window, whatever names they were for, any name from it is answered 429. */
  lemma {:induction false} AddressAnswered429(log: Log, names: seq<string>, ip: string, times: seq<int>, maxAttempts: int, window: int, user: string, asked: int)
    requires |names| == |times| >= maxAttempts && forall k | 0 <= k < |times| :: times[k] > asked - window
    ensures !SpecAllowed(After401s(log, names, ip, times), ["user:" + user, "ip:" + ip], maxAttempts, window, asked)
  {
    var keys := ["user:" + user, "ip:" + ip];
    AddressRemembers(log, names, ip, times);
    AllLive(Of(log, "ip:" + ip), times, asked - window);
    assert keys[1] in keys && !KeyAllowed(After401s(log, names, ip, times), keys[1], maxAttempts, window, asked);
  }

  /**
   * A client that waits out the header is allowed exactly when, in every key at or over the limit, the live entry that
   * brings it back under has aged out by then; one that comes more than a second sooner than the wait's end never is.
   */
  lemma {:induction false} HeaderOutlastsBlockIff(log: Log, keys: seq<string>, maxAttempts: int, window: int, now: int)
    requires maxAttempts > 0 && LogOk(log, now)
    ensures var h := Header(SpecRetry(log, keys, maxAttempts, window, now));
      && (SpecAllowed(log, keys, maxAttempts, window, now + h * NANOS) <==>
          forall k | k in keys && Excess(log, k, maxAttempts, window, now) >= 0 ::
            Live(Of(log, k), now - window)[Excess(log, k, maxAttempts, window, now)] + window <= now + h * NANOS)
      && (forall t | now <= t < now + (h - 1) * NANOS :: !SpecAllowed(log, keys, maxAttempts, window, t))
  {
    var retry := SpecRetry(log, keys, maxAttempts, window, now);
    var h := Header(retry);
    AllowedLaterIff(log, keys, maxAttempts, window, now, now + h * NANOS);
    forall t | now <= t < now + (h - 1) * NANOS ensures !SpecAllowed(log, keys, maxAttempts, window, t) {
      BlockedUntilRetry(log, keys, maxAttempts, window, now, t);
    }
  }

  /** In particular when no key holds more live failures than the limit. */
  lemma {:induction false} HeaderOutlastsBlock(log: Log, keys: seq<string>, maxAttempts: int, window: int, now: int)
    requires maxAttempts > 0 && LogOk(log, now)
    requires forall k | k in keys :: Excess(log, k, maxAttempts, window, now) <= 0
    ensures SpecAllowed(log, keys, maxAttempts, window, now + Header(SpecRetry(log, keys, maxAttempts, window, now)) * NANOS)
  {
    var retry := SpecRetry(log, keys, maxAttempts, window, now);
    AllowedAtRetryExactly(log, keys, maxAttempts, window, now);
    StaysAllowed(log, keys, maxAttempts, window, now + retry, now + Header(retry) * NANOS);
  }

  /**
   * Two attempts let in together at a limit of 1, failing 1 and 100 seconds in: the header counts from the older failure,
   * and a client that waits it out is refused because of the newer one.
   */
  lemma {:induction false} OvershootOutlastsHeader(a: Attempt)
    ensures var window, now := 900 * NANOS, 100 * NANOS;
      var s := Run(1, window, Fresh(0), [Begin(0, a, 0), Begin(1, a, 0), Fail(0, NANOS), Fail(1, now)]);
      var h := Header(SpecRetry(s.log, KeysOf(a), 1, window, now));
      && h == 802 && !SpecAllowed(s.log, KeysOf(a), 1, window, now + h * NANOS)
  {
    var window, now := 900 * NANOS, 100 * NANOS;
    var s0 := Fresh(0);
    var e0, e1, e2, e3 := Begin(0, a, 0), Begin(1, a, 0), Fail(0, NANOS), Fail(1, now);
    var s1 := s0.(flying := map[0 := a]);
    var s2 := s0.(flying := map[0 := a, 1 := a]);
    assert Throttling.Next(1, window, s0, e0) == s1;
    assert Throttling.Next(1, window, s1, e1) == s2;
    var s3, s4 := Throttling.Next(1, window, s2, e2), Throttling.Next(1, window, Throttling.Next(1, window, s2, e2), e3);
    assert [e0, e1, e2, e3][..3] == [e0, e1, e2] && [e0, e1, e2][..2] == [e0, e1];
    Run2(1, window, s0, e0, e1);
    assert Run(1, window, s0, [e0, e1, e2]) == s3;
    assert Run(1, window, s0, [e0, e1, e2, e3]) == s4;
    forall k | k in KeysOf(a) ensures Of(s4.log, k) == [NANOS, now] {
      RecordOf(s2.log, a, NANOS, k);
      RecordOf(s3.log, a, now, k);
    }
    TwoLive(s4.log, a, window, now);
  }

  /** One key that failed at 1 s and at 100 s, under the limit 1. */
  lemma {:induction false} KeyLive(log: Log, k: string, window: int, now: int)
    requires window == 900 * NANOS && now == 100 * NANOS && Of(log, k) == [NANOS, now]
    ensures KeyRetry(log, k, 1, window, now) == 801 * NANOS
    ensures !KeyAllowed(log, k, 1, window, now + 802 * NANOS)
  {
    var ts := [NANOS, now];
    LiveFrom(ts, now - window, 0);
    LiveFrom(ts, now + 802 * NANOS - window, 1);
    assert ts[0..] == ts && ts[1..] == [now];
  }

  lemma {:induction false} TwoLive(log: Log, a: Attempt, window: int, now: int)
    requires window == 900 * NANOS && now == 100 * NANOS && forall k | k in KeysOf(a) :: Of(log, k) == [NANOS, now]
    ensures SpecRetry(log, KeysOf(a), 1, window, now) == 801 * NANOS
    ensures !SpecAllowed(log, KeysOf(a), 1, window, now + 802 * NANOS)
  {
    var keys := KeysOf(a);
    assert keys[0] in keys && keys[1] in keys;
    KeyLive(log, keys[0], window, now);
    KeyLive(log, keys[1], window, now);
    assert keys[..1] == [keys[0]] && keys[..1][..0] == [];
    assert SpecRetry(log, [], 1, window, now) == 0;
    assert SpecRetry(log, keys[..1], 1, window, now) == 801 * NANOS;
  }

  /** With no further failures, allowed keys stay allowed. */
  lemma {:induction false} StaysAllowed(log: Log, keys: seq<string>, maxAttempts: int, window: int, t: int, t': int)
    requires t <= t' && SpecAllowed(log, keys, maxAttempts, window, t)
    ensures SpecAllowed(log, keys, maxAttempts, window, t')
  {
    forall k | k in keys ensures KeyAllowed(log, k, maxAttempts, window, t') {
      LiveShrinks(Of(log, k), t - window, t' - window);
    }
  }

  /** After a login the next request under its id is accepted, and the new row keeps the sliding invariant. */
  lemma {:induction false} LoginOpensSession(s: S.Store, id: string, userId: int, clock: int, now: int)
    requires id !in s.sessions && userId in s.users && S.Sliding(s, clock) && clock <= now
    ensures var op := S.Create(id, userId, now + S.SESSION_TTL);
      && S.Sliding(S.Next(s, op, now), now)
      && S.Accepted(S.Next(s, op, now), id, now) == Some(S.Session(userId, now, now + S.SESSION_TTL, now))
  {
    S.SlidingKept(s, S.Create(id, userId, now + S.SESSION_TTL), clock, now);
  }
}
