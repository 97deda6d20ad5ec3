/** Browser sessions: the table that expires rows lazily, against a table that drops them the instant they expire. */
module Sessions {
  import opened Wrappers

  datatype Session = Session(userId: int, createdAt: int, expiresAt: int, lastSeenAt: int)

  datatype User = User(passwordHash: string, updatedAt: int)

  /** The `sessions` and `admin_users` tables. */
  datatype Store = Store(sessions: map<string, Session>, users: map<int, User>)

  const SESSION_TTL := 7 * 24 * 3600
  const RENEW_AFTER := 3600

  datatype Op =
    | Create(id: string, userId: int, expiresAt: int)
    | Lookup(id: string)
    | Touch(id: string, expiresAt: int)
    | Delete(id: string)
    | Purge
    | SetPassword(userId: int, hash: string)
    | AddUser(userId: int, hash: string)
    | Use(id: string)

  predicate Live(s: Session, now: int) { now < s.expiresAt }

  // --- the code ---

  function Found(s: Store, id: string, now: int): (r: Option<Session>) {
    if id in s.sessions && Live(s.sessions[id], now) then Some(s.sessions[id]) else None
  }

  /** An expired row is deleted by the lookup that finds it. */
  function LookedUp(s: Store, id: string, now: int): Store {
    if id in s.sessions && !Live(s.sessions[id], now) then s.(sessions := s.sessions - {id}) else s
  }

  function Touched(s: Store, id: string, expiresAt: int, now: int): Store {
    if id in s.sessions
    then s.(sessions := s.sessions[id := s.sessions[id].(expiresAt := expiresAt, lastSeenAt := now)])
    else s
  }

  function Without(sessions: map<string, Session>, userId: int): map<string, Session> {
    map id | id in sessions && sessions[id].userId != userId :: sessions[id]
  }

  /** The session a request is accepted with: it is live and its owner exists. */
  function Accepted(s: Store, id: string, now: int): (r: Option<Session>) {
    var f := Found(s, id, now);
    if f.Some? && f.value.userId in s.users then f else None
  }

  /** The accepted request slides the expiry when the last write is long enough ago. */
  predicate Slides(s: Store, id: string, now: int) {
    Accepted(s, id, now).Some? && now - s.sessions[id].lastSeenAt > RENEW_AFTER
  }

  function Next(s: Store, op: Op, now: int): Store {
    match op
    case Create(id, userId, expiresAt) =>
      if id in s.sessions || userId !in s.users then s
      else s.(sessions := s.sessions[id := Session(userId, now, expiresAt, now)])
    case Lookup(id) => LookedUp(s, id, now)
    case Touch(id, expiresAt) => Touched(s, id, expiresAt, now)
    case Delete(id) => s.(sessions := s.sessions - {id})
    case Purge => s.(sessions := Unexpired(s.sessions, now))
    case SetPassword(userId, hash) =>
      if userId !in s.users then s
      else s.(users := s.users[userId := User(hash, now)], sessions := Without(s.sessions, userId))
    case AddUser(userId, hash) => if userId in s.users then s else s.(users := s.users[userId := User(hash, now)])
    case Use(id) =>
      if Slides(s, id, now) then Touched(s, id, now + SESSION_TTL, now) else LookedUp(s, id, now)
  }

  class Registry {
    var sessions: map<string, Session>
    var users: map<int, User>

    function Tables(): Store
      reads this
    {
      Store(sessions, users)
    }

    constructor ()
      ensures Tables() == Store(map[], map[])
    {
      sessions, users := map[], map[];
    }

    method CreateSession(id: string, userId: int, expiresAt: int, now: int) returns (ok: bool)
      modifies this
      ensures Tables() == Next(old(Tables()), Create(id, userId, expiresAt), now)
      ensures ok <==> id !in old(sessions) && userId in users
      ensures users == old(users)
      ensures sessions == if ok then old(sessions)[id := Session(userId, now, expiresAt, now)] else old(sessions)
    {
      if id in sessions || userId !in users { return false; }
      sessions := sessions[id := Session(userId, now, expiresAt, now)];
      return true;
    }

    method DeleteSession(id: string)
      modifies this
      ensures Tables() == Next(old(Tables()), Delete(id), 0)
      ensures users == old(users) && id !in sessions
      ensures forall x | x != id :: (x in sessions <==> x in old(sessions)) && (x in sessions ==> sessions[x] == old(sessions)[x])
    {
      sessions := sessions - {id};
    }

    method LookupSession(id: string, now: int) returns (r: Option<Session>)
      modifies this
      ensures Tables() == Next(old(Tables()), Lookup(id), now)
      ensures r == Found(old(Tables()), id, now)
      ensures r.Some? <==> id in old(sessions) && now < old(sessions)[id].expiresAt
      ensures r.Some? ==> r.value == old(sessions)[id] && sessions == old(sessions)
      ensures r.None? ==> id !in sessions
      ensures users == old(users)
      ensures forall x | x != id :: (x in sessions <==> x in old(sessions)) && (x in sessions ==> sessions[x] == old(sessions)[x])
    {
      if id !in sessions { return None; }
      var s := sessions[id];
      if now >= s.expiresAt {
        DeleteSession(id);
        return None;
      }
      return Some(s);
    }

    method TouchSession(id: string, expiresAt: int, now: int)
      modifies this
      ensures Tables() == Next(old(Tables()), Touch(id, expiresAt), now)
      ensures users == old(users)
      ensures id !in old(sessions) ==> sessions == old(sessions)
      ensures id in old(sessions) ==>
        sessions == old(sessions)[id := Session(old(sessions)[id].userId, old(sessions)[id].createdAt, expiresAt, now)]
    {
      if id in sessions {
        sessions := sessions[id := sessions[id].(lastSeenAt := now, expiresAt := expiresAt)];
      }
    }

    method PurgeExpiredSessions(now: int) returns (n: nat)
      modifies this
      ensures Tables() == Next(old(Tables()), Purge, now)
      ensures n == |old(sessions).Keys - sessions.Keys|
      ensures users == old(users)
      ensures forall x :: x in sessions <==> x in old(sessions) && now < old(sessions)[x].expiresAt
      ensures forall x | x in sessions :: sessions[x] == old(sessions)[x]
    {
      var kept := map id | id in sessions && !(sessions[id].expiresAt <= now) :: sessions[id];
      n := |sessions.Keys - kept.Keys|;
      sessions := kept;
      assert kept == Unexpired(old(sessions), now);
    }

    /** Update and revocation in one transaction. */
    method SetAdminPassword(userId: int, hash: string, now: int) returns (ok: bool)
      modifies this
      ensures Tables() == Next(old(Tables()), SetPassword(userId, hash), now)
      ensures ok <==> userId in old(users)
      ensures !ok ==> users == old(users) && sessions == old(sessions)
      ensures ok ==> users == old(users)[userId := User(hash, now)]
      ensures ok ==> forall x :: x in sessions <==> x in old(sessions) && old(sessions)[x].userId != userId
      ensures forall x | x in sessions :: sessions[x] == old(sessions)[x]
    {
      if userId !in users { return false; }
      users := users[userId := User(hash, now)];
      sessions := map id | id in sessions && sessions[id].userId != userId :: sessions[id];
      return true;
    }

    /** The account behind a request, with one clock reading. */
    method SessionUser(id: string, now: int) returns (r: Option<User>)
      modifies this
      ensures Tables() == Next(old(Tables()), Use(id), now)
      ensures r.Some? <==> Accepted(old(Tables()), id, now).Some?
      ensures r.Some? <==> id in old(sessions) && now < old(sessions)[id].expiresAt && old(sessions)[id].userId in users
      ensures r.Some? ==> r.value == users[old(sessions)[id].userId]
      ensures users == old(users)
      ensures r.Some? && now - old(sessions)[id].lastSeenAt > 3600 ==>
        sessions == old(sessions)[id := old(sessions)[id].(lastSeenAt := now, expiresAt := now + 7 * 24 * 3600)]
      ensures r.Some? && now - old(sessions)[id].lastSeenAt <= 3600 ==> sessions == old(sessions)
      ensures r.None? && id in sessions ==> sessions == old(sessions) && now < sessions[id].expiresAt
    {
      var sess := LookupSession(id, now);
      if sess.None? { return None; }
      if sess.value.userId !in users { return None; }
      var user := users[sess.value.userId];
      if now - sess.value.lastSeenAt > RENEW_AFTER {
        TouchSession(id, now + SESSION_TTL, now);
      }
      return Some(user);
    }
  }

  // --- the eager table ---

  /** The sessions not past their expiry. */
  function Unexpired(sessions: map<string, Session>, now: int): (r: map<string, Session>)
    ensures forall id :: id in r <==> id in sessions && Live(sessions[id], now)
    ensures forall id | id in r :: r[id] == sessions[id]
  {
    map id | id in sessions && Live(sessions[id], now) :: sessions[id]
  }

  /** A table in which expired sessions are simply not there. */
  function EagerNext(e: Store, op: Op, now: int): Store {
    var live := Unexpired(e.sessions, now);
    match op
    case Create(id, userId, expiresAt) =>
      if id !in live && userId in e.users then Store(live[id := Session(userId, now, expiresAt, now)], e.users)
      else Store(live, e.users)
    case Lookup(_) => Store(live, e.users)
    case Touch(id, expiresAt) =>
      if id in live then Store(live[id := live[id].(expiresAt := expiresAt, lastSeenAt := now)], e.users)
      else Store(live, e.users)
    case Delete(id) => Store(live - {id}, e.users)
    case Purge => Store(live, e.users)
    case SetPassword(userId, hash) =>
      if userId in e.users then Store(Without(live, userId), e.users[userId := User(hash, now)])
      else Store(live, e.users)
    case AddUser(userId, hash) =>
      Store(live, if userId in e.users then e.users else e.users[userId := User(hash, now)])
    case Use(id) =>
      if id in live && live[id].userId in e.users && now - live[id].lastSeenAt > RENEW_AFTER
      then Store(live[id := live[id].(expiresAt := now + SESSION_TTL, lastSeenAt := now)], e.users)
      else Store(live, e.users)
  }

  /** The two tables accept the same sessions from `now` on. */
  ghost predicate Agree(s: Store, e: Store, now: int) {
    s.users == e.users && Unexpired(s.sessions, now) == Unexpired(e.sessions, now)
  }

  /** The operation writes over, or collides with, a row that has expired but not been swept yet. */
  predicate Stale(s: Store, op: Op, now: int) {
    match op
    case Touch(id, expiresAt) => id in s.sessions && !Live(s.sessions[id], now) && now < expiresAt
    case Create(id, userId, expiresAt) => id in s.sessions && !Live(s.sessions[id], now) && now < expiresAt && userId in s.users
    case _ => false
  }

  lemma {:induction false} UnexpiredLater(a: map<string, Session>, b: map<string, Session>, t: int, now: int)
    requires Unexpired(a, t) == Unexpired(b, t) && t <= now
    ensures Unexpired(a, now) == Unexpired(b, now)
  {
    forall id ensures id in Unexpired(a, now) <==> id in Unexpired(b, now) {
      assert id in Unexpired(a, t) <==> id in Unexpired(b, t);
    }
    forall id | id in Unexpired(a, now) ensures a[id] == b[id] {
      assert Unexpired(a, t)[id] == Unexpired(b, t)[id];
    }
  }

  lemma {:induction false} UseUnexpired(s: Store, id: string, now: int)
    ensures Unexpired(Next(s, Use(id), now).sessions, now) == Unexpired(EagerNext(s, Use(id), now).sessions, now)
  {
  }

  lemma {:induction false} RevokeUnexpired(s: Store, userId: int, hash: string, now: int)
    ensures Unexpired(Next(s, SetPassword(userId, hash), now).sessions, now)
         == Unexpired(EagerNext(s, SetPassword(userId, hash), now).sessions, now)
  {
  }

  lemma {:induction false} WriteUnexpired(s: Store, op: Op, now: int)
    requires !Stale(s, op, now) && (op.Create? || op.Touch?)
    ensures Unexpired(Next(s, op, now).sessions, now) == Unexpired(EagerNext(s, op, now).sessions, now)
  {
  }

  lemma {:induction false} RemoveUnexpired(s: Store, op: Op, now: int)
    requires op.Lookup? || op.Delete? || op.Purge? || op.AddUser?
    ensures Unexpired(Next(s, op, now).sessions, now) == Unexpired(EagerNext(s, op, now).sessions, now)
  {
  }

  lemma {:induction false} SameUsers(s: Store, op: Op, now: int)
    ensures Next(s, op, now).users == EagerNext(s, op, now).users
  {
  }

  /** The live rows after an operation, from the live rows before it. */
  lemma {:induction false} NextUnexpired(s: Store, op: Op, now: int)
    requires !Stale(s, op, now)
    ensures Unexpired(Next(s, op, now).sessions, now) == Unexpired(EagerNext(s, op, now).sessions, now)
    ensures Next(s, op, now).users == EagerNext(s, op, now).users
  {
    SameUsers(s, op, now);
    match op
    case SetPassword(userId, hash) => RevokeUnexpired(s, userId, hash, now);
    case Use(id) => UseUnexpired(s, id, now);
    case Create(_, _, _) => WriteUnexpired(s, op, now);
    case Touch(_, _) => WriteUnexpired(s, op, now);
    case _ => RemoveUnexpired(s, op, now);
  }

  lemma {:induction false} EagerSeesLive(s: Store, e: Store, op: Op, now: int)
    requires Agree(s, e, now)
    ensures EagerNext(s, op, now) == EagerNext(e, op, now)
  {
  }

  /** One operation keeps the lazy and the eager table in agreement exactly when it is not stale. */
  lemma {:induction false} StepAgreesIff(s: Store, e: Store, op: Op, t: int, now: int)
    requires Agree(s, e, t) && t <= now
    ensures Agree(Next(s, op, now), EagerNext(e, op, now), now) <==> !Stale(s, op, now)
  {
    UnexpiredLater(s.sessions, e.sessions, t, now);
    EagerSeesLive(s, e, op, now);
    if Stale(s, op, now) {
      assert op.id in Unexpired(Next(s, op, now).sessions, now) <==> op.Touch?;
      assert op.id in Unexpired(EagerNext(e, op, now).sessions, now) <==> op.Create?;
    } else {
      NextUnexpired(s, op, now);
    }
  }

  // --- whole runs ---

  datatype Timed = Timed(op: Op, now: int)

  /** A clock that does not go back, from `t` on. */
  predicate Timely(run: seq<Timed>, t: int) {
    run == [] || (t <= run[0].now && Timely(run[1..], run[0].now))
  }

  /** At every point of the run the tables agree. */
  ghost predicate AgreeAlways(s: Store, e: Store, run: seq<Timed>)
    decreases |run|
  {
    run == [] ||
    (var s', e' := Next(s, run[0].op, run[0].now), EagerNext(e, run[0].op, run[0].now);
     Agree(s', e', run[0].now) && AgreeAlways(s', e', run[1..]))
  }

  predicate NeverStale(s: Store, run: seq<Timed>)
    decreases |run|
  {
    run == [] || (!Stale(s, run[0].op, run[0].now) && NeverStale(Next(s, run[0].op, run[0].now), run[1..]))
  }

  /** Lazy expiry with purging accepts the sessions of the eager table throughout a run exactly when no operation of the run is stale. */
  lemma {:induction false} LazyIsEagerIff(s: Store, e: Store, run: seq<Timed>, t: int)
    requires Agree(s, e, t) && Timely(run, t)
    ensures AgreeAlways(s, e, run) <==> NeverStale(s, run)
    decreases |run|
  {
    if run != [] {
      StepAgreesIff(s, e, run[0].op, t, run[0].now);
      if !Stale(s, run[0].op, run[0].now) {
        LazyIsEagerIff(Next(s, run[0].op, run[0].now), EagerNext(e, run[0].op, run[0].now), run[1..], run[0].now);
      }
    }
  }

  /** While the tables agree, a lookup answers the same from either. */
  lemma {:induction false} SameAnswers(s: Store, e: Store, id: string, t: int, now: int)
    requires Agree(s, e, t) && t <= now
    ensures Found(s, id, now) == Found(e, id, now) && Accepted(s, id, now) == Accepted(e, id, now)
  {
    UnexpiredLater(s.sessions, e.sessions, t, now);
    assert id in Unexpired(s.sessions, now) <==> id in Unexpired(e.sessions, now);
    if id in Unexpired(s.sessions, now) { assert Unexpired(s.sessions, now)[id] == Unexpired(e.sessions, now)[id]; }
  }

  /** Requests that take one clock reading are never stale: only bare touches and re-used ids can be. */
  lemma {:induction false} RequestsNeverStale(s: Store, run: seq<Timed>)
    requires forall i | 0 <= i < |run| :: !run[i].op.Touch?
    requires forall i, j | 0 <= i < j < |run| && run[i].op.Create? && run[j].op.Create? :: run[i].op.id != run[j].op.id
    requires forall i | 0 <= i < |run| && run[i].op.Create? :: run[i].op.id !in s.sessions
    ensures NeverStale(s, run)
    decreases |run|
  {
    if run != [] {
      RequestsNeverStale(Next(s, run[0].op, run[0].now), run[1..]);
    }
  }

  function After(s: Store, run: seq<Timed>): Store
    decreases |run|
  {
    if run == [] then s else After(Next(s, run[0].op, run[0].now), run[1..])
  }

  /** An id that is not stored stays out until it is created: touches, lookups and requests revive nothing. */
  lemma {:induction false} OnlyCreateAdds(s: Store, run: seq<Timed>, id: string)
    requires id !in s.sessions
    requires forall i | 0 <= i < |run| :: !(run[i].op.Create? && run[i].op.id == id)
    ensures id !in After(s, run).sessions
    decreases |run|
  {
    if run != [] { OnlyCreateAdds(Next(s, run[0].op, run[0].now), run[1..], id); }
  }

  /** Once deleted, or revoked by a password change of its owner, a session is refused for good unless created again. */
  lemma {:induction false} RevokedStaysRevoked(s: Store, op: Op, at: int, run: seq<Timed>, id: string, now: int)
    requires op == Delete(id) || (op.SetPassword? && op.userId in s.users && id in s.sessions && s.sessions[id].userId == op.userId)
    requires forall i | 0 <= i < |run| :: !(run[i].op.Create? && run[i].op.id == id)
    ensures Accepted(After(Next(s, op, at), run), id, now) == None
  {
    OnlyCreateAdds(Next(s, op, at), run, id);
  }

  const EMPTY := Store(map[], map[])

  /** A login, a last request, and a touch that lands the instant the session expires, on a row no one swept. */
  const LATE_TOUCH := [
    Timed(AddUser(1, ""), 0), Timed(Create("id", 1, SESSION_TTL), 0),
    Timed(Lookup("id"), SESSION_TTL - 1), Timed(Touch("id", 2 * SESSION_TTL), SESSION_TTL)]

  /** Such a touch brings the session back. */
  lemma {:induction false} LateTouchRevives()
    ensures Timely(LATE_TOUCH, 0)
    ensures Accepted(After(EMPTY, LATE_TOUCH[..3]), "id", SESSION_TTL) == None
    ensures Accepted(After(EMPTY, LATE_TOUCH), "id", SESSION_TTL).Some?
  {
    var r := LATE_TOUCH;
    assert r[1..][1..] == [r[2], r[3]] && [r[2], r[3]][1..] == [r[3]] && [r[3]][1..] == [];
    assert Timely([r[3]], r[2].now) && Timely([r[2], r[3]], r[1].now) && Timely(r[1..], 0);
    var s2 := Store(map["id" := Session(1, 0, SESSION_TTL, 0)], map[1 := User("", 0)]);
    AfterLast(EMPTY, LATE_TOUCH[..1]);
    AfterLast(EMPTY, LATE_TOUCH[..2]);
    AfterLast(EMPTY, LATE_TOUCH[..3]);
    AfterLast(EMPTY, LATE_TOUCH);
    assert LATE_TOUCH[..1][..0] == [] && LATE_TOUCH[..2][..1] == LATE_TOUCH[..1] && LATE_TOUCH[..3][..2] == LATE_TOUCH[..2];
    assert After(EMPTY, LATE_TOUCH[..1]) == Store(map[], map[1 := User("", 0)]);
    assert After(EMPTY, LATE_TOUCH[..2]) == s2;
    assert After(EMPTY, LATE_TOUCH[..3]) == s2;
  }

  // --- in terms of a session's history ---

  lemma {:induction false} AfterLast(s: Store, run: seq<Timed>)
    requires run != []
    ensures var before, last := run[..|run| - 1], run[|run| - 1];
      After(s, run) == Next(After(s, before), last.op, last.now)
    decreases |run|
  {
    if |run| > 1 {
      var s' := Next(s, run[0].op, run[0].now);
      AfterLast(s', run[1..]);
      assert run[1..][..|run| - 2] == run[..|run| - 1][1..];
    }
  }

  /** The expiry an operation sets on a session: a create that is accepted, a touch of a stored row, a request that slides it. */
  function Sets(s: Store, t: Timed, id: string): Option<int> {
    match t.op
    case Create(x, userId, expiresAt) => if x == id && id !in s.sessions && userId in s.users then Some(expiresAt) else None
    case Touch(x, expiresAt) => if x == id && id in s.sessions then Some(expiresAt) else None
    case Use(x) => if x == id && Slides(s, id, t.now) then Some(t.now + SESSION_TTL) else None
    case _ => None
  }

  /** A logout of the session, or a password change of its owner. */
  predicate Ends(t: Timed, id: string, userId: int) {
    t.op == Delete(id) || (t.op.SetPassword? && t.op.userId == userId)
  }

  /** Who the session was last created for, unless it was deleted or revoked since. */
  function Owner(run: seq<Timed>, id: string): (u: Option<int>) {
    if run == [] then None
    else
      var before, last := run[..|run| - 1], run[|run| - 1];
      if last.op.Create? && Sets(After(EMPTY, before), last, id).Some? then Some(last.op.userId)
      else
        var u := Owner(before, id);
        if u.Some? && Ends(last, id, u.value) then None else u
  }

  /** The last expiry set on the session. */
  function Expiry(run: seq<Timed>, id: string): (e: Option<int>) {
    if run == [] then None
    else
      var before, last := run[..|run| - 1], run[|run| - 1];
      var e := Sets(After(EMPTY, before), last, id);
      if e.Some? then e else Expiry(before, id)
  }

  /** The row against the history; `t` is the time of the last operation, or later. */
  ghost predicate RowIsHistory(s: Store, u: Option<int>, e: Option<int>, id: string, t: int) {
    && (u.Some? ==> u.value in s.users && e.Some?)
    && (if id in s.sessions then u == Some(s.sessions[id].userId) && e == Some(s.sessions[id].expiresAt)
        else u.Some? ==> e.value <= t)
  }

  lemma {:induction false} HistoryStep(s: Store, u: Option<int>, e: Option<int>, last: Timed, id: string, t: int)
    requires RowIsHistory(s, u, e, id, t) && t <= last.now
    ensures var e' := Sets(s, last, id);
      var u' := if last.op.Create? && e'.Some? then Some(last.op.userId) else if u.Some? && Ends(last, id, u.value) then None else u;
      RowIsHistory(Next(s, last.op, last.now), u', if e'.Some? then e' else e, id, last.now)
  {
  }

  /**
   * A session is accepted exactly when it was created, neither deleted nor revoked by a later password change of its
   * owner, and the last expiry set by a create, a touch or a request has not passed.
   */
  lemma {:induction false} AcceptedIffHistory(run: seq<Timed>, t: int, id: string, now: int)
    requires Timely(run, t) && t <= now && forall i | 0 <= i < |run| :: run[i].now <= now
    ensures Accepted(After(EMPTY, run), id, now).Some? <==>
      Owner(run, id).Some? && Expiry(run, id).Some? && now < Expiry(run, id).value
    ensures RowIsHistory(After(EMPTY, run), Owner(run, id), Expiry(run, id), id, now)
  {
    if run != [] {
      var n := |run| - 1;
      TimelyPrefix(run, t);
      var last := run[n];
      AcceptedIffHistory(run[..n], t, id, last.now);
      AfterLast(EMPTY, run);
      HistoryStep(After(EMPTY, run[..n]), Owner(run[..n], id), Expiry(run[..n], id), last, id, last.now);
    }
  }

  lemma {:induction false} TimelyPrefix(run: seq<Timed>, t: int)
    requires Timely(run, t) && run != []
    ensures var last := run[|run| - 1];
      Timely(run[..|run| - 1], t) && t <= last.now && forall i | 0 <= i < |run| :: run[i].now <= last.now
    decreases |run|
  {
    if |run| > 1 {
      TimelyPrefix(run[1..], run[0].now);
      assert run[..|run| - 1][1..] == run[1..][..|run| - 2];
      assert forall i | 1 <= i < |run| :: run[i] == run[1..][i - 1];
    }
  }

  // --- in terms of the operations alone ---

  /** The account was added. */
  predicate Known(run: seq<Timed>, userId: int) { exists i | 0 <= i < |run| :: run[i].op.AddUser? && run[i].op.userId == userId }

  /** Whose a session is, when it expires, and when it was last written. */
  datatype Life = Life(owner: int, expiry: int, seen: int)

  predicate Alive(l: Option<Life>, now: int) { l.Some? && now < l.value.expiry }

  /** A session's life as the operations tell it, no table in between. */
  function LifeOf(run: seq<Timed>, id: string): (l: Option<Life>) {
    if run == [] then None
    else
      var before, now := run[..|run| - 1], run[|run| - 1].now;
      var l := LifeOf(before, id);
      match run[|run| - 1].op
      case Create(x, userId, expiry) => if x == id && !Alive(l, now) && Known(before, userId) then Some(Life(userId, expiry, now)) else l
      case Touch(x, expiry) => if x == id && Alive(l, now) then Some(Life(l.value.owner, expiry, now)) else l
      case Use(x) =>
        if x == id && Alive(l, now) && now - l.value.seen > RENEW_AFTER then Some(Life(l.value.owner, now + SESSION_TTL, now)) else l
      case Delete(x) => if x == id then None else l
      case SetPassword(userId, _) => if l.Some? && l.value.owner == userId then None else l
      case _ => l
  }

  /** The stored row, while it is live, is the session's life. */
  ghost predicate RowIsLife(s: Store, l: Option<Life>, id: string, t: int) {
    && (l.Some? ==> l.value.owner in s.users)
    && (id in s.sessions ==> s.sessions[id].userId in s.users)
    && (Found(s, id, t).Some? <==> Alive(l, t))
    && (Alive(l, t) ==> s.sessions[id].userId == l.value.owner && s.sessions[id].expiresAt == l.value.expiry && s.sessions[id].lastSeenAt == l.value.seen)
  }

  lemma {:induction false} KnownUsers(run: seq<Timed>, userId: int)
    ensures Known(run, userId) <==> userId in After(EMPTY, run).users
  {
    if run != [] {
      var n := |run| - 1;
      KnownUsers(run[..n], userId);
      AfterLast(EMPTY, run);
      if Known(run[..n], userId) {
        var i :| 0 <= i < n && run[..n][i].op.AddUser? && run[..n][i].op.userId == userId;
        assert run[i].op.AddUser?;
      }
      if run[n].op.AddUser? && run[n].op.userId == userId { assert Known(run, userId); }
    }
  }

  /** A row that is dead stays dead, and so does a life, until an operation says otherwise. */
  lemma {:induction false} LifeLater(s: Store, l: Option<Life>, id: string, t: int, now: int)
    requires RowIsLife(s, l, id, t) && t <= now
    ensures RowIsLife(s, l, id, now)
  {
  }

  lemma {:induction false} LifeStep(s: Store, run: seq<Timed>, id: string)
    requires run != [] && s == After(EMPTY, run[..|run| - 1])
    requires var last := run[|run| - 1]; RowIsLife(s, LifeOf(run[..|run| - 1], id), id, last.now) && !Stale(s, last.op, last.now)
    ensures var last := run[|run| - 1]; RowIsLife(Next(s, last.op, last.now), LifeOf(run, id), id, last.now)
  {
    var last := run[|run| - 1];
    if last.op.Create? { KnownUsers(run[..|run| - 1], last.op.userId); }
  }

  lemma {:induction false} NeverStaleLast(s: Store, run: seq<Timed>)
    requires NeverStale(s, run) && run != []
    ensures var n := |run| - 1; NeverStale(s, run[..n]) && !Stale(After(s, run[..n]), run[n].op, run[n].now)
    decreases |run|
  {
    if |run| > 1 {
      NeverStaleLast(Next(s, run[0].op, run[0].now), run[1..]);
      assert run[..|run| - 1][1..] == run[1..][..|run| - 2];
    }
  }

  /**
   * On every run none of whose operations is stale, a session is accepted exactly when the operations alone say it lives:
   * created for an added account, neither deleted nor revoked since, and not past the expiry last set while it lived.
   */
  lemma {:induction false} AcceptedIffAlive(run: seq<Timed>, t: int, id: string, now: int)
    requires Timely(run, t) && NeverStale(EMPTY, run) && t <= now && forall i | 0 <= i < |run| :: run[i].now <= now
    ensures Accepted(After(EMPTY, run), id, now).Some? <==> Alive(LifeOf(run, id), now)
    ensures RowIsLife(After(EMPTY, run), LifeOf(run, id), id, now)
  {
    if run != [] {
      var n := |run| - 1;
      TimelyPrefix(run, t);
      NeverStaleLast(EMPTY, run);
      AcceptedIffAlive(run[..n], t, id, run[n].now);
      AfterLast(EMPTY, run);
      LifeStep(After(EMPTY, run[..n]), run, id);
      LifeLater(After(EMPTY, run), LifeOf(run, id), id, run[n].now, now);
    }
  }

  // --- sliding expiry ---

  /** Rows as logins and requests write them, with one clock reading each. */
  ghost predicate Sliding(s: Store, clock: int) {
    forall id | id in s.sessions ::
      s.sessions[id].expiresAt == s.sessions[id].lastSeenAt + SESSION_TTL && s.sessions[id].lastSeenAt <= clock
  }

  /** The operations of the running system: a login's expiry is its own clock reading plus the TTL. */
  predicate Login(op: Op, now: int) { !op.Touch? && (op.Create? ==> op.expiresAt == now + SESSION_TTL) }

  lemma {:induction false} SlidingKept(s: Store, op: Op, t: int, now: int)
    requires Sliding(s, t) && t <= now && Login(op, now)
    ensures Sliding(Next(s, op, now), now)
  {
  }

  /**
   * After an accepted use at `now` the session has between 7 days less an hour and 7 days left.
   * The use writes only when the last write is more than an hour ago, and then records itself.
   */
  lemma {:induction false} UseBounds(s: Store, id: string, now: int)
    requires Sliding(s, now) && Accepted(s, id, now).Some?
    ensures var s' := Next(s, Use(id), now);
      && id in s'.sessions
      && now + 604800 - 3600 <= s'.sessions[id].expiresAt <= now + 604800
      && s'.sessions[id].userId == s.sessions[id].userId && s'.users == s.users
      && (s'.sessions[id] != s.sessions[id] ==> now - s.sessions[id].lastSeenAt > 3600 && s'.sessions[id].lastSeenAt == now)
  {
  }

  /** The operation neither ends the session nor logs anyone in under its id. */
  predicate Spares(op: Op, id: string, userId: int) {
    match op
    case Delete(x) => x != id
    case SetPassword(u, _) => u != userId
    case Create(x, _, _) => x != id
    case _ => true
  }

  /** Every operation comes within TTL - RENEW_AFTER of the session's last use. */
  predicate InUse(run: seq<Timed>, id: string, userId: int, last: int)
    decreases |run|
  {
    run == [] ||
    (&& run[0].now < last + SESSION_TTL - RENEW_AFTER
     && Spares(run[0].op, id, userId)
     && InUse(run[1..], id, userId, if run[0].op == Use(id) then run[0].now else last))
  }

  ghost predicate AllLogins(run: seq<Timed>) { forall i | 0 <= i < |run| :: Login(run[i].op, run[i].now) }

  /** A session used at gaps below TTL - RENEW_AFTER never expires, whatever else happens meanwhile. */
  lemma {:induction false} InUseNeverExpires(s: Store, run: seq<Timed>, id: string, t: int, last: int)
    requires Sliding(s, t) && Timely(run, t) && AllLogins(run) && last <= t
    requires id in s.sessions && s.sessions[id].userId in s.users
    requires last + SESSION_TTL - RENEW_AFTER <= s.sessions[id].expiresAt
    requires InUse(run, id, s.sessions[id].userId, last)
    ensures forall i | 0 <= i < |run| && run[i].op == Use(id) :: Accepted(After(s, run[..i]), id, run[i].now).Some?
    decreases |run|
  {
    if run != [] {
      var op, now := run[0].op, run[0].now;
      var s' := Next(s, op, now);
      SlidingKept(s, op, t, now);
      assert Accepted(s, id, now).Some?;
      if op == Use(id) { UseBounds(s, id, now); }
      StepKeeps(s, op, id, now);
      InUseNeverExpires(s', run[1..], id, now, if op == Use(id) then now else last);
      forall i | 0 <= i < |run| && run[i].op == Use(id) ensures Accepted(After(s, run[..i]), id, run[i].now).Some? {
        if i > 0 {
          assert run[..i][1..] == run[1..][..i - 1];
          assert run[1..][i - 1] == run[i];
        }
      }
    }
  }

  lemma {:induction false} StepKeeps(s: Store, op: Op, id: string, now: int)
    requires id in s.sessions && Live(s.sessions[id], now) && Spares(op, id, s.sessions[id].userId) && !op.Touch?
    requires s.sessions[id].userId in s.users
    ensures var s' := Next(s, op, now);
      && id in s'.sessions && s'.sessions[id].userId == s.sessions[id].userId && s.sessions[id].userId in s'.users
      && (op != Use(id) ==> s'.sessions[id] == s.sessions[id])
  {
  }

  /** A session not used for a whole TTL is refused. */
  lemma {:induction false} DisuseExpires(s: Store, run: seq<Timed>, id: string, last: int, now: int)
    requires id in s.sessions ==> s.sessions[id].expiresAt <= last + SESSION_TTL
    requires forall i | 0 <= i < |run| :: run[i].op != Use(id) && !run[i].op.Touch? && !(run[i].op.Create? && run[i].op.id == id)
    requires now >= last + SESSION_TTL
    ensures Accepted(After(s, run), id, now) == None
    decreases |run|
  {
    if run != [] { DisuseExpires(Next(s, run[0].op, run[0].now), run[1..], id, last, now); }
  }
}
