/**
 * Login throttling: the pruned attempts map against the full failure log,
 * and how many failures concurrent logins can record.
 */
module Limiter {

  /** Failures per key since the key's last Reset, oldest first. */
  type Log = map<string, seq<int>>

  function Of(log: Log, k: string): (ts: seq<int>) { if k in log then log[k] else [] }

  /** The entries strictly newer than the cutoff: the definition, wherever they stand. */
  function Live(ts: seq<int>, cutoff: int): (live: seq<int>) {
    if ts == [] then []
    else Live(ts[..|ts| - 1], cutoff) + if ts[|ts| - 1] > cutoff then [ts[|ts| - 1]] else []
  }

  ghost predicate Sorted(ts: seq<int>) { forall i, j | 0 <= i < j < |ts| :: ts[i] <= ts[j] }

  predicate KeyAllowed(log: Log, k: string, maxAttempts: int, window: int, now: int) {
    |Live(Of(log, k), now - window)| < maxAttempts
  }

  /** Every key under the limit. */
  predicate SpecAllowed(log: Log, keys: seq<string>, maxAttempts: int, window: int, now: int) {
    forall k | k in keys :: KeyAllowed(log, k, maxAttempts, window, now)
  }

  /** Time until the oldest live failure of a blocked key ages out, 0 if the key is not blocked. */
  function KeyRetry(log: Log, k: string, maxAttempts: int, window: int, now: int): (d: int)
    requires maxAttempts > 0
  {
    var live := Live(Of(log, k), now - window);
    if |live| < maxAttempts then 0 else live[0] + window - now
  }

  /** The longest such time over the keys. */
  function SpecRetry(log: Log, keys: seq<string>, maxAttempts: int, window: int, now: int): (d: int)
    requires maxAttempts > 0
    ensures d >= 0
  {
    if keys == [] then 0
    else
      var rest := SpecRetry(log, keys[..|keys| - 1], maxAttempts, window, now);
      var d := KeyRetry(log, keys[|keys| - 1], maxAttempts, window, now);
      if d > rest then d else rest
  }

  lemma {:induction false} SpecRetryStep(log: Log, keys: seq<string>, i: nat, maxAttempts: int, window: int, now: int)
    requires maxAttempts > 0 && i < |keys|
    ensures var rest, d := SpecRetry(log, keys[..i], maxAttempts, window, now), KeyRetry(log, keys[i], maxAttempts, window, now);
      SpecRetry(log, keys[..i + 1], maxAttempts, window, now) == if d > rest then d else rest
  {
    assert keys[..i + 1][..i] == keys[..i] && keys[..i + 1][i] == keys[i];
  }

  function SpecRecord(log: Log, keys: seq<string>, now: int): (log': Log) {
    if keys == [] then log
    else
      var l := SpecRecord(log, keys[..|keys| - 1], now);
      l[keys[|keys| - 1] := Of(l, keys[|keys| - 1]) + [now]]
  }

  function SpecReset(log: Log, keys: seq<string>): (log': Log)
    ensures forall k :: Of(log', k) == if k in keys then [] else Of(log, k)
  {
    map k | k in log && k !in keys :: log[k]
  }

  // --- pruning ---

  /** The kept entries are the full log without a prefix of expired ones. */
  ghost predicate PrunedTo(kept: seq<int>, full: seq<int>, cutoff: int) {
    && |kept| <= |full|
    && kept == full[|full| - |kept|..]
    && forall i | 0 <= i < |full| - |kept| :: full[i] <= cutoff
  }

  lemma {:induction false} LiveLast(before: seq<int>, last: int, cutoff: int)
    ensures Live(before + [last], cutoff) == Live(before, cutoff) + if last > cutoff then [last] else []
  {
    assert (before + [last])[..|before|] == before;
  }

  /** In a sorted log the live entries are those from the first live one on. */
  lemma {:induction false} LiveFrom(full: seq<int>, cutoff: int, n: nat)
    requires Sorted(full) && n <= |full|
    requires (forall i | 0 <= i < n :: full[i] <= cutoff) && (n < |full| ==> full[n] > cutoff)
    ensures Live(full, cutoff) == full[n..]
  {
    if full != [] {
      var m := |full| - 1;
      var before, last := full[..m], full[m];
      assert full == before + [last];
      LiveLast(before, last, cutoff);
      if n <= m {
        assert full[n] <= last;
        LiveFrom(before, cutoff, n);
        assert full[n..] == before[n..] + [last];
      } else {
        LiveFrom(before, cutoff, m);
      }
    }
  }

  /** Dropping the leading expired entries of a sorted log leaves exactly the live ones. */
  lemma {:induction false} PruneIsLive(kept: seq<int>, full: seq<int>, cutoff: int)
    requires Sorted(full) && PrunedTo(kept, full, cutoff) && (kept != [] ==> kept[0] > cutoff)
    ensures kept == Live(full, cutoff)
  {
    var n := |full| - |kept|;
    assert kept != [] ==> kept[0] == full[n];
    LiveFrom(full, cutoff, n);
  }

  /** What the limiter keeps of one key, against its full log written by a clock that never went back. */
  ghost predicate KeyOk(kept: seq<int>, full: seq<int>, cutoff: int, clock: int) {
    Sorted(full) && (forall i | 0 <= i < |full| :: full[i] <= clock) && PrunedTo(kept, full, cutoff)
  }

  lemma {:induction false} PruneKey(kept: seq<int>, full: seq<int>, cutoff: int, clock: int, i: nat)
    requires KeyOk(kept, full, cutoff, clock)
    requires i <= |kept| && (forall j | 0 <= j < i :: kept[j] <= cutoff) && (i < |kept| ==> kept[i] > cutoff)
    ensures KeyOk(kept[i..], full, cutoff, clock) && kept[i..] == Live(full, cutoff)
  {
    var ts, n := kept[i..], |full| - |kept|;
    assert ts == full[|full| - |ts|..];
    forall j | 0 <= j < |full| - |ts| ensures full[j] <= cutoff {
      if j >= n { assert full[j] == kept[j - n]; }
    }
    PruneIsLive(ts, full, cutoff);
  }

  lemma {:induction false} AppendKey(kept: seq<int>, full: seq<int>, cutoff: int, now: int)
    requires KeyOk(kept, full, cutoff, now)
    ensures KeyOk(kept + [now], full + [now], cutoff, now)
  {
    assert (full + [now])[|full| - |kept|..] == kept + [now];
  }

  ghost predicate KeyOkAt(attempts: Log, log: Log, k: string, cutoff: int, clock: int) {
    KeyOk(Of(attempts, k), Of(log, k), cutoff, clock)
  }

  ghost predicate StoreOk(attempts: Log, log: Log, cutoff: int, clock: int) {
    && (forall k | k in attempts :: attempts[k] != [])
    && (forall k :: KeyOkAt(attempts, log, k, cutoff, clock))
  }

  /** The map with one key set, or deleted when nothing is left of it. */
  function SetKey(attempts: Log, key: string, ts: seq<int>): (r: Log)
    ensures forall k :: Of(r, k) == if k == key then ts else Of(attempts, k)
  {
    if |ts| == 0 then attempts - {key} else attempts[key := ts]
  }

  /** Replacing one key's entries, both kept and full, by others that agree. */
  lemma {:induction false} SetKeyOk(attempts: Log, log: Log, key: string, ts: seq<int>, full: seq<int>, cutoff: int, clock: int)
    requires StoreOk(attempts, log, cutoff, clock) && KeyOk(ts, full, cutoff, clock)
    ensures StoreOk(SetKey(attempts, key, ts), SetKey(log, key, full), cutoff, clock)
    ensures full == Of(log, key) ==> StoreOk(SetKey(attempts, key, ts), log, cutoff, clock)
  {
    forall k ensures KeyOkAt(SetKey(attempts, key, ts), SetKey(log, key, full), k, cutoff, clock) {
      assert KeyOkAt(attempts, log, k, cutoff, clock);
    }
    if full == Of(log, key) {
      forall k ensures KeyOkAt(SetKey(attempts, key, ts), log, k, cutoff, clock) {
        assert KeyOkAt(attempts, log, k, cutoff, clock);
      }
    }
  }

  lemma {:induction false} RecordKeyOk(attempts: Log, log: Log, k: string, live: seq<int>, cutoff: int, now: int)
    requires StoreOk(attempts, log, cutoff, now) && live == Of(attempts, k)
    ensures StoreOk(attempts[k := live + [now]], log[k := Of(log, k) + [now]], cutoff, now)
  {
    assert KeyOkAt(attempts, log, k, cutoff, now);
    AppendKey(Of(attempts, k), Of(log, k), cutoff, now);
    SetKeyOk(attempts, log, k, Of(attempts, k) + [now], Of(log, k) + [now], cutoff, now);
  }

  lemma {:induction false} ResetKeyOk(attempts: Log, log: Log, k: string, cutoff: int, clock: int)
    requires StoreOk(attempts, log, cutoff, clock)
    ensures StoreOk(attempts - {k}, log - {k}, cutoff, clock)
  {
    SetKeyOk(attempts, log, k, [], [], cutoff, clock);
  }

  /** Dropping a key's expired entries, and the key if nothing is left. */
  lemma {:induction false} PrunedStore(attempts: Log, log: Log, key: string, i: nat, cutoff: int, clock: int)
    requires StoreOk(attempts, log, cutoff, clock) && i <= |Of(attempts, key)|
    requires var all := Of(attempts, key); (forall j | 0 <= j < i :: all[j] <= cutoff) && (i < |all| ==> all[i] > cutoff)
    ensures var ts := Of(attempts, key)[i..];
      StoreOk(SetKey(attempts, key, ts), log, cutoff, clock) && ts == Live(Of(log, key), cutoff)
  {
    assert KeyOkAt(attempts, log, key, cutoff, clock);
    PruneKey(Of(attempts, key), Of(log, key), cutoff, clock, i);
    SetKeyOk(attempts, log, key, Of(attempts, key)[i..], Of(log, key), cutoff, clock);
  }

  lemma {:induction false} SpecResetNone(log: Log)
    ensures SpecReset(log, []) == log
  {
  }

  lemma {:induction false} SpecResetStep(log: Log, keys: seq<string>, i: nat)
    requires i < |keys|
    ensures SpecReset(log, keys[..i + 1]) == SpecReset(log, keys[..i]) - {keys[i]}
  {
    assert keys[..i + 1] == keys[..i] + [keys[i]];
  }

  lemma {:induction false} AdvanceOk(attempts: Log, log: Log, cutoff: int, clock: int, cutoff': int, clock': int)
    requires StoreOk(attempts, log, cutoff, clock) && cutoff <= cutoff' && clock <= clock'
    ensures StoreOk(attempts, log, cutoff', clock')
  {
    forall k ensures KeyOkAt(attempts, log, k, cutoff', clock') {
      assert KeyOkAt(attempts, log, k, cutoff, clock);
    }
  }

  const DEFAULT_MAX_ATTEMPTS := 5
  const DEFAULT_WINDOW := 15 * 60 * 1_000_000_000

  class Limiter {
    const maxAttempts: int
    const window: int
    var attempts: map<string, seq<int>>
    /** Every failure since the key's last Reset, never pruned. */
    ghost var log: Log
    /** The latest clock reading. */
    ghost var clock: int

    ghost predicate Valid()
      reads this
    {
      && maxAttempts > 0 && window > 0
      && StoreOk(attempts, log, clock - window, clock)
    }

    constructor (maxAttempts: int, window: int)
      ensures Valid() && log == map[] && attempts == map[]
      ensures this.maxAttempts == if maxAttempts <= 0 then 5 else maxAttempts
      ensures this.window == if window <= 0 then 15 * 60 * 1_000_000_000 else window
    {
      this.maxAttempts := if maxAttempts <= 0 then DEFAULT_MAX_ATTEMPTS else maxAttempts;
      this.window := if window <= 0 then DEFAULT_WINDOW else window;
      attempts, log, clock := map[], map[], 0;
    }

    /** Prunes one key and returns what is left of it. */
    method LiveLocked(key: string, cutoff: int) returns (ts: seq<int>)
      requires Valid() && cutoff == clock - window
      modifies `attempts
      ensures Valid()
      ensures ts == Of(attempts, key) && ts == Live(Of(log, key), cutoff)
    {
      var all := Of(attempts, key);
      var i := FirstLive(all, cutoff);
      ts := all[i..];
      PrunedStore(attempts, log, key, i, clock - window, clock);
      attempts := SetKey(attempts, key, ts);
      assert StoreOk(attempts, log, clock - window, clock);
    }

    /** How many leading entries have expired. */
    method FirstLive(all: seq<int>, cutoff: int) returns (i: nat)
      ensures i <= |all| && (forall j | 0 <= j < i :: all[j] <= cutoff) && (i < |all| ==> all[i] > cutoff)
    {
      i := 0;
      while i < |all| && all[i] <= cutoff
        invariant i <= |all| && forall j | 0 <= j < i :: all[j] <= cutoff
      {
        i := i + 1;
      }
    }

    /** The clock reading of a call. */
    ghost method Advance(now: int)
      requires Valid() && now >= clock
      modifies `clock
      ensures Valid() && clock == now
    {
      AdvanceOk(attempts, log, clock - window, clock, now - window, now);
      clock := now;
    }

    method AllowedOne(key: string, now: int) returns (ok: bool)
      requires Valid() && now == clock
      modifies `attempts
      ensures Valid()
      ensures ok <==> KeyAllowed(log, key, maxAttempts, window, now)
    {
      var live := LiveLocked(key, now - window);
      ok := |live| < maxAttempts;
    }

    method Allowed(keys: seq<string>, now: int) returns (ok: bool)
      requires Valid() && now >= clock
      modifies `attempts, `clock
      ensures Valid() && clock == now
      ensures ok <==> SpecAllowed(log, keys, maxAttempts, window, now)
    {
      Advance(now);
      var i := 0;
      while i < |keys|
        invariant 0 <= i <= |keys| && Valid() && clock == now
        invariant forall j | 0 <= j < i :: KeyAllowed(log, keys[j], maxAttempts, window, now)
      {
        var open := AllowedOne(keys[i], now);
        if !open {
          assert keys[i] in keys;
          return false;
        }
        i := i + 1;
      }
      return true;
    }

    method RecordFailure(keys: seq<string>, now: int)
      requires Valid() && now >= clock
      modifies `attempts, `clock, `log
      ensures Valid() && clock == now && log == SpecRecord(old(log), keys, now)
    {
      Advance(now);
      var i := 0;
      while i < |keys|
        invariant 0 <= i <= |keys| && Valid() && clock == now
        invariant log == SpecRecord(old(log), keys[..i], now)
      {
        assert keys[..i + 1][..i] == keys[..i] && keys[..i + 1][i] == keys[i];
        RecordOne(keys[i], now);
        i := i + 1;
      }
      assert keys[..i] == keys;
    }

    method RecordOne(k: string, now: int)
      requires Valid() && now == clock
      modifies `attempts, `log
      ensures Valid() && log == old(log)[k := Of(old(log), k) + [now]]
    {
      var live := LiveLocked(k, now - window);
      RecordKeyOk(attempts, log, k, live, clock - window, now);
      attempts, log := attempts[k := live + [now]], log[k := Of(log, k) + [now]];
      assert StoreOk(attempts, log, clock - window, clock);
    }

    method Reset(keys: seq<string>)
      requires Valid()
      modifies `attempts, `log
      ensures Valid() && log == SpecReset(old(log), keys)
    {
      ghost var log0 := log;
      SpecResetNone(log0);
      var i := 0;
      while i < |keys|
        invariant 0 <= i <= |keys| && Valid()
        invariant log == SpecReset(log0, keys[..i])
      {
        SpecResetStep(log0, keys, i);
        ResetKeyOk(attempts, log, keys[i], clock - window, clock);
        attempts := attempts - {keys[i]};
        log := log - {keys[i]};
        i := i + 1;
      }
      assert keys[..i] == keys;
    }

    method RetryOne(key: string, now: int) returns (d: int)
      requires Valid() && now == clock
      modifies `attempts
      ensures Valid()
      ensures d == KeyRetry(log, key, maxAttempts, window, now)
    {
      var live := LiveLocked(key, now - window);
      d := 0;
      if |live| >= maxAttempts { d := live[0] + window - now; }
    }

    method RetryAfter(keys: seq<string>, now: int) returns (longest: int)
      requires Valid() && now >= clock
      modifies `attempts, `clock
      ensures Valid() && clock == now
      ensures longest == SpecRetry(log, keys, maxAttempts, window, now)
    {
      Advance(now);
      longest := 0;
      var i := 0;
      while i < |keys|
        invariant 0 <= i <= |keys| && Valid() && clock == now
        invariant longest == SpecRetry(log, keys[..i], maxAttempts, window, now)
      {
        var d := RetryOne(keys[i], now);
        SpecRetryStep(log, keys, i, maxAttempts, window, now);
        if d > longest { longest := d; }
        i := i + 1;
      }
      assert keys[..i] == keys;
    }
  }
}
