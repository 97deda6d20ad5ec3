/** Schema migrations: one transaction each, resumed from wherever a failure or crash left the database. */
module Migrate {
  import opened Wrappers

  datatype Migration = Migration(version: int, stmts: seq<string>)

  /** What one SQL statement does to a schema; None when it cannot run on that schema. */
  type Sql<!S> = (S, string) -> Option<S>

  /** Versions are 1, 2, 3, … */
  predicate Dense(migs: seq<Migration>) { forall i | 0 <= i < |migs| :: migs[i].version == i + 1 }

  function ExecAll<S>(schema: S, stmts: seq<string>, exec: Sql<S>): (r: Option<S>) {
    if stmts == [] then Some(schema)
    else match ExecAll(schema, stmts[..|stmts| - 1], exec)
         case None => None
         case Some(s) => exec(s, stmts[|stmts| - 1])
  }

  /** The migrations applied one after the other. */
  function Fold<S>(schema: S, migs: seq<Migration>, exec: Sql<S>): (r: Option<S>) {
    if migs == [] then Some(schema)
    else match Fold(schema, migs[..|migs| - 1], exec)
         case None => None
         case Some(s) => ExecAll(s, migs[|migs| - 1].stmts, exec)
  }

  /** Database calls in a row of completed migrations: begin, statements, version bump, commit. */
  function Calls(migs: seq<Migration>): (n: nat) {
    if migs == [] then 0 else Calls(migs[..|migs| - 1]) + |migs[|migs| - 1].stmts| + 3
  }

  /** The schemas passed through, from `from` to `to`: every statement is run once, each on what the one before it left. */
  ghost predicate Chain<S>(states: seq<S>, from: S, stmts: seq<string>, to: S, exec: Sql<S>) {
    && |states| == |stmts| + 1 && states[0] == from && states[|stmts|] == to
    && forall i | 0 <= i < |stmts| :: exec(states[i], stmts[i]) == Some(states[i + 1])
  }

  lemma {:induction false} ExecAllIsChain<S(!new)>(from: S, stmts: seq<string>, to: S, exec: Sql<S>)
    ensures ExecAll(from, stmts, exec) == Some(to) <==> exists states :: Chain(states, from, stmts, to, exec)
  {
    if ExecAll(from, stmts, exec) == Some(to) { ChainOf(from, stmts, to, exec); }
    if states :| Chain(states, from, stmts, to, exec) { ChainRuns(states, from, stmts, to, exec); }
  }

  lemma {:induction false} ChainOf<S(!new)>(from: S, stmts: seq<string>, to: S, exec: Sql<S>)
    requires ExecAll(from, stmts, exec) == Some(to)
    ensures exists states :: Chain(states, from, stmts, to, exec)
  {
    if stmts == [] {
      assert Chain([from], from, stmts, to, exec);
    } else {
      var n := |stmts| - 1;
      var mid := ExecAll(from, stmts[..n], exec).value;
      ChainOf(from, stmts[..n], mid, exec);
      var states :| Chain(states, from, stmts[..n], mid, exec);
      assert forall i | 0 <= i < n :: exec(states[i], stmts[..n][i]) == Some(states[i + 1]);
      assert Chain(states + [to], from, stmts, to, exec);
    }
  }

  lemma {:induction false} ChainRuns<S(!new)>(states: seq<S>, from: S, stmts: seq<string>, to: S, exec: Sql<S>)
    requires Chain(states, from, stmts, to, exec)
    ensures ExecAll(from, stmts, exec) == Some(to)
    decreases |stmts|
  {
    if stmts != [] {
      var n := |stmts| - 1;
      ChainRuns(states[..|states| - 1], from, stmts[..n], states[n], exec);
    }
  }

  /** All statements of the migrations. */
  function Statements(migs: seq<Migration>): (stmts: seq<string>) {
    if migs == [] then [] else Statements(migs[..|migs| - 1]) + migs[|migs| - 1].stmts
  }

  /** Migration k's statements stand between those of the migrations before it and of those after it. */
  lemma {:induction false} StatementsInOrder(migs: seq<Migration>, k: nat)
    requires k < |migs|
    ensures Statements(migs) == Statements(migs[..k]) + migs[k].stmts + Statements(migs[k + 1..])
    decreases |migs|
  {
    var before := migs[..|migs| - 1];
    if k < |before| {
      StatementsInOrder(before, k);
      assert before[..k] == migs[..k] && before[k + 1..] == migs[k + 1..][..|migs| - k - 2];
    }
  }

  lemma {:induction false} ExecAllSplit<S>(schema: S, a: seq<string>, b: seq<string>, exec: Sql<S>)
    ensures match ExecAll(schema, a, exec)
      case None => ExecAll(schema, a + b, exec) == None
      case Some(s) => ExecAll(schema, a + b, exec) == ExecAll(s, b, exec)
  {
    if b == [] {
      assert a + b == a;
    } else {
      ExecAllSplit(schema, a, b[..|b| - 1], exec);
      assert (a + b)[..|a + b| - 1] == a + b[..|b| - 1];
    }
  }

  lemma {:induction false} FoldIsExecAll<S>(schema: S, migs: seq<Migration>, exec: Sql<S>)
    ensures Fold(schema, migs, exec) == ExecAll(schema, Statements(migs), exec)
    ensures Calls(migs) == |Statements(migs)| + 3 * |migs|
  {
    if migs != [] {
      var before := migs[..|migs| - 1];
      FoldIsExecAll(schema, before, exec);
      ExecAllSplit(schema, Statements(before), migs[|migs| - 1].stmts, exec);
    }
  }

  /** The fold runs every statement of every migration once, in order, each on what the one before it left, and nothing else. */
  lemma {:induction false} FoldIsChain<S(!new)>(from: S, migs: seq<Migration>, to: S, exec: Sql<S>)
    ensures Fold(from, migs, exec) == Some(to) <==> exists states :: Chain(states, from, Statements(migs), to, exec)
  {
    FoldIsExecAll(from, migs, exec);
    ExecAllIsChain(from, Statements(migs), to, exec);
  }

  datatype Db<S> = Db(schema: S, version: nat)

  /** A run from d can have committed the migrations up to v before database call number `fault`. */
  ghost predicate Reaches<S>(d: Db<S>, v: nat, migs: seq<Migration>, exec: Sql<S>, fault: nat) {
    && d.version <= v <= |migs|
    && Calls(migs[d.version..v]) < fault
    && Fold(d.schema, migs[d.version..v], exec).Some?
  }

  /**
   * What a run may do: call number `fault`, counted from the version read as 0, fails or is cut off by a crash; beyond
   * the last call nothing does. Whole migrations are in, nothing of the next one is, and the run went as far as it could.
   */
  ghost predicate Outcome<S(!new)>(d: Db<S>, d': Db<S>, ok: bool, migs: seq<Migration>, exec: Sql<S>, fault: nat) {
    if fault == 0 then d' == d && !ok
    else if d.version > |migs| then d' == d && ok
    else
      && Reaches(d, d'.version, migs, exec, fault)
      && Fold(d.schema, migs[d.version..d'.version], exec) == Some(d'.schema)
      && (ok <==> d'.version == |migs|)
      && (!ok ==> !Reaches(d, d'.version + 1, migs, exec, fault))
  }

  class Database<S(!new)> {
    var schema: S
    var version: nat

    constructor (schema: S)
      ensures State() == Db(schema, 0)
    {
      this.schema := schema;
      version := 0;
    }

    function State(): Db<S>
      reads this
    {
      Db(schema, version)
    }

    method ApplyMigrations(migs: seq<Migration>, exec: Sql<S>, fault: nat) returns (ok: bool)
      requires Dense(migs)
      modifies this
      ensures Outcome(old(State()), State(), ok, migs, exec, fault)
    {
      if fault == 0 { return false; }
      var current := version;
      ghost var d := State();
      var calls: nat := 1;
      var i := 0;
      while i < |migs|
        invariant 0 <= i <= |migs|
        invariant i <= current ==> State() == d && calls == 1
        invariant i > current ==> Stands(d, State(), calls, migs, exec, i)
        invariant calls <= fault
      {
        if migs[i].version > current {
          ghost var schema0, calls0 := schema, calls;
          if i == current { assert Stands(d, State(), calls, migs, exec, i); }
          ok, calls := Transaction(migs[i], exec, calls, fault);
          if ok {
            StandsNext(d, schema0, schema, calls0, migs, exec, i);
          } else {
            StandsHere(d, schema0, calls0, migs, exec, i, fault);
            return;
          }
        }
        i := i + 1;
      }
      ok := true;
    }

    /** One migration and its version bump: all of it, or nothing. */
    method Transaction(m: Migration, exec: Sql<S>, first: nat, fault: nat) returns (ok: bool, calls: nat)
      requires m.version >= 0 && first <= fault
      modifies this
      ensures ok <==> first + |m.stmts| + 3 <= fault && ExecAll(old(schema), m.stmts, exec).Some?
      ensures ok ==> ExecAll(old(schema), m.stmts, exec) == Some(schema) && version == m.version
      ensures ok ==> calls == first + |m.stmts| + 3
      ensures !ok ==> State() == old(State())
    {
      calls := first;
      if calls == fault { return false, calls; }
      calls := calls + 1;
      var tx := schema;
      var j := 0;
      while j < |m.stmts|
        invariant 0 <= j <= |m.stmts|
        invariant calls == first + 1 + j <= fault
        invariant ExecAll(schema, m.stmts[..j], exec) == Some(tx)
      {
        assert m.stmts[..j + 1][..j] == m.stmts[..j];
        if calls == fault { return false, calls; }
        var r := exec(tx, m.stmts[j]);
        if r.None? {
          StuckAt(schema, m.stmts, exec, j + 1);
          return false, calls;
        }
        tx := r.value;
        calls := calls + 1;
        j := j + 1;
      }
      assert m.stmts[..j] == m.stmts;
      if calls == fault { return false, calls; }
      calls := calls + 1;
      if calls == fault { return false, calls; }
      calls := calls + 1;
      schema, version := tx, m.version;
      ok := true;
    }
  }

  /** In the run from d, the migrations up to i are in and the next database call is number `calls`. */
  ghost predicate Stands<S(!new)>(d: Db<S>, d': Db<S>, calls: nat, migs: seq<Migration>, exec: Sql<S>, i: int) {
    && d.version <= i <= |migs| && d'.version == i
    && calls == 1 + Calls(migs[d.version..i])
    && Fold(d.schema, migs[d.version..i], exec) == Some(d'.schema)
  }

  lemma {:induction false} StandsNext<S(!new)>(d: Db<S>, schema: S, schema': S, calls: nat, migs: seq<Migration>, exec: Sql<S>, i: nat)
    requires i < |migs| && Stands(d, Db(schema, i), calls, migs, exec, i)
    requires ExecAll(schema, migs[i].stmts, exec) == Some(schema')
    ensures Stands(d, Db(schema', i + 1), calls + |migs[i].stmts| + 3, migs, exec, i + 1)
  {
    OneMore(migs, d.version, i);
  }

  /** A run that stops here has gone as far as it could. */
  lemma {:induction false} StandsHere<S(!new)>(d: Db<S>, schema: S, calls: nat, migs: seq<Migration>, exec: Sql<S>, i: nat, fault: nat)
    requires i < |migs| && Stands(d, Db(schema, i), calls, migs, exec, i) && calls <= fault
    requires !(calls + |migs[i].stmts| + 3 <= fault && ExecAll(schema, migs[i].stmts, exec).Some?)
    ensures Outcome(d, Db(schema, i), false, migs, exec, fault)
  {
    OneMore(migs, d.version, i);
  }

  lemma {:induction false} OneMore(migs: seq<Migration>, from: nat, i: nat)
    requires from <= i < |migs|
    ensures var more := migs[from..i + 1]; |more| == i + 1 - from && more[..|more| - 1] == migs[from..i] && more[|more| - 1] == migs[i]
  {
  }

  lemma {:induction false} SliceOfPrefix(migs: seq<Migration>, n: nat, a: nat, b: nat)
    requires a <= b <= n <= |migs|
    ensures migs[..n][a..b] == migs[a..b]
  {
  }

  lemma {:induction false} StuckAt<S>(schema: S, stmts: seq<string>, exec: Sql<S>, k: nat)
    requires k <= |stmts| && ExecAll(schema, stmts[..k], exec).None?
    ensures ExecAll(schema, stmts, exec).None?
    decreases |stmts|
  {
    if k < |stmts| {
      assert stmts[..|stmts| - 1][..k] == stmts[..k];
      StuckAt(schema, stmts[..|stmts| - 1], exec, k);
    } else {
      assert stmts[..k] == stmts;
    }
  }

  // --- one run ---

  lemma {:induction false} FoldSplit<S>(schema: S, migs: seq<Migration>, k: nat, exec: Sql<S>)
    requires k <= |migs|
    ensures Calls(migs) == Calls(migs[..k]) + Calls(migs[k..])
    ensures match Fold(schema, migs[..k], exec)
      case None => Fold(schema, migs, exec) == None
      case Some(s) => Fold(schema, migs, exec) == Fold(s, migs[k..], exec)
    decreases |migs|
  {
    if k < |migs| {
      var before := migs[..|migs| - 1];
      FoldSplit(schema, before, k, exec);
      assert before[..k] == migs[..k] && before[k..] == migs[k..][..|migs| - k - 1];
    } else {
      assert migs[..k] == migs;
    }
  }

  lemma {:induction false} ReachesEarlier<S(!new)>(d: Db<S>, v: nat, w: nat, migs: seq<Migration>, exec: Sql<S>, fault: nat)
    requires d.version <= v <= w && Reaches(d, w, migs, exec, fault)
    ensures Reaches(d, v, migs, exec, fault)
  {
    var all := migs[d.version..w];
    assert all[..v - d.version] == migs[d.version..v];
    FoldSplit(d.schema, all, v - d.version, exec);
  }

  /** Where a run ends is fixed by where it starts and which call fails. */
  lemma {:induction false} OutcomeUnique<S(!new)>(d: Db<S>, a: Db<S>, okA: bool, b: Db<S>, okB: bool, migs: seq<Migration>, exec: Sql<S>, fault: nat)
    requires Outcome(d, a, okA, migs, exec, fault) && Outcome(d, b, okB, migs, exec, fault)
    ensures a == b && okA == okB
  {
    if fault > 0 && d.version <= |migs| {
      if a.version < b.version { ReachesEarlier(d, a.version + 1, b.version, migs, exec, fault); }
      if b.version < a.version { ReachesEarlier(d, b.version + 1, a.version, migs, exec, fault); }
    }
  }

  /** Running again after a completed run changes nothing. */
  lemma {:induction false} RerunIsIdentity<S(!new)>(d: Db<S>, a: Db<S>, b: Db<S>, ok: bool, migs: seq<Migration>, exec: Sql<S>, f1: nat, f2: nat)
    requires Outcome(d, a, true, migs, exec, f1) && Outcome(a, b, ok, migs, exec, f2)
    ensures b == a && (ok <==> f2 > 0)
  {
    if f2 > 0 && a.version <= |migs| { assert Reaches(a, a.version, migs, exec, f2); }
  }

  // --- histories ---

  /** A start of the program, whose release knows the first n migrations, and what became of it. */
  datatype Launch<S> = Launch(n: nat, fault: nat, ok: bool, after: Db<S>)

  function After<S>(d: Db<S>, launches: seq<Launch<S>>): Db<S> {
    if launches == [] then d else launches[|launches| - 1].after
  }

  ghost predicate History<S(!new)>(d: Db<S>, all: seq<Migration>, exec: Sql<S>, launches: seq<Launch<S>>) {
    launches == [] ||
    (var before, last := launches[..|launches| - 1], launches[|launches| - 1];
      && last.n <= |all|
      && History(d, all, exec, before)
      && Outcome(After(d, before), last.after, last.ok, all[..last.n], exec, last.fault))
  }

  /** Exactly the first `version` migrations are in. */
  ghost predicate Holds<S(!new)>(base: S, d: Db<S>, all: seq<Migration>, exec: Sql<S>) {
    d.version <= |all| && Fold(base, all[..d.version], exec) == Some(d.schema)
  }

  lemma {:induction false} OutcomeHolds<S(!new)>(base: S, d: Db<S>, d': Db<S>, ok: bool, n: nat, all: seq<Migration>, exec: Sql<S>, fault: nat)
    requires n <= |all| && Holds(base, d, all, exec) && Outcome(d, d', ok, all[..n], exec, fault)
    ensures Holds(base, d', all, exec) && d.version <= d'.version
  {
    if d' != d {
      var migs := all[..n];
      var done := all[..d'.version];
      SliceOfPrefix(all, d'.version, 0, d.version);
      SliceOfPrefix(all, d'.version, d.version, d'.version);
      SliceOfPrefix(all, n, d.version, d'.version);
      FoldSplit(base, done, d.version, exec);
    }
  }

  /** Under any pattern of failures, crashes, upgrades and downgrades the schema is that of whole migrations, in order. */
  lemma {:induction false} SchemaMatchesVersion<S(!new)>(base: S, all: seq<Migration>, exec: Sql<S>, launches: seq<Launch<S>>)
    requires History(Db(base, 0), all, exec, launches)
    ensures Holds(base, After(Db(base, 0), launches), all, exec)
    ensures forall i | 0 <= i < |launches| :: launches[i].after.version <= After(Db(base, 0), launches).version
  {
    if launches != [] {
      var before, last := launches[..|launches| - 1], launches[|launches| - 1];
      SchemaMatchesVersion(base, all, exec, before);
      OutcomeHolds(base, After(Db(base, 0), before), last.after, last.ok, last.n, all, exec, last.fault);
      assert forall i | 0 <= i < |before| :: launches[i] == before[i];
    }
  }

  /** A run no fault reaches ends alike from every state whole migrations lead to. */
  lemma {:induction false} Confluent<S(!new)>(base: S, d: Db<S>, a: Db<S>, okA: bool, b: Db<S>, okB: bool, all: seq<Migration>, exec: Sql<S>, f1: nat, f2: nat)
    requires Holds(base, d, all, exec) && f1 > Calls(all) && f2 > Calls(all)
    requires Outcome(d, a, okA, all, exec, f1) && Outcome(Db(base, 0), b, okB, all, exec, f2)
    ensures a == b && okA == okB
  {
    assert all[..|all|] == all;
    OutcomeHolds(base, d, a, okA, |all|, all, exec, f1);
    assert all[0..b.version] == all[..b.version];
    Farthest(base, d, a, okA, all, exec, f1);
    Farthest(base, Db(base, 0), b, okB, all, exec, f2);
    if a.version < b.version { FoldsEarlier(base, a.version + 1, b.version, all, exec); }
    if b.version < a.version { FoldsEarlier(base, b.version + 1, a.version, all, exec); }
  }

  lemma {:induction false} FoldsEarlier<S(!new)>(base: S, v: nat, w: nat, all: seq<Migration>, exec: Sql<S>)
    requires v <= w <= |all| && Fold(base, all[..w], exec).Some?
    ensures Fold(base, all[..v], exec).Some?
  {
    assert all[..w][..v] == all[..v];
    FoldSplit(base, all[..w], v, exec);
  }

  /** Without a fault a run stops only where the next migration cannot run. */
  lemma {:induction false} Farthest<S(!new)>(base: S, d: Db<S>, a: Db<S>, ok: bool, all: seq<Migration>, exec: Sql<S>, fault: nat)
    requires Holds(base, d, all, exec) && fault > Calls(all) && Outcome(d, a, ok, all, exec, fault)
    ensures a.version < |all| ==> Fold(base, all[..a.version + 1], exec).None?
  {
    if a.version < |all| {
      var v, next := d.version, all[..a.version + 1];
      assert next[..v] == all[..v] && next[v..] == all[v..a.version + 1];
      FoldSplit(base, next, v, exec);
      FoldSplit(base, all, a.version + 1, exec);
    }
  }

  /** Whatever went before, a completed run leaves what one uninterrupted run on the first database would have. */
  lemma {:induction false} CompletedIsUninterrupted<S(!new)>(base: S, all: seq<Migration>, exec: Sql<S>, launches: seq<Launch<S>>, d: Db<S>, ok: bool, fault: nat)
    requires launches != [] && History(Db(base, 0), all, exec, launches)
    requires fault > Calls(all) && Outcome(Db(base, 0), d, ok, all, exec, fault)
    ensures var last := launches[|launches| - 1];
      last.n == |all| && (last.ok || last.fault > Calls(all)) ==> last.after == d && last.ok == ok
  {
    var before, last := launches[..|launches| - 1], launches[|launches| - 1];
    SchemaMatchesVersion(base, all, exec, before);
    SchemaMatchesVersion(base, all, exec, launches);
    if last.n == |all| {
      assert all[..last.n] == all;
      if last.ok {
        assert last.after.version == |all|;
        assert all[0..] == all;
        if d.version < |all| {
          Farthest(base, Db(base, 0), d, ok, all, exec, fault);
          FoldsEarlier(base, d.version + 1, |all|, all, exec);
        }
        assert all[0..d.version] == all;
      } else if last.fault > Calls(all) {
        Confluent(base, After(Db(base, 0), before), last.after, last.ok, d, ok, all, exec, last.fault, fault);
      }
    }
  }

  /** Upgrading in two stages is upgrading at once. */
  lemma {:induction false} StagedUpgrade<S(!new)>(
      base: S, a: seq<Migration>, b: seq<Migration>, exec: Sql<S>,
      d1: Db<S>, ok1: bool, f1: nat, d2: Db<S>, ok2: bool, f2: nat, d: Db<S>, ok: bool, f: nat)
    requires Outcome(Db(base, 0), d1, ok1, a, exec, f1)
    requires f2 > Calls(a + b) && Outcome(d1, d2, ok2, a + b, exec, f2)
    requires f > Calls(a + b) && Outcome(Db(base, 0), d, ok, a + b, exec, f)
    ensures d2 == d && ok2 == ok
  {
    assert (a + b)[..|a|] == a;
    OutcomeHolds(base, Db(base, 0), d1, ok1, |a|, a + b, exec, f1);
    Confluent(base, d1, d2, ok2, d, ok, a + b, exec, f2, f);
  }
}
