/** Whether the ticks of a site are announced in the order they were committed. */
module Ordering {
  import opened Scheduler

  /** The entries of a commit or announcement list that belong to a site's loops. */
  function OfSite(loops: seq<Loop>, log: seq<nat>, site: string): (own: seq<nat>) {
    if log == [] then []
    else
      var i := log[|log| - 1];
      OfSite(loops, log[..|log| - 1], site) + if i < |loops| && loops[i].site == site then [i] else []
  }

  /**
   * What was announced for the site is a prefix of what was committed. Each loop announces its own ticks in the order it
   * commits them (`Scheduler.AnnouncedOnce`), so entries name the same ticks.
   */
  ghost predicate Kept(w: World, site: string) { OfSite(w.loops, w.hooks, site) <= OfSite(w.loops, w.commits, site) }

  /** A list names only loops there are. */
  ghost predicate Below(log: seq<nat>, n: nat) { forall k | 0 <= k < |log| :: log[k] < n }

  ghost predicate Indexed(w: World) { Below(w.commits, |w.loops|) && Below(w.hooks, |w.loops|) }

  /** At most one loop of the site has not returned. */
  ghost predicate OneLive(loops: seq<Loop>, site: string) {
    forall i, j | 0 <= i < j < |loops| && loops[i].site == site && loops[j].site == site ::
      loops[i].phase.Returned? || loops[j].phase.Returned?
  }

  ghost predicate Announcing(l: Loop, site: string) { l.site == site && l.phase.Notifying? }

  /** Everything committed for the site is announced, but for the tick a loop is announcing now. */
  ghost predicate Aligned(w: World, site: string) {
    var commits, hooks := OfSite(w.loops, w.commits, site), OfSite(w.loops, w.hooks, site);
    || (commits == hooks && forall i | 0 <= i < |w.loops| :: !Announcing(w.loops[i], site))
    || (exists i | 0 <= i < |w.loops| :: Announcing(w.loops[i], site) && commits == hooks + [i])
  }

  // --- the lists as loops go on ---

  lemma {:induction false} OfSiteSame(a: seq<Loop>, b: seq<Loop>, log: seq<nat>, site: string)
    requires |a| <= |b| && (forall i | 0 <= i < |a| :: a[i].site == b[i].site) && Below(log, |a|)
    ensures OfSite(a, log, site) == OfSite(b, log, site)
  {
    if log != [] { OfSiteSame(a, b, log[..|log| - 1], site); }
  }

  lemma {:induction false} OfSiteSnoc(loops: seq<Loop>, log: seq<nat>, i: nat, site: string)
    ensures OfSite(loops, log + [i], site) == OfSite(loops, log, site) + if i < |loops| && loops[i].site == site then [i] else []
  {
    assert (log + [i])[..|log|] == log;
  }

  /** A manager's call keeps the loops there are, but for their cancellation, and both lists. */
  lemma {:induction false} ManagedLoops(w: World, a: Act)
    requires Manages(a)
    ensures var w' := Next(w, a);
      && w'.commits == w.commits && w'.hooks == w.hooks
      && |w'.loops| == |w.loops| + (if a.StartSite? then 1 else 0)
      && (forall i | 0 <= i < |w.loops| :: w'.loops[i].site == w.loops[i].site && w'.loops[i].phase == w.loops[i].phase)
      && (a.StartSite? ==> w'.loops[|w.loops|].site == a.site && w'.loops[|w.loops|].phase == Opening)
  {
  }

  lemma {:induction false} IndexedNext(w: World, a: Act)
    requires Indexed(w)
    ensures Indexed(Next(w, a))
  {
    if Manages(a) { ManagedLoops(w, a); }
  }

  // --- order is kept while a site's loops do not overlap ---

  ghost predicate AllReturned(w: World, site: string) {
    forall i | 0 <= i < |w.loops| && w.loops[i].site == site :: w.loops[i].phase.Returned?
  }

  /** Every start of the site comes when all its earlier loops have returned. */
  ghost predicate Exclusive(acts: seq<Act>, site: string) {
    acts == [] ||
    (var before, last := acts[..|acts| - 1], acts[|acts| - 1];
      Exclusive(before, site) && (last.StartSite? && last.site == site ==> AllReturned(Exec(INIT, before), site)))
  }

  ghost predicate Orderly(w: World, site: string) { Indexed(w) && OneLive(w.loops, site) && Aligned(w, site) }

  lemma {:induction false} ManagedOrderly(w: World, a: Act, site: string)
    requires Orderly(w, site) && Manages(a) && (a.StartSite? && a.site == site ==> AllReturned(w, site))
    ensures Orderly(Next(w, a), site)
  {
    var w' := Next(w, a);
    ManagedLoops(w, a);
    IndexedNext(w, a);
    OfSiteSame(w.loops, w'.loops, w.commits, site);
    OfSiteSame(w.loops, w'.loops, w.hooks, site);
    if i :| 0 <= i < |w.loops| && Announcing(w.loops[i], site) && OfSite(w.loops, w.commits, site) == OfSite(w.loops, w.hooks, site) + [i] {
      assert Announcing(w'.loops[i], site);
    }
  }

  /** Both lists of a site after loop i took a step. */
  lemma {:induction false} MovedLists(w: World, i: nat, l: Loop, committed: bool, announced: bool, site: string)
    requires Indexed(w) && i < |w.loops| && l.site == w.loops[i].site
    ensures var w' := Moved(w, i, l, committed, announced);
      var own := if l.site == site then [i] else [];
      && Indexed(w')
      && OfSite(w'.loops, w'.commits, site) == OfSite(w.loops, w.commits, site) + (if committed then own else [])
      && OfSite(w'.loops, w'.hooks, site) == OfSite(w.loops, w.hooks, site) + (if announced then own else [])
  {
    var w' := Moved(w, i, l, committed, announced);
    OfSiteSame(w.loops, w'.loops, w.commits, site);
    OfSiteSame(w.loops, w'.loops, w.hooks, site);
    OfSiteSnoc(w'.loops, w.commits, i, site);
    OfSiteSnoc(w'.loops, w.hooks, i, site);
  }

  lemma {:induction false} OtherMoved(w: World, i: nat, l: Loop, committed: bool, announced: bool, site: string)
    requires Orderly(w, site) && i < |w.loops| && l.site == w.loops[i].site != site
    ensures Orderly(Moved(w, i, l, committed, announced), site)
  {
    var w' := Moved(w, i, l, committed, announced);
    MovedLists(w, i, l, committed, announced, site);
    if k :| 0 <= k < |w.loops| && Announcing(w.loops[k], site) && OfSite(w.loops, w.commits, site) == OfSite(w.loops, w.hooks, site) + [k] {
      assert Announcing(w'.loops[k], site);
    }
  }

  /** Of an orderly site only the loop that runs can be announcing. */
  lemma {:induction false} OnlyAnnouncer(w: World, i: nat, site: string)
    requires OneLive(w.loops, site) && Aligned(w, site)
    requires i < |w.loops| && w.loops[i].site == site && !w.loops[i].phase.Returned?
    ensures forall k | 0 <= k < |w.loops| && k != i :: !Announcing(w.loops[k], site)
    ensures OfSite(w.loops, w.commits, site) == OfSite(w.loops, w.hooks, site) + if Announcing(w.loops[i], site) then [i] else []
  {
  }

  lemma {:induction false} OwnMoved(w: World, i: nat, l: Loop, committed: bool, announced: bool)
    requires i < |w.loops| && Orderly(w, l.site) && l.site == w.loops[i].site && !w.loops[i].phase.Returned?
    requires Pending(l) == Pending(w.loops[i]) + (if committed then 1 else 0) - if announced then 1 else 0
    requires !(committed && announced)
    ensures Orderly(Moved(w, i, l, committed, announced), l.site)
  {
    var w' := Moved(w, i, l, committed, announced);
    MovedLists(w, i, l, committed, announced, l.site);
    OnlyAnnouncer(w, i, l.site);
    assert forall k | 0 <= k < |w.loops| && k != i :: w'.loops[k] == w.loops[k];
    if Announcing(l, l.site) { assert Announcing(w'.loops[i], l.site); }
  }

  lemma {:induction false} StepOrderly(w: World, a: Act, site: string)
    requires Orderly(w, site) && (a.StartSite? && a.site == site ==> AllReturned(w, site))
    ensures Orderly(Next(w, a), site)
  {
    if Manages(a) {
      ManagedOrderly(w, a, site);
    } else if a.i < |w.loops| && LoopNext(w.loops[a.i], a).Some? {
      SameLoop(w.loops[a.i], a);
      PendingNext(w.loops[a.i], a);
      var l := LoopNext(w.loops[a.i], a).value;
      if l.site == site {
        OwnMoved(w, a.i, l, a.Record? && a.ok, a.Notify?);
      } else {
        OtherMoved(w, a.i, l, a.Record? && a.ok, a.Notify?, site);
      }
    }
  }

  /**
   * In every interleaving: if no start of the site comes while an earlier loop of it has still to return, its ticks are
   * announced in the order they were committed.
   */
  lemma {:induction false} OrderKeptIfReturned(acts: seq<Act>, site: string)
    requires Exclusive(acts, site)
    ensures Orderly(Exec(INIT, acts), site) && Kept(Exec(INIT, acts), site)
  {
    if acts != [] {
      OrderKeptIfReturned(acts[..|acts| - 1], site);
      StepOrderly(Exec(INIT, acts[..|acts| - 1]), acts[|acts| - 1], site);
    }
  }

  // --- two live loops can always break it ---

  /** One act of loop i. */
  lemma {:induction false} LoopActs(w: World, acts: seq<Act>, a: Act, i: nat) returns (acts': seq<Act>)
    requires !Manages(a) && a.i == i
    requires var w' := Exec(w, acts); i < |w'.loops| && LoopNext(w'.loops[i], a).Some?
    ensures acts' == acts + [a]
    ensures var w', w'' := Exec(w, acts), Exec(w, acts');
      && w''.loops == w'.loops[i := LoopNext(w'.loops[i], a).value]
      && LoopNext(w'.loops[i], a).value.site == w'.loops[i].site
  {
    acts' := acts + [a];
    ExecSnoc(w, acts, a);
    SameLoop(Exec(w, acts).loops[i], a);
  }

  ghost predicate OnlyLoops(acts: seq<Act>) { forall k | 0 <= k < |acts| :: !Manages(acts[k]) }

  /** The loops of w', but for number i, are those of w. */
  ghost predicate OthersSame(w: World, w': World, i: nat) {
    && i < |w.loops| == |w'.loops| && w'.loops[i].site == w.loops[i].site
    && forall k | 0 <= k < |w.loops| && k != i :: w'.loops[k] == w.loops[k]
  }

  /** A loop that has not returned can come to where its next tick begins, or past it. */
  lemma {:induction false} ToStart(w: World, i: nat) returns (acts: seq<Act>)
    requires i < |w.loops| && !w.loops[i].phase.Returned?
    ensures OnlyLoops(acts) && OthersSame(w, Exec(w, acts), i)
    ensures var p := Exec(w, acts).loops[i].phase; p.Starting? || p.Waiting? || p.Recording? || p.Notifying?
  {
    acts := [];
    if w.loops[i].phase.Opening? {
      acts := LoopActs(w, acts, Open(i, true), i);
    } else if w.loops[i].phase.Checking? {
      acts := LoopActs(w, acts, Panic(i), i);
    }
  }

  /** From there it can run its checks. */
  lemma {:induction false} ToRecording(w: World, i: nat) returns (acts: seq<Act>)
    requires i < |w.loops|
    requires var p := w.loops[i].phase; p.Starting? || p.Waiting? || p.Recording? || p.Notifying?
    ensures OnlyLoops(acts) && OthersSame(w, Exec(w, acts), i)
    ensures var p := Exec(w, acts).loops[i].phase; p.Recording? || p.Notifying?
  {
    acts := [];
    if w.loops[i].phase.Starting? || w.loops[i].phase.Waiting? {
      acts := LoopActs(w, acts, Begin(i, 0), i);
      acts := LoopActs(w, acts, Finish(i, 0), i);
    }
  }

  /** So any loop that has not returned can come to have a tick committed and not yet announced. */
  lemma {:induction false} ToNotifying(w: World, i: nat) returns (acts: seq<Act>)
    requires i < |w.loops| && !w.loops[i].phase.Returned?
    ensures OnlyLoops(acts) && OthersSame(w, Exec(w, acts), i) && Exec(w, acts).loops[i].phase.Notifying?
  {
    var a := ToStart(w, i);
    var w1 := Exec(w, a);
    var b := ToRecording(w1, i);
    var w2 := Exec(w1, b);
    ExecConcat(w, a, b);
    acts := a + b;
    if w2.loops[i].phase.Recording? {
      acts := LoopActs(w, acts, Record(i, true), i);
    }
  }

  /** Two loops of a site with a tick each to announce: announcing one of them first breaks the order. */
  lemma {:induction false} OneBreaks(w: World, i: nat, j: nat, site: string) returns (a: Act)
    requires i < |w.loops| && j < |w.loops| && i != j && Announcing(w.loops[i], site) && Announcing(w.loops[j], site)
    ensures !Manages(a) && !Kept(Next(w, a), site)
  {
    Announced1(w, i, site);
    Announced1(w, j, site);
    var commits, hooks := OfSite(w.loops, w.commits, site), OfSite(w.loops, w.hooks, site);
    a := if hooks + [i] <= commits then Notify(j) else Notify(i);
    if hooks + [i] <= commits {
      assert (hooks + [i])[|hooks|] == i && (hooks + [j])[|hooks|] == j;
    }
  }

  lemma {:induction false} Announced1(w: World, i: nat, site: string)
    requires i < |w.loops| && Announcing(w.loops[i], site)
    ensures var w' := Next(w, Notify(i));
      && OfSite(w'.loops, w'.commits, site) == OfSite(w.loops, w.commits, site)
      && OfSite(w'.loops, w'.hooks, site) == OfSite(w.loops, w.hooks, site) + [i]
  {
    var w' := Next(w, Notify(i));
    OfSiteSites(w.loops, w'.loops, w.commits, site);
    OfSiteSites(w.loops, w'.loops, w.hooks, site);
    OfSiteSnoc(w'.loops, w.hooks, i, site);
  }

  lemma {:induction false} OfSiteSites(a: seq<Loop>, b: seq<Loop>, log: seq<nat>, site: string)
    requires |a| == |b| && forall i | 0 <= i < |a| :: a[i].site == b[i].site
    ensures OfSite(a, log, site) == OfSite(b, log, site)
  {
    if log != [] { OfSiteSites(a, b, log[..|log| - 1], site); }
  }

  /** From any world in which two loops of a site have not returned, their ticks can be announced out of order. */
  lemma {:induction false} OverlapBreaksOrder(w: World, i: nat, j: nat, site: string) returns (acts: seq<Act>)
    requires i < |w.loops| && j < |w.loops| && i != j && w.loops[i].site == w.loops[j].site == site
    requires !w.loops[i].phase.Returned? && !w.loops[j].phase.Returned?
    ensures OnlyLoops(acts) && !Kept(Exec(w, acts), site)
  {
    var a := ToNotifying(w, i);
    var w1 := Exec(w, a);
    var b := ToNotifying(w1, j);
    ExecConcat(w, a, b);
    var w2 := Exec(w1, b);
    var last := OneBreaks(w2, i, j, site);
    ExecSnoc(w, a + b, last);
    acts := a + b + [last];
  }

  // --- in terms of the manager's calls ---

  /** The manager's calls in an interleaving. */
  function CallsOf(acts: seq<Act>): (calls: seq<Act>) {
    if acts == [] then [] else CallsOf(acts[..|acts| - 1]) + if Manages(acts[|acts| - 1]) then [acts[|acts| - 1]] else []
  }

  function Starts(acts: seq<Act>, site: string): (n: nat) {
    if acts == [] then 0
    else Starts(acts[..|acts| - 1], site) + if acts[|acts| - 1].StartSite? && acts[|acts| - 1].site == site then 1 else 0
  }

  lemma {:induction false} StartsOfCalls(acts: seq<Act>, site: string)
    ensures Starts(CallsOf(acts), site) == Starts(acts, site)
  {
    if acts != [] {
      var before, last := acts[..|acts| - 1], acts[|acts| - 1];
      StartsOfCalls(before, site);
      var calls := CallsOf(before);
      if Manages(last) { assert (calls + [last])[..|calls|] == calls; } else { assert CallsOf(acts) == calls; }
    }
  }

  ghost predicate OnlyCalls(calls: seq<Act>) { forall k | 0 <= k < |calls| :: Manages(calls[k]) }

  lemma {:induction false} CallsOfCalls(calls: seq<Act>)
    requires OnlyCalls(calls)
    ensures CallsOf(calls) == calls
  {
    if calls != [] { CallsOfCalls(calls[..|calls| - 1]); }
  }

  lemma {:induction false} CallsOfMore(calls: seq<Act>, more: seq<Act>)
    requires OnlyLoops(more)
    ensures CallsOf(calls + more) == CallsOf(calls)
  {
    if more == [] {
      assert calls + more == calls;
    } else {
      var acts, n := calls + more, |more| - 1;
      assert acts[..|acts| - 1] == calls + more[..n] && acts[|acts| - 1] == more[n];
      CallsOfMore(calls, more[..n]);
    }
  }

  /** A site's loops, counted. */
  function LoopsOf(loops: seq<Loop>, site: string): (n: nat)
    ensures n == 0 ==> forall i | 0 <= i < |loops| :: loops[i].site != site
  {
    if loops == [] then 0 else LoopsOf(loops[..|loops| - 1], site) + if loops[|loops| - 1].site == site then 1 else 0
  }

  lemma {:induction false} LoopsOfSame(a: seq<Loop>, b: seq<Loop>, site: string)
    requires |a| == |b| && forall i | 0 <= i < |a| :: a[i].site == b[i].site
    ensures LoopsOf(a, site) == LoopsOf(b, site)
  {
    if a != [] { LoopsOfSame(a[..|a| - 1], b[..|b| - 1], site); }
  }

  /** A site has as many loops as it was started. */
  lemma {:induction false} LoopsAreStarts(acts: seq<Act>, site: string)
    ensures LoopsOf(Exec(INIT, acts).loops, site) == Starts(acts, site)
  {
    if acts != [] {
      var w, a := Exec(INIT, acts[..|acts| - 1]), acts[|acts| - 1];
      LoopsAreStarts(acts[..|acts| - 1], site);
      if Manages(a) {
        ManagedLoops(w, a);
        LoopsOfSame(w.loops, Next(w, a).loops[..|w.loops|], site);
        if !a.StartSite? { assert Next(w, a).loops[..|w.loops|] == Next(w, a).loops; }
      } else if a.i < |w.loops| && LoopNext(w.loops[a.i], a).Some? {
        SameLoop(w.loops[a.i], a);
        LoopsOfSame(w.loops, Next(w, a).loops, site);
      }
    }
  }

  lemma {:induction false} FewStartsExclusive(acts: seq<Act>, site: string)
    requires Starts(acts, site) <= 1
    ensures Exclusive(acts, site)
  {
    if acts != [] {
      FewStartsExclusive(acts[..|acts| - 1], site);
      LoopsAreStarts(acts[..|acts| - 1], site);
    }
  }

  lemma {:induction false} TwoLoops(loops: seq<Loop>, site: string) returns (i: nat, j: nat)
    requires LoopsOf(loops, site) >= 2
    ensures i < j < |loops| && loops[i].site == loops[j].site == site
  {
    var n := |loops| - 1;
    if loops[n].site == site {
      j := n;
      i := OneLoop(loops[..n], site);
    } else {
      i, j := TwoLoops(loops[..n], site);
    }
  }

  lemma {:induction false} OneLoop(loops: seq<Loop>, site: string) returns (i: nat)
    requires LoopsOf(loops, site) >= 1
    ensures i < |loops| && loops[i].site == site
  {
    var n := |loops| - 1;
    if loops[n].site == site { i := n; } else { i := OneLoop(loops[..n], site); }
  }

  /** Manager calls alone leave every loop at its beginning. */
  lemma {:induction false} CallsOnlyOpen(calls: seq<Act>)
    requires OnlyCalls(calls)
    ensures forall i | 0 <= i < |Exec(INIT, calls).loops| :: Exec(INIT, calls).loops[i].phase == Opening
  {
    if calls != [] {
      CallsOnlyOpen(calls[..|calls| - 1]);
      ManagedLoops(Exec(INIT, calls[..|calls| - 1]), calls[|calls| - 1]);
    }
  }

  lemma {:induction false} TwoStartsBreak(calls: seq<Act>, site: string) returns (acts: seq<Act>)
    requires OnlyCalls(calls) && Starts(calls, site) >= 2
    ensures CallsOf(acts) == calls && !Kept(Exec(INIT, acts), site)
  {
    var w := Exec(INIT, calls);
    LoopsAreStarts(calls, site);
    CallsOnlyOpen(calls);
    var i, j := TwoLoops(w.loops, site);
    var more := OverlapBreaksOrder(w, i, j, site);
    ExecConcat(INIT, calls, more);
    CallsOfCalls(calls);
    CallsOfMore(calls, more);
    acts := calls + more;
  }

  /** A sequence of manager calls keeps a site's announcements in order in all its interleavings exactly when it starts the site at most once. */
  lemma {:induction false} OrderKeptIffOneStart(calls: seq<Act>, site: string)
    requires OnlyCalls(calls)
    ensures (forall acts | CallsOf(acts) == calls :: Kept(Exec(INIT, acts), site)) <==> Starts(calls, site) <= 1
  {
    if Starts(calls, site) <= 1 {
      forall acts | CallsOf(acts) == calls ensures Kept(Exec(INIT, acts), site) {
        StartsOfCalls(acts, site);
        FewStartsExclusive(acts, site);
        OrderKeptIfReturned(acts, site);
      }
    } else {
      var acts := TwoStartsBreak(calls, site);
    }
  }
}
