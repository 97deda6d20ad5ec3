/** The check loops: who runs, who is cancelled, what they commit, and how often the slow checks run. */
module Scheduler {
  import opened Wrappers

  /** A tick: when it began, whether it ran the slow checks, and when its checks returned, if they did. */
  datatype TickRun = TickRun(begin: int, slow: bool, end: Option<int>)

  /** Where a loop is. Starting and Waiting differ in that the first tick looks at no cancellation. */
  datatype Phase = Opening | Starting | Checking | Recording | Notifying | Waiting | Returned

  datatype Loop = Loop(site: string, slow: nat, cancelled: bool, phase: Phase, lastSlow: Option<int>, ticks: seq<TickRun>)

  /** The registered loop of each site, every loop ever launched, the wait group, and the loops whose ticks were committed and announced, in order. */
  datatype World = World(cancels: map<string, nat>, loops: seq<Loop>, wg: int, commits: seq<nat>, hooks: seq<nat>)

  /**
   * One atomic step: a critical section of the manager, or a step of loop i. A loop's `now` is its reading of the clock.
   * A restart is two sections, StopSite and then StartSite, with anything in between.
   */
  datatype Act =
    | StartSite(site: string, slow: nat)
    | StopSite(id: string)
    | StopAll
    | Open(i: nat, ok: bool)
    | Begin(i: nat, now: int)
    | Finish(i: nat, now: int)
    | Panic(i: nat)
    | Record(i: nat, ok: bool)
    | Notify(i: nat)
    | Leave(i: nat)

  const INIT := World(map[], [], 0, [], [])

  predicate Due(lastSlow: Option<int>, slow: nat, now: int) {
    lastSlow.None? || now - lastSlow.value >= slow
  }

  function Stopped(w: World, id: string): World {
    if id in w.cancels && w.cancels[id] < |w.loops| then
      var i := w.cancels[id];
      w.(cancels := w.cancels - {id}, loops := w.loops[i := w.loops[i].(cancelled := true)])
    else w.(cancels := w.cancels - {id})
  }

  function Launched(w: World, site: string, slow: nat): World {
    w.(cancels := w.cancels[site := |w.loops|],
       loops := w.loops + [Loop(site, slow, false, Opening, None, [])],
       wg := w.wg + 1)
  }

  /** Loop i is registered in `cancels`, and no longer in what is left of it. */
  predicate Freed(cancels: map<string, nat>, left: map<string, nat>, i: int) {
    exists id :: id in cancels && id !in left && cancels[id] == i
  }

  function AllStopped(w: World): World {
    w.(cancels := map[],
       loops := seq(|w.loops|, i requires 0 <= i < |w.loops| => w.loops[i].(cancelled := w.loops[i].cancelled || Freed(w.cancels, map[], i))))
  }

  /** A loop's own step on itself; None when it is not at that point. */
  function LoopNext(l: Loop, a: Act): (r: Option<Loop>) {
    match a
    case Open(_, ok) => if l.phase.Opening? then Some(l.(phase := if ok then Starting else Returned)) else None
    case Begin(_, now) =>
      if l.phase.Starting? || l.phase.Waiting? then
        Some(l.(phase := Checking, ticks := l.ticks + [TickRun(now, Due(l.lastSlow, l.slow, now), None)]))
      else None
    case Finish(_, now) =>
      if l.phase.Checking? && l.ticks != [] && now >= l.ticks[|l.ticks| - 1].begin then
        var t := l.ticks[|l.ticks| - 1];
        Some(l.(phase := Recording, ticks := l.ticks[..|l.ticks| - 1] + [t.(end := Some(now))],
                lastSlow := if t.slow then Some(now) else l.lastSlow))
      else None
    case Panic(_) => if l.phase.Checking? || l.phase.Recording? then Some(l.(phase := Waiting)) else None
    case Record(_, ok) => if l.phase.Recording? then Some(l.(phase := if ok then Notifying else Waiting)) else None
    case Notify(_) => if l.phase.Notifying? then Some(l.(phase := Waiting)) else None
    case Leave(_) => if l.phase.Waiting? && l.cancelled then Some(l.(phase := Returned)) else None
    case _ => None
  }

  predicate Manages(a: Act) { a.StartSite? || a.StopSite? || a.StopAll? }

  /** A step that cannot happen in w leaves it as it is. */
  function Next(w: World, a: Act): (w': World) {
    if a.StartSite? then Launched(Stopped(w, a.site), a.site, a.slow)
    else if a.StopSite? then Stopped(w, a.id)
    else if a.StopAll? then AllStopped(w)
    else if a.i >= |w.loops| then w
    else
      var l := LoopNext(w.loops[a.i], a);
      if l.None? then w else Moved(w, a.i, l.value, a.Record? && a.ok, a.Notify?)
  }

  /** Loop i goes on as l, having committed or announced a tick or neither. */
  function Moved(w: World, i: nat, l: Loop, committed: bool, announced: bool): World
    requires i < |w.loops|
  {
    World(w.cancels, w.loops[i := l],
          if l.phase.Returned? then w.wg - 1 else w.wg,
          if committed then w.commits + [i] else w.commits,
          if announced then w.hooks + [i] else w.hooks)
  }

  function Exec(w: World, acts: seq<Act>): (w': World) {
    if acts == [] then w else Next(Exec(w, acts[..|acts| - 1]), acts[|acts| - 1])
  }

  lemma {:induction false} FreedStep(cancels: map<string, nat>, left: map<string, nat>, id: string, i: int)
    requires id in left && id in cancels
    ensures Freed(cancels, left - {id}, i) <==> Freed(cancels, left, i) || cancels[id] == i
  {
    if Freed(cancels, left - {id}, i) {
      var k :| k in cancels && k !in left - {id} && cancels[k] == i;
      if k != id { assert k !in left; }
    }
    if Freed(cancels, left, i) {
      var k :| k in cancels && k !in left && cancels[k] == i;
      assert k !in left - {id};
    }
    if cancels[id] == i { assert id !in left - {id}; }
  }

  // --- the manager ---

  class Manager {
    var cancels: map<string, nat>
    var loops: seq<Loop>
    var wg: int
    var commits: seq<nat>
    var hooks: seq<nat>

    function State(): World
      reads this
    {
      World(cancels, loops, wg, commits, hooks)
    }

    /** `cancels` holds exactly the uncancelled loops, each under its site. */
    ghost predicate Valid()
      reads this
    {
      Control(State())
    }

    constructor ()
      ensures Valid() && State() == INIT
    {
      cancels, loops, wg, commits, hooks := map[], [], 0, [], [];
    }

    method StopLocked(id: string)
      requires Valid()
      modifies this
      ensures Valid() && State() == Stopped(old(State()), id) && id !in cancels
    {
      StoppedControl(State(), id);
      if id in cancels {
        var i := cancels[id];
        loops := loops[i := loops[i].(cancelled := true)];
        cancels := cancels - {id};
      } else {
        assert cancels == cancels - {id};
      }
    }

    method Start(site: string, slow: nat)
      requires Valid()
      modifies this
      ensures Valid() && State() == Next(old(State()), StartSite(site, slow))
    {
      StopLocked(site);
      LaunchedControl(State(), site, slow);
      cancels := cancels[site := |loops|];
      wg := wg + 1;
      loops := loops + [Loop(site, slow, false, Opening, None, [])];
    }

    method Stop(id: string)
      requires Valid()
      modifies this
      ensures Valid() && State() == Next(old(State()), StopSite(id))
    {
      StopLocked(id);
    }

    method Restart(site: string, slow: nat, enabled: bool)
      requires Valid()
      modifies this
      ensures Valid()
      ensures var stopped := Next(old(State()), StopSite(site));
        State() == if enabled then Next(stopped, StartSite(site, slow)) else stopped
    {
      Stop(site);
      if enabled { Start(site, slow); }
    }

    /** The part of `Shutdown` under the lock; it then waits until the wait group is zero. */
    method CancelAll()
      requires Valid()
      modifies this
      ensures Valid() && State() == Next(old(State()), StopAll)
    {
      ghost var w := State();
      HalfwayStart(w);
      while cancels.Keys != {}
        invariant Valid() && Halfway(w, State())
        decreases |cancels|
      {
        var id :| id in cancels;
        ghost var h := State();
        HalfwayStep(w, h, id);
        StopLocked(id);
      }
      HalfwayDone(w, State());
    }

    /** One run of the `tick` closure of loop i, with nothing in between. */
    method Tick(i: nat, began: int, ended: int, end: TickEnd)
      requires Valid() && i < |loops| && (loops[i].phase.Starting? || loops[i].phase.Waiting?) && began <= ended
      modifies this
      ensures Valid() && State() == TickAlone(old(State()), i, began, ended, end)
    {
      var l := loops[i];
      ghost var w := State();
      TickIs(w, i, began, ended, end);
      var runSlow := l.lastSlow.None? || began - l.lastSlow.value >= l.slow;
      var done := l.(phase := Waiting, ticks := l.ticks + [TickRun(began, runSlow, None)]);
      if !end.ChecksPanic? {
        done := l.(phase := Waiting, ticks := l.ticks + [TickRun(began, runSlow, Some(ended))]);
        if runSlow { done := done.(lastSlow := Some(ended)); }
      }
      ReplacedControl(w, i, done);
      loops := loops[i := done];
      if end.Stored? {
        commits := commits + [i];
        hooks := hooks + [i];
      }
    }
  }

  lemma {:induction false} ReplacedControl(w: World, i: nat, l: Loop)
    requires Control(w) && i < |w.loops| && l.site == w.loops[i].site && l.cancelled == w.loops[i].cancelled
    ensures forall w': World | w'.cancels == w.cancels && w'.loops == w.loops[i := l] :: Control(w')
  {
  }

  /** What has become of w with only the loops registered in h still to be cancelled. */
  ghost predicate Halfway(w: World, h: World) {
    && h == w.(cancels := h.cancels, loops := h.loops) && |h.loops| == |w.loops|
    && (forall id | id in h.cancels :: id in w.cancels && h.cancels[id] == w.cancels[id])
    && forall i | 0 <= i < |h.loops| ::
         h.loops[i] == w.loops[i].(cancelled := w.loops[i].cancelled || Freed(w.cancels, h.cancels, i))
  }

  lemma {:induction false} HalfwayStart(w: World)
    ensures Halfway(w, w)
  {
  }

  lemma {:induction false} HalfwayDone(w: World, h: World)
    requires Halfway(w, h) && h.cancels.Keys == {}
    ensures h == AllStopped(w)
  {
    assert h.cancels == map[];
    assert h.loops == AllStopped(w).loops;
  }

  lemma {:induction false} HalfwayStep(w: World, h: World, id: string)
    requires Halfway(w, h) && id in h.cancels && h.cancels[id] < |h.loops|
    ensures Halfway(w, Stopped(h, id)) && |Stopped(h, id).cancels| < |h.cancels|
  {
    assert (h.cancels - {id}).Keys == h.cancels.Keys - {id} && |h.cancels| == |h.cancels.Keys| && |h.cancels - {id}| == |(h.cancels - {id}).Keys|;
    forall i | 0 <= i < |h.loops| ensures Freed(w.cancels, h.cancels - {id}, i) <==> Freed(w.cancels, h.cancels, i) || w.cancels[id] == i {
      FreedStep(w.cancels, h.cancels, id, i);
    }
  }

  /** How a tick ends: its checks panic, storing it panics or fails, or it is stored. */
  datatype TickEnd = ChecksPanic | StorePanics | StoreFails | Stored

  function TickAlone(w: World, i: nat, began: int, ended: int, end: TickEnd): World {
    var begun := Next(w, Begin(i, began));
    var checked := Next(begun, Finish(i, ended));
    match end
    case ChecksPanic => Next(begun, Panic(i))
    case StorePanics => Next(checked, Panic(i))
    case StoreFails => Next(checked, Record(i, false))
    case Stored => Next(Next(checked, Record(i, true)), Notify(i))
  }

  /** The loop after a tick whose checks returned. */
  function Ticked(l: Loop, began: int, ended: int): Loop {
    var slow := Due(l.lastSlow, l.slow, began);
    l.(phase := Waiting, lastSlow := if slow then Some(ended) else l.lastSlow, ticks := l.ticks + [TickRun(began, slow, Some(ended))])
  }

  /** The loop after a tick that ended in any way. */
  function TickedTo(l: Loop, began: int, ended: int, end: TickEnd): Loop {
    if end.ChecksPanic? then l.(phase := Waiting, ticks := l.ticks + [TickRun(began, Due(l.lastSlow, l.slow, began), None)])
    else Ticked(l, began, ended)
  }

  lemma {:induction false} TickIs(w: World, i: nat, began: int, ended: int, end: TickEnd)
    requires i < |w.loops| && (w.loops[i].phase.Starting? || w.loops[i].phase.Waiting?) && began <= ended
    ensures TickAlone(w, i, began, ended, end) ==
      World(w.cancels, w.loops[i := TickedTo(w.loops[i], began, ended, end)], w.wg,
            if end.Stored? then w.commits + [i] else w.commits, if end.Stored? then w.hooks + [i] else w.hooks)
  {
    Checked(w, i, began, ended);
    var l := TickedTo(w.loops[i], began, ended, end);
    var begun := Next(w, Begin(i, began));
    var checked := Next(begun, Finish(i, ended));
    match end
    case ChecksPanic => assert Next(begun, Panic(i)).loops == w.loops[i := l];
    case StorePanics => assert Next(checked, Panic(i)).loops == w.loops[i := l];
    case StoreFails => assert Next(checked, Record(i, false)).loops == w.loops[i := l];
    case Stored =>
      var stored := Next(checked, Record(i, true));
      assert stored.loops == w.loops[i := l.(phase := Notifying)];
      assert Next(stored, Notify(i)).loops == w.loops[i := l];
  }

  lemma {:induction false} Checked(w: World, i: nat, began: int, ended: int)
    requires i < |w.loops| && (w.loops[i].phase.Starting? || w.loops[i].phase.Waiting?) && began <= ended
    ensures var l, begun := w.loops[i], Next(w, Begin(i, began));
      var slow := Due(l.lastSlow, l.slow, began);
      && begun == w.(loops := w.loops[i := l.(phase := Checking, ticks := l.ticks + [TickRun(began, slow, None)])])
      && Next(begun, Finish(i, ended)) == w.(loops := w.loops[i := Ticked(l, began, ended).(phase := Recording)])
  {
    var l, begun := w.loops[i], Next(w, Begin(i, began));
    var b := LoopNext(l, Begin(i, began)).value;
    assert begun == w.(loops := w.loops[i := b]) && begun.loops[i] == b;
    assert b.ticks[..|b.ticks| - 1] == l.ticks;
    var f := LoopNext(b, Finish(i, ended)).value;
    assert Next(begun, Finish(i, ended)) == begun.(loops := begun.loops[i := f]);
    assert begun.loops[i := f] == w.loops[i := f];
  }

  lemma {:induction false} ExecSnoc(w: World, acts: seq<Act>, a: Act)
    ensures Exec(w, acts + [a]) == Next(Exec(w, acts), a)
  {
    assert (acts + [a])[..|acts|] == acts;
  }

  lemma {:induction false} ExecConcat(w: World, a: seq<Act>, b: seq<Act>)
    ensures Exec(w, a + b) == Exec(Exec(w, a), b)
  {
    if b == [] {
      assert a + b == a;
    } else {
      assert (a + b)[..|a + b| - 1] == a + b[..|b| - 1];
      ExecConcat(w, a, b[..|b| - 1]);
    }
  }

  // --- one uncancelled loop per site, the registered one ---

  ghost predicate Control(w: World) {
    && (forall id | id in w.cancels :: w.cancels[id] < |w.loops| && w.loops[w.cancels[id]].site == id && !w.loops[w.cancels[id]].cancelled)
    && (forall i | 0 <= i < |w.loops| && !w.loops[i].cancelled :: w.loops[i].site in w.cancels && w.cancels[w.loops[i].site] == i)
  }

  lemma {:induction false} AllStoppedControl(w: World)
    requires Control(w)
    ensures Control(AllStopped(w))
  {
    forall i | 0 <= i < |w.loops| ensures AllStopped(w).loops[i].cancelled {
      if !w.loops[i].cancelled {
        var id := w.loops[i].site;
        assert id in w.cancels && id !in AllStopped(w).cancels && w.cancels[id] == i;
      }
    }
  }

  lemma {:induction false} LaunchedControl(w: World, site: string, slow: nat)
    requires Control(w) && site !in w.cancels
    ensures Control(Launched(w, site, slow))
  {
  }

  lemma {:induction false} ControlNext(w: World, a: Act)
    requires Control(w)
    ensures Control(Next(w, a))
  {
    if a.StopAll? {
      AllStoppedControl(w);
    } else if a.StartSite? {
      StoppedControl(w, a.site);
      LaunchedControl(Stopped(w, a.site), a.site, a.slow);
    } else if a.StopSite? {
      StoppedControl(w, a.id);
    } else if a.i < |w.loops| && LoopNext(w.loops[a.i], a).Some? {
      SameLoop(w.loops[a.i], a);
      MovedControl(w, a.i, LoopNext(w.loops[a.i], a).value, a.Record? && a.ok, a.Notify?);
    }
  }

  lemma {:induction false} MovedControl(w: World, i: nat, l: Loop, committed: bool, announced: bool)
    requires Control(w) && i < |w.loops| && l.site == w.loops[i].site && l.cancelled == w.loops[i].cancelled
    ensures Control(Moved(w, i, l, committed, announced))
  {
  }

  /** A loop's own steps change neither its site nor whether it is cancelled. */
  lemma {:induction false} SameLoop(l: Loop, a: Act)
    requires LoopNext(l, a).Some?
    ensures LoopNext(l, a).value.site == l.site && LoopNext(l, a).value.cancelled == l.cancelled
    ensures !l.phase.Returned?
  {
  }

  lemma {:induction false} StoppedControl(w: World, id: string)
    requires Control(w)
    ensures Control(Stopped(w, id)) && id !in Stopped(w, id).cancels
  {
  }

  /** The slow interval of the last start of the site, if no call since has stopped it. */
  function Started(acts: seq<Act>, site: string): (slow: Option<nat>) {
    if acts == [] then None else
      var last := acts[|acts| - 1];
      if last.StartSite? && last.site == site then Some(last.slow)
      else if last.StopAll? || last == StopSite(site) then None
      else Started(acts[..|acts| - 1], site)
  }

  /**
   * Under every interleaving a site has an uncancelled loop exactly when the last call about it was a start, and then
   * only one, the registered one, which runs at the interval of that start.
   */
  lemma {:induction false} OneLoopPerSite(acts: seq<Act>)
    ensures var w := Exec(INIT, acts);
      && Control(w)
      && (forall site :: site in w.cancels <==> Started(acts, site).Some?)
      && (forall site | site in w.cancels :: w.loops[w.cancels[site]].slow == Started(acts, site).value)
      && (forall i, j | 0 <= i < j < |w.loops| && !w.loops[i].cancelled && !w.loops[j].cancelled :: w.loops[i].site != w.loops[j].site)
  {
    if acts != [] {
      var before, last := acts[..|acts| - 1], acts[|acts| - 1];
      OneLoopPerSite(before);
      ControlNext(Exec(INIT, before), last);
      KeepsSlow(Exec(INIT, before), last);
    }
  }

  /** A site stays registered through other steps, with the same interval. */
  lemma {:induction false} KeepsSlow(w: World, a: Act)
    requires Control(w)
    ensures var w' := Next(w, a);
      && |w.loops| <= |w'.loops|
      && (forall i | 0 <= i < |w.loops| :: w'.loops[i].slow == w.loops[i].slow && w'.loops[i].site == w.loops[i].site)
      && (forall site | site in w'.cancels && !(a.StartSite? && a.site == site) :: site in w.cancels && w'.cancels[site] == w.cancels[site])
  {
  }

  /** Loop i opened its store in this run. */
  predicate Opened(acts: seq<Act>, i: nat) {
    acts != [] && (
      var before, last := acts[..|acts| - 1], acts[|acts| - 1];
      var loops := Exec(INIT, before).loops;
      Opened(before, i) || (last == Open(i, true) && i < |loops| && loops[i].phase.Opening?))
  }

  /** A loop returns before its first tick if its store does not open, and otherwise only after it and once cancelled; so a registered one that opened runs on. */
  lemma {:induction false} ReturnsOnlyCancelled(acts: seq<Act>, i: nat)
    requires i < |Exec(INIT, acts).loops|
    ensures var w := Exec(INIT, acts); var l := w.loops[i];
      && (l.phase.Returned? && Opened(acts, i) ==> l.cancelled && l.ticks != [])
      && (l.phase.Returned? && !Opened(acts, i) ==> l.ticks == [])
      && (l.site in w.cancels && w.cancels[l.site] == i && Opened(acts, i) ==> !l.phase.Opening? && !l.phase.Returned?)
  {
    OneLoopPerSite(acts);
    OpenedRuns(acts, i);
  }

  ghost predicate RunsIfOpened(l: Loop, ready: bool) {
    if ready then !l.phase.Opening? && (l.phase.Returned? ==> l.cancelled) && (l.phase.Starting? <==> l.ticks == [])
    else (l.phase.Opening? || l.phase.Returned?) && l.ticks == []
  }

  lemma {:induction false} OpenedRuns(acts: seq<Act>, i: nat)
    ensures i < |Exec(INIT, acts).loops| ==> RunsIfOpened(Exec(INIT, acts).loops[i], Opened(acts, i))
    ensures i >= |Exec(INIT, acts).loops| ==> !Opened(acts, i)
  {
    if acts != [] {
      var before, last := acts[..|acts| - 1], acts[|acts| - 1];
      OpenedRuns(before, i);
      OpenedNext(Exec(INIT, before), last, i, Opened(before, i));
    }
  }

  lemma {:induction false} OpenedNext(w: World, a: Act, i: nat, ready: bool)
    requires if i < |w.loops| then RunsIfOpened(w.loops[i], ready) else !ready
    ensures var w' := Next(w, a);
      && |w.loops| <= |w'.loops|
      && (i < |w'.loops| ==> RunsIfOpened(w'.loops[i], ready || (a == Open(i, true) && i < |w.loops| && w.loops[i].phase.Opening?)))
  {
  }

  // --- the wait group ---

  function Running(loops: seq<Loop>): (n: nat)
    ensures n == 0 <==> forall i | 0 <= i < |loops| :: loops[i].phase.Returned?
  {
    if loops == [] then 0
    else Running(loops[..|loops| - 1]) + if loops[|loops| - 1].phase.Returned? then 0 else 1
  }

  lemma {:induction false} RunningAt(loops: seq<Loop>, i: nat, l: Loop)
    requires i < |loops|
    ensures Running(loops[i := l]) ==
      Running(loops) - (if loops[i].phase.Returned? then 0 else 1) + if l.phase.Returned? then 0 else 1
  {
    var n := |loops| - 1;
    if i < n {
      RunningAt(loops[..n], i, l);
      assert loops[i := l][..n] == loops[..n][i := l];
    } else {
      assert loops[i := l][..n] == loops[..n];
    }
  }

  lemma {:induction false} RunningSame(a: seq<Loop>, b: seq<Loop>)
    requires |a| == |b| && forall i | 0 <= i < |a| :: a[i].phase == b[i].phase
    ensures Running(a) == Running(b)
  {
    if a != [] { RunningSame(a[..|a| - 1], b[..|b| - 1]); }
  }

  lemma {:induction false} RunningNext(w: World, a: Act)
    requires w.wg == Running(w.loops)
    ensures Next(w, a).wg == Running(Next(w, a).loops)
  {
    if a.StartSite? {
      var s := Stopped(w, a.site);
      RunningSame(w.loops, s.loops);
      assert (s.loops + [Loop(a.site, a.slow, false, Opening, None, [])])[..|s.loops|] == s.loops;
    } else if Manages(a) {
      RunningSame(w.loops, Next(w, a).loops);
    } else if a.i < |w.loops| && LoopNext(w.loops[a.i], a).Some? {
      SameLoop(w.loops[a.i], a);
      RunningAt(w.loops, a.i, LoopNext(w.loops[a.i], a).value);
    }
  }

  /** The wait group counts the loops that have not returned. */
  lemma {:induction false} WaitGroupCounts(acts: seq<Act>)
    ensures Exec(INIT, acts).wg == Running(Exec(INIT, acts).loops)
  {
    if acts != [] {
      WaitGroupCounts(acts[..|acts| - 1]);
      RunningNext(Exec(INIT, acts[..|acts| - 1]), acts[|acts| - 1]);
    }
  }

  predicate NoStart(acts: seq<Act>) { forall i | 0 <= i < |acts| :: !acts[i].StartSite? }

  lemma {:induction false} StaysReturned(w: World, acts: seq<Act>)
    requires w.cancels == map[] && NoStart(acts) && forall i | 0 <= i < |w.loops| :: w.loops[i].phase.Returned?
    ensures Exec(w, acts).commits == w.commits && Exec(w, acts).hooks == w.hooks && Exec(w, acts).wg == w.wg
    ensures Exec(w, acts).cancels == map[] && forall i | 0 <= i < |Exec(w, acts).loops| :: Exec(w, acts).loops[i].phase.Returned?
  {
    if acts != [] { StaysReturned(w, acts[..|acts| - 1]); }
  }

  lemma {:induction false} NoStartKeepsEmpty(w: World, acts: seq<Act>)
    requires w.cancels == map[] && NoStart(acts)
    ensures Exec(w, acts).cancels == map[]
  {
    if acts != [] { NoStartKeepsEmpty(w, acts[..|acts| - 1]); }
  }

  /** When `Shutdown` gets past its wait and nobody starts a loop again, nothing is committed or announced any more. */
  lemma {:induction false} ShutdownSilences(before: seq<Act>, during: seq<Act>, later: seq<Act>)
    requires NoStart(during) && NoStart(later)
    requires Exec(INIT, before + [StopAll] + during).wg == 0
    ensures var w, w' := Exec(INIT, before + [StopAll] + during), Exec(INIT, before + [StopAll] + during + later);
      w'.commits == w.commits && w'.hooks == w.hooks && w'.wg == 0
  {
    var past := before + [StopAll] + during;
    ExecSnoc(INIT, before, StopAll);
    ExecConcat(INIT, before + [StopAll], during);
    NoStartKeepsEmpty(Exec(INIT, before + [StopAll]), during);
    WaitGroupCounts(past);
    ExecConcat(INIT, past, later);
    StaysReturned(Exec(INIT, past), later);
  }

  // --- the slow cadence ---

  /** The end of the last slow tick whose checks returned. */
  function LastSlow(ticks: seq<TickRun>): (t: Option<int>) {
    if ticks == [] then None else
      var last := ticks[|ticks| - 1];
      if last.slow && last.end.Some? then last.end else LastSlow(ticks[..|ticks| - 1])
  }

  ghost predicate Cadenced(ticks: seq<TickRun>, slow: nat) {
    forall j | 0 <= j < |ticks| ::
      && (ticks[j].slow <==> Due(LastSlow(ticks[..j]), slow, ticks[j].begin))
      && (ticks[j].end.Some? ==> ticks[j].begin <= ticks[j].end.value)
  }

  ghost predicate LoopOk(l: Loop) {
    && Cadenced(l.ticks, l.slow)
    && l.lastSlow == LastSlow(l.ticks)
    && (l.phase.Checking? ==> l.ticks != [] && l.ticks[|l.ticks| - 1].end.None?)
  }

  lemma {:induction false} CadencedSnoc(ticks: seq<TickRun>, t: TickRun, slow: nat)
    requires Cadenced(ticks, slow)
    requires t.slow <==> Due(LastSlow(ticks), slow, t.begin)
    requires t.end.Some? ==> t.begin <= t.end.value
    ensures Cadenced(ticks + [t], slow)
  {
    var r := ticks + [t];
    assert r[..|ticks|] == ticks;
    forall j | 0 <= j < |ticks| ensures r[..j] == ticks[..j] {}
  }

  lemma {:induction false} CadencedInit(ticks: seq<TickRun>, slow: nat)
    requires Cadenced(ticks, slow) && ticks != []
    ensures Cadenced(ticks[..|ticks| - 1], slow)
    ensures ticks[|ticks| - 1].slow <==> Due(LastSlow(ticks[..|ticks| - 1]), slow, ticks[|ticks| - 1].begin)
  {
    var r := ticks[..|ticks| - 1];
    forall j | 0 <= j < |r| ensures r[..j] == ticks[..j] {}
  }

  lemma {:induction false} BeginOk(l: Loop, t: TickRun)
    requires LoopOk(l) && t == TickRun(t.begin, Due(l.lastSlow, l.slow, t.begin), None)
    ensures LoopOk(l.(phase := Checking, ticks := l.ticks + [t]))
  {
    CadencedSnoc(l.ticks, t, l.slow);
    assert (l.ticks + [t])[..|l.ticks|] == l.ticks;
  }

  lemma {:induction false} FinishOk(l: Loop, now: int)
    requires LoopOk(l) && l.phase.Checking? && now >= l.ticks[|l.ticks| - 1].begin
    ensures LoopOk(LoopNext(l, Finish(0, now)).value)
  {
    var init, t := l.ticks[..|l.ticks| - 1], l.ticks[|l.ticks| - 1];
    var t' := t.(end := Some(now));
    CadencedInit(l.ticks, l.slow);
    CadencedSnoc(init, t', l.slow);
    LastSlowSnoc(init, t');
    LastSlowSnoc(init, t);
    assert l.ticks == init + [t];
    RecordingOk(LoopNext(l, Finish(0, now)).value, init + [t']);
  }

  lemma {:induction false} RecordingOk(l: Loop, ticks: seq<TickRun>)
    requires l.phase.Recording? && l.ticks == ticks && Cadenced(ticks, l.slow) && l.lastSlow == LastSlow(ticks)
    ensures LoopOk(l)
  {
  }

  lemma {:induction false} LastSlowSnoc(ticks: seq<TickRun>, t: TickRun)
    ensures LastSlow(ticks + [t]) == if t.slow && t.end.Some? then t.end else LastSlow(ticks)
  {
    assert (ticks + [t])[..|ticks|] == ticks;
  }

  lemma {:induction false} LoopOkNext(l: Loop, a: Act)
    requires LoopOk(l) && LoopNext(l, a).Some?
    ensures LoopOk(LoopNext(l, a).value)
  {
    if a.Begin? {
      BeginOk(l, TickRun(a.now, Due(l.lastSlow, l.slow, a.now), None));
    } else if a.Finish? {
      FinishOk(l, a.now);
    }
  }

  ghost predicate LoopsOk(w: World) { forall i | 0 <= i < |w.loops| :: LoopOk(w.loops[i]) }

  /** What LoopOk asks of a loop does not depend on its cancellation. */
  lemma {:induction false} CancelOk(l: Loop, cancelled: bool)
    requires LoopOk(l)
    ensures LoopOk(l.(cancelled := cancelled))
  {
  }

  /** A manager's call cancels loops and may launch one. */
  lemma {:induction false} ManagedLoop(w: World, a: Act, i: nat)
    requires Manages(a) && i < |Next(w, a).loops|
    ensures var l := Next(w, a).loops[i];
      if i < |w.loops| then l == w.loops[i].(cancelled := l.cancelled) else a.StartSite? && l == Loop(a.site, a.slow, false, Opening, None, [])
  {
  }

  /** Any other step changes at most its own loop. */
  lemma {:induction false} OwnLoop(w: World, a: Act, i: nat)
    requires !Manages(a) && i < |Next(w, a).loops|
    ensures i < |w.loops| == |Next(w, a).loops|
    ensures Next(w, a).loops[i] == if i == a.i && LoopNext(w.loops[i], a).Some? then LoopNext(w.loops[i], a).value else w.loops[i]
  {
  }

  lemma {:induction false} LoopOkAt(w: World, a: Act, i: nat)
    requires i < |Next(w, a).loops| && (i < |w.loops| ==> LoopOk(w.loops[i]))
    ensures LoopOk(Next(w, a).loops[i])
  {
    if Manages(a) {
      ManagedLoop(w, a, i);
      if i < |w.loops| { CancelOk(w.loops[i], Next(w, a).loops[i].cancelled); }
    } else {
      OwnLoop(w, a, i);
      if i == a.i && LoopNext(w.loops[i], a).Some? { LoopOkNext(w.loops[i], a); }
    }
  }

  lemma {:induction false} LoopsOkNext(w: World, a: Act)
    requires LoopsOk(w)
    ensures LoopsOk(Next(w, a))
  {
    forall i | 0 <= i < |Next(w, a).loops| ensures LoopOk(Next(w, a).loops[i]) {
      LoopOkAt(w, a, i);
    }
  }

  lemma {:induction false} LoopsOkExec(acts: seq<Act>)
    ensures LoopsOk(Exec(INIT, acts))
  {
    if acts != [] {
      LoopsOkExec(acts[..|acts| - 1]);
      LoopsOkNext(Exec(INIT, acts[..|acts| - 1]), acts[|acts| - 1]);
    }
  }

  lemma {:induction false} LastSlowIsLatest(ticks: seq<TickRun>, slow: nat, i: nat)
    requires Cadenced(ticks, slow) && i < |ticks| && ticks[i].slow && ticks[i].end.Some?
    ensures LastSlow(ticks).Some? && ticks[i].end.value <= LastSlow(ticks).value
  {
    if i < |ticks| - 1 {
      CadencedInit(ticks, slow);
      LastSlowIsLatest(ticks[..|ticks| - 1], slow, i);
    }
  }

  lemma {:induction false} LastSlowIsOne(ticks: seq<TickRun>)
    requires LastSlow(ticks).Some?
    ensures exists k | 0 <= k < |ticks| :: ticks[k].slow && ticks[k].end == LastSlow(ticks)
  {
    var n := |ticks| - 1;
    if !(ticks[n].slow && ticks[n].end.Some?) {
      LastSlowIsOne(ticks[..n]);
      var k :| 0 <= k < n && ticks[..n][k].slow && ticks[..n][k].end == LastSlow(ticks);
      assert ticks[k].slow && ticks[k].end == LastSlow(ticks);
    }
  }

  /**
   * In every loop of every run: a tick is slow exactly when every earlier slow tick whose checks returned ended at least
   * the slow interval before it begins. One whose checks panicked sets no pace.
   */
  lemma {:induction false} SlowCadence(acts: seq<Act>, i: nat, j: nat)
    requires i < |Exec(INIT, acts).loops| && j < |Exec(INIT, acts).loops[i].ticks|
    ensures var l := Exec(INIT, acts).loops[i];
      l.ticks[j].slow <==> forall k | 0 <= k < j && l.ticks[k].slow && l.ticks[k].end.Some? :: l.ticks[j].begin - l.ticks[k].end.value >= l.slow
  {
    LoopsOkExec(acts);
    var l := Exec(INIT, acts).loops[i];
    var past := l.ticks[..j];
    assert forall m | 0 <= m < j :: past[..m] == l.ticks[..m];
    if l.ticks[j].slow {
      forall k | 0 <= k < j && l.ticks[k].slow && l.ticks[k].end.Some?
        ensures l.ticks[j].begin - l.ticks[k].end.value >= l.slow
      {
        LastSlowIsLatest(past, l.slow, k);
      }
    } else {
      LastSlowIsOne(past);
    }
  }

  // --- commits and announcements ---

  /** How often loop i occurs in a list of commits or announcements. */
  function Times(log: seq<nat>, i: nat): (n: nat) {
    if log == [] then 0 else Times(log[..|log| - 1], i) + if log[|log| - 1] == i then 1 else 0
  }

  lemma {:induction false} TimesSnoc(log: seq<nat>, k: nat, i: nat)
    ensures Times(log + [k], i) == Times(log, i) + if k == i then 1 else 0
  {
    assert (log + [k])[..|log|] == log;
  }

  ghost predicate Announced(w: World, i: nat) {
    Times(w.commits, i) == Times(w.hooks, i) + if i < |w.loops| then Pending(w.loops[i]) else 0
  }

  function Pending(l: Loop): nat { if l.phase.Notifying? then 1 else 0 }

  lemma {:induction false} PendingNext(l: Loop, a: Act)
    requires LoopNext(l, a).Some?
    ensures Pending(LoopNext(l, a).value) == Pending(l) + (if a.Record? && a.ok then 1 else 0) - if a.Notify? then 1 else 0
  {
  }

  lemma {:induction false} MovedAnnounced(w: World, k: nat, l: Loop, committed: bool, announced: bool, i: nat)
    requires k < |w.loops| && Announced(w, i)
    requires Pending(l) == Pending(w.loops[k]) + (if committed then 1 else 0) - if announced then 1 else 0
    ensures Announced(Moved(w, k, l, committed, announced), i)
  {
    TimesSnoc(w.commits, k, i);
    TimesSnoc(w.hooks, k, i);
  }

  lemma {:induction false} AnnouncedNext(w: World, a: Act, i: nat)
    requires Announced(w, i)
    ensures Announced(Next(w, a), i)
  {
    if !Manages(a) && a.i < |w.loops| && LoopNext(w.loops[a.i], a).Some? {
      PendingNext(w.loops[a.i], a);
      MovedAnnounced(w, a.i, LoopNext(w.loops[a.i], a).value, a.Record? && a.ok, a.Notify?, i);
    }
  }

  /** Every committed tick is announced once, after its commit; a loop has at most one still to announce. */
  lemma {:induction false} AnnouncedOnce(acts: seq<Act>, i: nat)
    ensures Announced(Exec(INIT, acts), i)
  {
    if acts != [] {
      AnnouncedOnce(acts[..|acts| - 1], i);
      AnnouncedNext(Exec(INIT, acts[..|acts| - 1]), acts[|acts| - 1], i);
    }
  }

  /** Two loops of one site at these points, at or before time 1, with these commits and announcements behind them. */
  ghost predicate At(w: World, p: Phase, q: Phase, commits: seq<nat>, hooks: seq<nat>) {
    && |w.loops| == 2 && w.loops[0].phase == p && w.loops[1].phase == q
    && w.commits == commits && w.hooks == hooks
    && (forall i | 0 <= i < 2 :: w.loops[i].site == "a" && Ready(w.loops[i]))
  }

  ghost predicate Ready(l: Loop) { l.phase.Checking? ==> l.ticks != [] && l.ticks[|l.ticks| - 1].begin <= 1 }

  /** A loop at point p takes the step, at time 1, and comes to point r. */
  predicate Moves(p: Phase, a: Act, r: Phase) {
    match a
    case Open(_, ok) => ok && p == Opening && r == Starting
    case Begin(_, now) => now == 1 && p == Starting && r == Checking
    case Finish(_, now) => now == 1 && p == Checking && r == Recording
    case Record(_, ok) => ok && p == Recording && r == Notifying
    case Notify(_) => p == Notifying && r == Waiting
    case _ => false
  }

  lemma {:induction false} MovesOn(l: Loop, a: Act, r: Phase)
    requires Ready(l) && Moves(l.phase, a, r)
    ensures LoopNext(l, a).Some? && LoopNext(l, a).value.phase == r
    ensures Ready(LoopNext(l, a).value) && LoopNext(l, a).value.site == l.site
  {
  }

  lemma {:induction false} AtStep(acts: seq<Act>, a: Act, p: Phase, q: Phase, r: Phase, commits: seq<nat>, hooks: seq<nat>) returns (acts': seq<Act>)
    requires At(Exec(INIT, acts), p, q, commits, hooks)
    requires !Manages(a) && a.i < 2 && Moves(if a.i == 0 then p else q, a, r)
    ensures acts <= acts'
    ensures At(Exec(INIT, acts'), if a.i == 0 then r else p, if a.i == 1 then r else q,
         if a.Record? then commits + [a.i] else commits, if a.Notify? then hooks + [a.i] else hooks)
  {
    acts' := acts + [a];
    ExecSnoc(INIT, acts, a);
    MovesOn(Exec(INIT, acts).loops[a.i], a, r);
  }

  lemma {:induction false} FirstTickBegins() returns (acts: seq<Act>)
    ensures var w := Exec(INIT, acts);
      && |w.loops| == 1 && w.loops[0].phase == Checking && w.loops[0].site == "a" && Ready(w.loops[0])
      && w.cancels == map["a" := 0] && w.commits == [] && w.hooks == []
  {
    var w1 := World(map["a" := 0], [Loop("a", 0, false, Opening, None, [])], 1, [], []);
    assert Next(INIT, StartSite("a", 0)) == w1;
    ExecSnoc(INIT, [], StartSite("a", 0));
    acts := [] + [StartSite("a", 0)];
    ExecSnoc(INIT, acts, Open(0, true));
    acts := acts + [Open(0, true)];
    MovesOn(w1.loops[0], Open(0, true), Starting);
    var w2 := Exec(INIT, acts);
    ExecSnoc(INIT, acts, Begin(0, 1));
    acts := acts + [Begin(0, 1)];
    MovesOn(w2.loops[0], Begin(0, 1), Checking);
  }

  /** The site's first loop is mid-tick when a restart cancels it. */
  lemma {:induction false} MidTickRestart() returns (acts: seq<Act>)
    ensures At(Exec(INIT, acts), Checking, Opening, [], []) && Exec(INIT, acts).loops[0].cancelled
  {
    acts := FirstTickBegins();
    var w := Exec(INIT, acts);
    ExecSnoc(INIT, acts, StopSite("a"));
    acts := acts + [StopSite("a")];
    assert |Exec(INIT, acts).loops| == 1 && Exec(INIT, acts).loops[0] == w.loops[0].(cancelled := true);
    ExecSnoc(INIT, acts, StartSite("a", 0));
    acts := acts + [StartSite("a", 0)];
  }

  /** The cancelled loop commits before the new one opens its store. */
  lemma {:induction false} OldLoopCommits(before: seq<Act>) returns (acts: seq<Act>)
    requires At(Exec(INIT, before), Checking, Opening, [], [])
    ensures before <= acts && At(Exec(INIT, acts), Notifying, Starting, [0], [])
  {
    acts := AtStep(before, Finish(0, 1), Checking, Opening, Recording, [], []);
    acts := AtStep(acts, Record(0, true), Recording, Opening, Notifying, [], []);
    acts := AtStep(acts, Open(1, true), Notifying, Opening, Starting, [0], []);
  }

  lemma {:induction false} NewLoopCommits(before: seq<Act>) returns (acts: seq<Act>)
    requires At(Exec(INIT, before), Notifying, Starting, [0], [])
    ensures before <= acts && At(Exec(INIT, acts), Notifying, Notifying, [0, 1], [])
  {
    acts := AtStep(before, Begin(1, 1), Notifying, Starting, Checking, [0], []);
    acts := AtStep(acts, Finish(1, 1), Notifying, Checking, Recording, [0], []);
    acts := AtStep(acts, Record(1, true), Notifying, Recording, Notifying, [0], []);
    assert [0] + [1] == [0, 1];
  }

  /** A cancelled loop still commits, and two ticks of one site can be announced in the other order than they were committed. */
  lemma {:induction false} RestartMayReorder() returns (before: seq<Act>, acts: seq<Act>)
    ensures var w, w' := Exec(INIT, before), Exec(INIT, acts);
      && before <= acts && |w.loops| == |w'.loops| == 2 && w.loops[0].cancelled && w'.loops[0].site == w'.loops[1].site
      && w.commits == [] && w'.commits == [0, 1] && w'.hooks == [1, 0]
  {
    before := MidTickRestart();
    acts := OldLoopCommits(before);
    acts := NewLoopCommits(acts);
    acts := AtStep(acts, Notify(1), Notifying, Notifying, Waiting, [0, 1], []);
    acts := AtStep(acts, Notify(0), Notifying, Waiting, Waiting, [0, 1], [1]);
  }
}
