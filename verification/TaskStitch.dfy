/**
 Stitching of asyncio tasks into the thread's Python stack
 (echion/tasks.h, TaskInfo::unwind, and echion/threads.h, ThreadInfo::unwind_tasks).

 A reference to a task of the snapshot is its position in the snapshot.
 */
module TaskStitch {
  import opened Seqs
  import opened Target
  import opened Wrappers
  import opened Frames
  import opened TaskBuild

  // ---------------------------------------------------------------------
  // TaskInfo::unwind

  /** The frames of a coroutine and of what it awaits, innermost first. */
  function InnerFrames(g: Option<GenInfo>): seq<Addr> {
    match g
    case None => []
    case Some(c) => InnerFrames(c.await) + if c.frame != NULL then [c.frame] else []
  }

  /** What unwinding a task adds, the number it reports and the upper Python stack size it sets. */
  datatype Unwound = Unwound(added: seq<Frame>, count: nat, upper: Option<nat>)

  function UnwindRest(h: Heap, maxFrames: nat, size: nat, addrs: seq<Addr>): seq<Frame>
    decreases |addrs|
  {
    if addrs == [] then []
    else
      var fs := Appended(h, maxFrames, addrs[0], size);
      if fs == [] then [] else fs + UnwindRest(h, maxFrames, size + |fs|, addrs[1..])
  }

  function UnwindTask(h: Heap, maxFrames: nat, size: nat, addrs: seq<Addr>): Unwound {
    if addrs == [] then Unwound([], 0, None)
    else
      var fs := Appended(h, maxFrames, addrs[0], size);
      if fs == [] then Unwound([], 0, None)
      else
        var rest := UnwindRest(h, maxFrames, size + 1, addrs[1..]);
        Unwound([fs[0]] + rest, |fs| + |rest|, Some(|fs| - 1))
  }

  /** The frames it gets on the way: also those of the innermost coroutine that are popped again. */
  function GotBy(h: Heap, maxFrames: nat, size: nat, addrs: seq<Addr>): seq<Frame> {
    if addrs == [] then []
    else
      var fs := Appended(h, maxFrames, addrs[0], size);
      if fs == [] then [] else fs + UnwindRest(h, maxFrames, size + 1, addrs[1..])
  }

  /** A task that shows anything grows the stack by its count less the upper size it sets. */
  lemma {:induction false} GrowthIsCountMinusUpper(h: Heap, maxFrames: nat, size: nat, addrs: seq<Addr>)
    ensures var u := UnwindTask(h, maxFrames, size, addrs);
            && (u.count == 0 <==> u.upper.None?) && (u.count == 0 ==> u.added == [])
            && (u.count != 0 ==> u.upper.value < u.count && |u.added| == u.count - u.upper.value)
            && (u.added != [] ==> size + |u.added| <= maxFrames)
  {
    if addrs != [] && Appended(h, maxFrames, addrs[0], size) != [] {
      RestFits(h, maxFrames, size + 1, addrs[1..]);
    }
  }

  lemma {:induction false} RestFits(h: Heap, maxFrames: nat, size: nat, addrs: seq<Addr>)
    requires size <= maxFrames
    ensures size + |UnwindRest(h, maxFrames, size, addrs)| <= maxFrames
    decreases |addrs|
  {
    if addrs == [] || Appended(h, maxFrames, addrs[0], size) == [] {
    } else {
      RestFits(h, maxFrames, size + |Appended(h, maxFrames, addrs[0], size)|, addrs[1..]);
    }
  }

  // ---------------------------------------------------------------------
  // The order of awaiting coroutines

  /** The frames of a coroutine and of what it awaits, from the coroutine down; a missing frame is left out. */
  function FramesOf(links: seq<GenInfo>): seq<Addr> {
    if links == [] then []
    else (if links[0].frame != NULL then [links[0].frame] else []) + FramesOf(links[1..])
  }

  /** They are unwound from the innermost one up. */
  lemma {:induction false} InnermostFirst(g: GenInfo)
    ensures InnerFrames(Some(g)) == Reverse(FramesOf(LinksOf(g)))
    decreases g
  {
    var first := if g.frame != NULL then [g.frame] else [];
    if g.await.None? {
      assert InnerFrames(None) == [] && FramesOf([]) == [];
      assert LinksOf(g)[1..] == [];
      assert first + [] == first;
      ReverseConcat(first, []);
    } else {
      InnermostFirst(g.await.value);
      assert LinksOf(g)[1..] == LinksOf(g.await.value);
      ReverseConcat(first, FramesOf(LinksOf(g.await.value)));
    }
    assert Reverse(first) == first;
  }

  lemma {:induction false} GapEndsRest(h: Heap, maxFrames: nat, size: nat, addrs: seq<Addr>, k: nat)
    requires k < |addrs| && AllVisible(h, addrs[k]) == []
    ensures UnwindRest(h, maxFrames, size, addrs) == UnwindRest(h, maxFrames, size, addrs[..k])
    decreases k
  {
    hide AllVisible;
    if k > 0 {
      assert addrs[..k][1..] == addrs[1..][..k - 1];
      GapEndsRest(h, maxFrames, size + |Appended(h, maxFrames, addrs[0], size)|, addrs[1..], k - 1);
    }
  }

  /** A coroutine that shows nothing ends it: none of those outside it is shown, nor counted. */
  lemma NothingBeyondAGap(h: Heap, maxFrames: nat, size: nat, addrs: seq<Addr>, k: nat)
    requires k < |addrs| && AllVisible(h, addrs[k]) == []
    ensures UnwindTask(h, maxFrames, size, addrs) == UnwindTask(h, maxFrames, size, addrs[..k])
  {
    hide AllVisible;
    if k > 0 {
      assert addrs[..k][1..] == addrs[1..][..k - 1];
      GapEndsRest(h, maxFrames, size + 1, addrs[1..], k - 1);
    }
  }

  /** Every address shows its own frame and no more. */
  ghost predicate EachAlone(h: Heap, addrs: seq<Addr>) {
    forall i :: 0 <= i < |addrs| ==> addrs[i] in h && AllVisible(h, addrs[i]) == [h[addrs[i]].frame]
  }

  lemma {:induction false} EachAloneRest(h: Heap, maxFrames: nat, size: nat, addrs: seq<Addr>)
    requires EachAlone(h, addrs) && size + |addrs| <= maxFrames
    ensures var rest := UnwindRest(h, maxFrames, size, addrs);
            |rest| == |addrs| && forall i :: 0 <= i < |addrs| ==> rest[i] == h[addrs[i]].frame
    decreases |addrs|
  {
    hide AllVisible;
    if addrs != [] {
      EachAloneRest(h, maxFrames, size + 1, addrs[1..]);
    }
  }

  /**
   With room, and when every coroutine of a chain shows itself alone, their frames are added from the one awaited last
   to the outermost one: an awaited coroutine is inside the one that awaits it.
   */
  lemma AwaitedIsInside(h: Heap, maxFrames: nat, size: nat, g: GenInfo)
    requires var fs := FramesOf(LinksOf(g)); EachAlone(h, fs) && size + |fs| <= maxFrames
    ensures var fs, u := FramesOf(LinksOf(g)), UnwindTask(h, maxFrames, size, InnerFrames(Some(g)));
            && |u.added| == u.count == |fs| && (fs != [] ==> u.upper == Some(0))
            && forall i :: 0 <= i < |fs| ==> u.added[i] == h[fs[|fs| - 1 - i]].frame
  {
    hide AllVisible, InnerFrames, FramesOf;
    var fs := FramesOf(LinksOf(g));
    var addrs := Reverse(fs);
    InnermostFirst(g);
    forall i | 0 <= i < |fs|
      ensures addrs[i] == fs[|fs| - 1 - i]
    {
      ReverseAt(fs, i);
    }
    if fs != [] {
      EachAloneRest(h, maxFrames, size + 1, addrs[1..]);
    }
  }

  method PushCoroFrames(coro: GenInfo) returns (coroFrames: seq<Addr>)
    ensures Reverse(coroFrames) == InnerFrames(Some(coro))
  {
    coroFrames := [];
    var current := Some(coro);
    while current.Some?
      invariant InnerFrames(Some(coro)) == InnerFrames(current) + Reverse(coroFrames)
      decreases current
    {
      if current.value.frame != NULL {
        ghost var pushed := coroFrames;
        coroFrames := coroFrames + [current.value.frame];
        ReverseLast(coroFrames);
        assert coroFrames[..|coroFrames| - 1] == pushed;
      }
      current := current.value.await;
    }
  }

  method PopBack(stack: FrameStack, n: nat)
    requires n <= |stack.frames|
    modifies stack
    ensures stack.frames == old(stack.frames)[..|old(stack.frames)| - n]
  {
    var i := 0;
    while i < n
      invariant 0 <= i <= n
      invariant stack.frames == old(stack.frames)[..|old(stack.frames)| - i]
    {
      stack.frames := stack.frames[..|stack.frames| - 1];
      i := i + 1;
    }
  }

  /** How far unwinding has come when the addresses `todo` are left. */
  datatype Progress = Progress(frames: seq<Frame>, count: nat, upper: nat)

  ghost predicate OnTheWay(h: Heap, maxFrames: nat, before: Progress, u: Unwound, now: Progress, todo: seq<Addr>) {
    if now.count == 0 then
      now == before && u == UnwindTask(h, maxFrames, |before.frames|, todo)
    else
      var rest := UnwindRest(h, maxFrames, |now.frames|, todo);
      && before.frames + u.added == now.frames + rest
      && u.count == now.count + |rest| && u.upper == Some(now.upper)
  }

  lemma UnwindStarts(h: Heap, maxFrames: nat, before: Progress, todo: seq<Addr>)
    requires before.count == 0
    ensures OnTheWay(h, maxFrames, before, UnwindTask(h, maxFrames, |before.frames|, todo), before, todo)
    ensures GotSoFar(h, maxFrames, GotBy(h, maxFrames, |before.frames|, todo), [], before, todo)
  {
  }

  lemma UnwindStops(h: Heap, maxFrames: nat, before: Progress, u: Unwound, now: Progress, todo: seq<Addr>)
    requires OnTheWay(h, maxFrames, before, u, now, todo) && before.count == 0
    requires todo == [] || Appended(h, maxFrames, todo[0], |now.frames|) == []
    ensures now.frames == before.frames + u.added && now.count == u.count
    ensures now.upper == if u.upper.Some? then u.upper.value else before.upper
  {
  }

  lemma UnwindNext(h: Heap, maxFrames: nat, before: Progress, u: Unwound, now: Progress,
                   todo: seq<Addr>, fs: seq<Frame>)
    requires OnTheWay(h, maxFrames, before, u, now, todo)
    requires todo != [] && fs == Appended(h, maxFrames, todo[0], |now.frames|) && fs != []
    ensures var next := if now.count == 0 then Progress(now.frames + [fs[0]], |fs|, |fs| - 1)
                        else Progress(now.frames + fs, now.count + |fs|, now.upper);
            OnTheWay(h, maxFrames, before, u, next, todo[1..])
  {
    if now.count > 0 {
      ConcatAssociates(now.frames, fs, UnwindRest(h, maxFrames, |now.frames| + |fs|, todo[1..]));
    } else {
      ConcatAssociates(now.frames, [fs[0]], UnwindRest(h, maxFrames, |now.frames| + 1, todo[1..]));
    }
  }

  /** What was got so far, of all that unwinding gets. */
  ghost predicate GotSoFar(h: Heap, maxFrames: nat, all: seq<Frame>, got: seq<Frame>, now: Progress, todo: seq<Addr>) {
    if now.count == 0 then got == [] && all == GotBy(h, maxFrames, |now.frames|, todo)
    else all == got + UnwindRest(h, maxFrames, |now.frames|, todo)
  }

  lemma GotNext(h: Heap, maxFrames: nat, all: seq<Frame>, got: seq<Frame>, now: Progress, todo: seq<Addr>,
                fs: seq<Frame>)
    requires GotSoFar(h, maxFrames, all, got, now, todo)
    requires todo != [] && fs == Appended(h, maxFrames, todo[0], |now.frames|) && fs != []
    ensures var next := if now.count == 0 then Progress(now.frames + [fs[0]], |fs|, |fs| - 1)
                        else Progress(now.frames + fs, now.count + |fs|, now.upper);
            GotSoFar(h, maxFrames, all, got + fs, next, todo[1..])
  {
    hide Appended;
    if now.count == 0 {
      assert got + fs == fs;
    } else {
      ConcatAssociates(got, fs, UnwindRest(h, maxFrames, |now.frames| + |fs|, todo[1..]));
    }
  }

  lemma GotAll(h: Heap, maxFrames: nat, all: seq<Frame>, got: seq<Frame>, now: Progress, todo: seq<Addr>)
    requires GotSoFar(h, maxFrames, all, got, now, todo)
    requires todo == [] || Appended(h, maxFrames, todo[0], |now.frames|) == []
    ensures got == all
  {
    assert got + [] == got;
  }

  method Unwind(h: Heap, maxFrames: nat, task: TaskInfo, stack: FrameStack, oldUpper: nat)
    returns (count: nat, upper: nat, ghost got: seq<Frame>)
    modifies stack
    ensures var u := UnwindTask(h, maxFrames, |old(stack.frames)|, InnerFrames(Some(task.coro)));
            && stack.frames == old(stack.frames) + u.added
            && count == u.count
            && upper == if u.upper.Some? then u.upper.value else oldUpper
    ensures got == GotBy(h, maxFrames, |old(stack.frames)|, InnerFrames(Some(task.coro)))
  {
    hide OnTheWay, UnwindTask, Appended, Reverse, InnerFrames, GotBy, GotSoFar;
    var coroFrames := PushCoroFrames(task.coro);
    ghost var before := Progress(stack.frames, 0, oldUpper);
    ghost var u := UnwindTask(h, maxFrames, |before.frames|, Reverse(coroFrames));
    ghost var all := GotBy(h, maxFrames, |before.frames|, Reverse(coroFrames));
    count, upper, got := 0, oldUpper, [];
    UnwindStarts(h, maxFrames, before, Reverse(coroFrames));
    while coroFrames != []
      invariant OnTheWay(h, maxFrames, before, u, Progress(stack.frames, count, upper), Reverse(coroFrames))
      invariant GotSoFar(h, maxFrames, all, got, Progress(stack.frames, count, upper), Reverse(coroFrames))
      invariant coroFrames == [] ==> Reverse(coroFrames) == []
      decreases |coroFrames|
    {
      ghost var todo := Reverse(coroFrames);
      ReverseTop(coroFrames);
      var frame := coroFrames[|coroFrames| - 1];
      coroFrames := coroFrames[..|coroFrames| - 1];
      ghost var now := Progress(stack.frames, count, upper);
      ghost var fs := Appended(h, maxFrames, frame, |stack.frames|);
      var newFrames := UnwindFrame(h, maxFrames, frame, stack);
      if newFrames == 0 {
        assert stack.frames == now.frames;
        UnwindStops(h, maxFrames, before, u, now, todo);
        GotAll(h, maxFrames, all, got, now, todo);
        return;
      }
      UnwindNext(h, maxFrames, before, u, now, todo, fs);
      GotNext(h, maxFrames, all, got, now, todo, fs);
      got := got + fs;
      if count == 0 {
        upper := newFrames - 1;
        PopBack(stack, upper);
        assert stack.frames == now.frames + [fs[0]];
      }
      count := count + newFrames;
    }
    UnwindStops(h, maxFrames, before, u, Progress(stack.frames, count, upper), []);
    GotAll(h, maxFrames, all, got, Progress(stack.frames, count, upper), []);
  }

  // ---------------------------------------------------------------------
  // Links, leaves and the walk towards the root

  /** The tasks of a sample and the links in force while its chains are walked (child to parent). */
  datatype Snapshot = Snapshot(tasks: seq<TaskInfo>, links: map<Addr, Addr>)

  /** Every reference in `c` is to a task of the snapshot. */
  predicate Within(s: Snapshot, c: seq<nat>) {
    forall k :: 0 <= k < |c| ==> c[k] < |s.tasks|
  }

  function OriginsOf(tasks: seq<TaskInfo>): set<Addr> {
    set t | t in tasks :: t.origin
  }

  /** The links that survive a sample: those dropped had a child in the last snapshot and not in this one. */
  function CleanLinks(links: map<Addr, Addr>, previous: set<Addr>, current: set<Addr>): map<Addr, Addr> {
    map child | child in links && (child in current || child !in previous) :: links[child]
  }

  /** For every awaited origin, the first task that awaits it. */
  function WaiteeMap(tasks: seq<TaskInfo>, n: nat): map<Addr, nat>
    requires n <= |tasks|
  {
    if n == 0 then map[]
    else
      var m := WaiteeMap(tasks, n - 1);
      var t := tasks[n - 1];
      if t.waiter.Some? && t.waiter.value.origin !in m then m[t.waiter.value.origin := n - 1] else m
  }

  /** For every origin, the first task that has it. */
  function OriginMap(tasks: seq<TaskInfo>, n: nat): map<Addr, nat>
    requires n <= |tasks|
  {
    if n == 0 then map[]
    else
      var m := OriginMap(tasks, n - 1);
      var o := tasks[n - 1].origin;
      if o !in m then m[o := n - 1] else m
  }

  lemma {:induction false} WaiteesAreFirst(tasks: seq<TaskInfo>, n: nat)
    requires n <= |tasks|
    ensures var m := WaiteeMap(tasks, n);
            && (forall o :: o in m ==> m[o] < n && tasks[m[o]].waiter.Some? && tasks[m[o]].waiter.value.origin == o)
            && (forall i :: 0 <= i < n && tasks[i].waiter.Some? ==>
                  tasks[i].waiter.value.origin in m && m[tasks[i].waiter.value.origin] <= i)
  {
    if n == 0 {
    } else {
      WaiteesAreFirst(tasks, n - 1);
    }
  }

  lemma {:induction false} OriginsAreFirst(tasks: seq<TaskInfo>, n: nat)
    requires n <= |tasks|
    ensures var m := OriginMap(tasks, n);
            && (forall o :: o in m ==> m[o] < n && tasks[m[o]].origin == o)
            && (forall i :: 0 <= i < n ==> tasks[i].origin in m && m[tasks[i].origin] <= i)
  {
    if n == 0 {
    } else {
      OriginsAreFirst(tasks, n - 1);
    }
  }

  /** A leaf awaits nothing and is no link's parent; CPU mode wants it running as well. */
  predicate IsLeaf(s: Snapshot, onlyRunning: bool, i: nat)
    requires i < |s.tasks|
  {
    && s.tasks[i].waiter.None?
    && s.tasks[i].origin !in s.links.Values
    && (onlyRunning ==> s.tasks[i].IsOnCpu())
  }

  function Leaves(s: Snapshot, onlyRunning: bool, n: nat): (leaves: seq<nat>)
    requires n <= |s.tasks|
    ensures Within(s, leaves)
    ensures forall i :: i in leaves <==> 0 <= i < n && IsLeaf(s, onlyRunning, i)
  {
    if n == 0 then []
    else Leaves(s, onlyRunning, n - 1) + if IsLeaf(s, onlyRunning, n - 1) then [n - 1] else []
  }

  /** The position of the first leaf that runs. */
  function FirstOnCpu(s: Snapshot, leaves: seq<nat>): (i: nat)
    requires Within(s, leaves)
    ensures i <= |leaves|
    ensures i < |leaves| ==> s.tasks[leaves[i]].IsOnCpu()
    ensures forall j :: 0 <= j < i ==> !s.tasks[leaves[j]].IsOnCpu()
  {
    if leaves == [] || s.tasks[leaves[0]].IsOnCpu() then 0 else 1 + FirstOnCpu(s, leaves[1..])
  }

  function OnCpuFirst(s: Snapshot, leaves: seq<nat>): (r: seq<nat>)
    requires Within(s, leaves)
    ensures forall l :: l in r <==> l in leaves
    ensures |r| == |leaves| && Within(s, r)
    ensures (exists k :: 0 <= k < |leaves| && s.tasks[leaves[k]].IsOnCpu()) ==> s.tasks[r[0]].IsOnCpu()
  {
    var i := FirstOnCpu(s, leaves);
    if i < |leaves| then
      var r := leaves[0 := leaves[i]][i := leaves[0]];
      assert forall l :: l in leaves ==> l in r by {
        forall l | l in leaves
          ensures l in r
        {
          var j :| 0 <= j < |leaves| && leaves[j] == l;
          assert r[if j == 0 then i else if j == i then 0 else j] == l;
        }
      }
      r
    else leaves
  }

  /** The first leaf that runs changes places with the first one, and all the others stay. */
  lemma OnCpuFirstSwaps(s: Snapshot, leaves: seq<nat>)
    requires Within(s, leaves)
    ensures var r := OnCpuFirst(s, leaves);
            && (forall i :: 0 <= i < |leaves| && s.tasks[leaves[i]].coro.isRunning
                            && (forall k :: 0 <= k < i ==> !s.tasks[leaves[k]].coro.isRunning) ==>
                  && r[0] == leaves[i] && r[i] == leaves[0]
                  && forall k :: 0 < k < |leaves| && k != i ==> r[k] == leaves[k])
            && ((forall i :: 0 <= i < |leaves| ==> !s.tasks[leaves[i]].coro.isRunning) ==> r == leaves)
  {
    var first := FirstOnCpu(s, leaves);
    assert forall i :: 0 <= i < first ==> !s.tasks[leaves[i]].IsOnCpu();
  }

  /** The next task of a chain: whoever awaits this one or, failing that, its link's parent. */
  function Next(s: Snapshot, i: nat): (r: Option<nat>)
    requires i < |s.tasks|
    ensures r.Some? ==> r.value < |s.tasks|
  {
    WaiteesAreFirst(s.tasks, |s.tasks|);
    OriginsAreFirst(s.tasks, |s.tasks|);
    var o := s.tasks[i].origin;
    var waitees, origins := WaiteeMap(s.tasks, |s.tasks|), OriginMap(s.tasks, |s.tasks|);
    if o in waitees then Some(waitees[o])
    else if o in s.links && s.links[o] in origins then Some(origins[s.links[o]])
    else None
  }

  /** Task `j` is the first of the snapshot that awaits `o`. */
  ghost predicate IsFirstAwaiter(s: Snapshot, o: Addr, j: nat) {
    && j < |s.tasks| && s.tasks[j].waiter.Some? && s.tasks[j].waiter.value.origin == o
    && forall k :: 0 <= k < j ==> s.tasks[k].waiter.None? || s.tasks[k].waiter.value.origin != o
  }

  /** Task `j` is the first of the snapshot that has origin `o`. */
  ghost predicate IsFirstAt(s: Snapshot, o: Addr, j: nat) {
    && j < |s.tasks| && s.tasks[j].origin == o
    && forall k :: 0 <= k < j ==> s.tasks[k].origin != o
  }

  lemma WaiteeIsFirst(s: Snapshot, o: Addr, j: nat)
    ensures var m := WaiteeMap(s.tasks, |s.tasks|);
            && (IsFirstAwaiter(s, o, j) <==> o in m && m[o] == j)
            && (o in m <==> exists k :: IsFirstAwaiter(s, o, k))
  {
    var m := WaiteeMap(s.tasks, |s.tasks|);
    WaiteesAreFirst(s.tasks, |s.tasks|);
    hide WaiteeMap;
    if o in m { assert IsFirstAwaiter(s, o, m[o]); }
  }

  lemma OriginIsFirst(s: Snapshot, o: Addr, j: nat)
    ensures var m := OriginMap(s.tasks, |s.tasks|);
            IsFirstAt(s, o, j) <==> o in m && m[o] == j
  {
    OriginsAreFirst(s.tasks, |s.tasks|);
    hide OriginMap;
  }

  /** The walk goes on to the first task that awaits this one; only if there is none does a link count. */
  lemma NextIs(s: Snapshot, i: nat, j: nat)
    requires i < |s.tasks|
    ensures var o := s.tasks[i].origin;
            Next(s, i) == Some(j) <==>
              || IsFirstAwaiter(s, o, j)
              || ((forall k :: !IsFirstAwaiter(s, o, k)) && o in s.links && IsFirstAt(s, s.links[o], j))
  {
    hide WaiteeMap, OriginMap, IsFirstAwaiter, IsFirstAt;
    var o := s.tasks[i].origin;
    WaiteeIsFirst(s, o, j);
    if o in s.links { OriginIsFirst(s, s.links[o], j); }
  }

  function UpTo(n: nat): (r: set<nat>)
    ensures forall i :: i in r <==> 0 <= i < n
  {
    if n == 0 then {} else UpTo(n - 1) + {n - 1}
  }

  function Everyone(s: Snapshot): set<nat> {
    UpTo(|s.tasks|)
  }

  /** The walk from `i` up to its end or to the first task met for the second time. */
  function ChainFrom(s: Snapshot, i: nat, todo: set<nat>): (c: seq<nat>)
    requires i < |s.tasks|
    ensures Within(s, c) && forall j :: j in c ==> j in todo
    decreases todo
  {
    if i !in todo then []
    else
      var next := Next(s, i);
      [i] + if next.None? then [] else ChainFrom(s, next.value, todo - {i})
  }

  function Chain(s: Snapshot, i: nat): (c: seq<nat>)
    requires i < |s.tasks|
    ensures c != [] && c[0] == i && Within(s, c)
  {
    ChainFrom(s, i, Everyone(s))
  }

  predicate ChainEnds(s: Snapshot, i: nat)
    requires i < |s.tasks|
  {
    var c := Chain(s, i);
    Next(s, c[|c| - 1]).None?
  }

  // ---------------------------------------------------------------------
  // The stacks

  /** The thread being sampled: what can be read, the limit, and the Python stack already unwound. */
  datatype Thread = Thread(heap: Heap, maxFrames: nat, python: seq<Frame>)

  datatype StackInfo = StackInfo(taskName: Key, onCpu: bool, stack: seq<Frame>)

  /** Frame::get for a task name. */
  function NameFrame(name: Key): Frame {
    Frame(name, 0, name, false)
  }

  datatype Climbing = Climbing(stack: seq<Frame>, upper: nat)

  function StepTask(t: Thread, task: TaskInfo, st: Climbing): Climbing {
    var u := UnwindTask(t.heap, t.maxFrames, |st.stack|, InnerFrames(Some(task.coro)));
    var stack := st.stack + u.added;
    if task.IsOnCpu() then
      var framesToPush := if |t.python| > u.count then |t.python| - u.count else 0;
      Climbing(t.python[..framesToPush] + stack + [NameFrame(task.name)], u.upper.GetOr(st.upper))
    else
      Climbing(stack + [NameFrame(task.name)], st.upper)
  }

  function Climb(t: Thread, s: Snapshot, chain: seq<nat>, st: Climbing): Climbing
    requires Within(s, chain)
  {
    if chain == [] then st else Climb(t, s, chain[1..], StepTask(t, s.tasks[chain[0]], st))
  }

  /** One task of a chain is unwound, and the chain goes on. */
  lemma ClimbOne(t: Thread, s: Snapshot, i: nat, todo: set<nat>, st: Climbing)
    requires i < |s.tasks| && i in todo
    ensures var rest, st', next := ChainFrom(s, i, todo), StepTask(t, s.tasks[i], st), Next(s, i);
            && rest != []
            && (next.None? ==> Climb(t, s, rest, st) == st')
            && (next.Some? && Next(s, rest[|rest| - 1]).None? ==>
                  var rest' := ChainFrom(s, next.value, todo - {i});
                  && next.value in todo - {i} && rest' != [] && Next(s, rest'[|rest'| - 1]).None?
                  && Climb(t, s, rest, st) == Climb(t, s, rest', st'))
  {
    hide Next, StepTask;
    var rest, next := ChainFrom(s, i, todo), Next(s, i);
    if next.None? {
      assert rest[1..] == [];
    } else {
      assert rest[1..] == ChainFrom(s, next.value, todo - {i});
    }
  }

  /** The chain of a leaf, unwound. */
  function LeafTop(t: Thread, s: Snapshot, leaf: nat, upper: nat): Climbing
    requires leaf < |s.tasks|
  {
    Climb(t, s, Chain(s, leaf), Climbing([], upper))
  }

  /** The chain of a leaf with what remains of the thread's stack. */
  function LeafInfo(t: Thread, task: TaskInfo, top: Climbing, seen: bool): StackInfo {
    var start := if seen && |t.python| >= top.upper then |t.python| - top.upper else 0;
    StackInfo(task.name, task.IsOnCpu(), top.stack + t.python[start..])
  }

  /** The upper size last set when the `n`-th leaf is reached. */
  function UpperBefore(t: Thread, s: Snapshot, leaves: seq<nat>, n: nat): nat
    requires Within(s, leaves) && n <= |leaves|
  {
    if n == 0 then 0 else LeafTop(t, s, leaves[n - 1], UpperBefore(t, s, leaves, n - 1)).upper
  }

  /** Whether one of the first `n` leaves runs. */
  function SeenBefore(s: Snapshot, leaves: seq<nat>, n: nat): bool
    requires Within(s, leaves) && n <= |leaves|
  {
    n > 0 && (SeenBefore(s, leaves, n - 1) || s.tasks[leaves[n - 1]].IsOnCpu())
  }

  function InfoAt(t: Thread, s: Snapshot, leaves: seq<nat>, k: nat): StackInfo
    requires Within(s, leaves) && k < |leaves|
  {
    var top := LeafTop(t, s, leaves[k], UpperBefore(t, s, leaves, k));
    LeafInfo(t, s.tasks[leaves[k]], top, SeenBefore(s, leaves, k + 1))
  }

  /** The stacks of the first `n` leaves. */
  function Infos(t: Thread, s: Snapshot, leaves: seq<nat>, n: nat): seq<StackInfo>
    requires Within(s, leaves) && n <= |leaves|
  {
    Tabulate(n, k requires 0 <= k < |leaves| => InfoAt(t, s, leaves, k))
  }

  lemma NoInfosYet(t: Thread, s: Snapshot, leaves: seq<nat>)
    requires Within(s, leaves)
    ensures UpperBefore(t, s, leaves, 0) == 0 && !SeenBefore(s, leaves, 0) && Infos(t, s, leaves, 0) == []
  {
  }

  /** One more leaf unwound. */
  lemma InfosGrow(t: Thread, s: Snapshot, leaves: seq<nat>, n: nat, upper: nat, seen: bool, info: StackInfo)
    requires Within(s, leaves) && n < |leaves|
    requires upper == LeafTop(t, s, leaves[n], UpperBefore(t, s, leaves, n)).upper
    requires seen == (SeenBefore(s, leaves, n) || s.tasks[leaves[n]].IsOnCpu())
    requires info == LeafInfo(t, s.tasks[leaves[n]], LeafTop(t, s, leaves[n], UpperBefore(t, s, leaves, n)), seen)
    ensures UpperBefore(t, s, leaves, n + 1) == upper && SeenBefore(s, leaves, n + 1) == seen
    ensures Infos(t, s, leaves, n + 1) == Infos(t, s, leaves, n) + [info]
  {
  }

  function LeafOrder(s: Snapshot, onlyRunning: bool): (r: seq<nat>)
    ensures Within(s, r)
    ensures forall i :: i in r <==> 0 <= i < |s.tasks| && IsLeaf(s, onlyRunning, i)
  {
    OnCpuFirst(s, Leaves(s, onlyRunning, |s.tasks|))
  }

  function TaskStacks(t: Thread, s: Snapshot, onlyRunning: bool): (r: seq<StackInfo>)
    ensures |r| == |LeafOrder(s, onlyRunning)|
  {
    Infos(t, s, LeafOrder(s, onlyRunning), |LeafOrder(s, onlyRunning)|)
  }

  /** The leaves in terms of the snapshot. */
  lemma LeavesAre(s: Snapshot, onlyRunning: bool, i: nat)
    ensures i in LeafOrder(s, onlyRunning) <==>
              && i < |s.tasks| && s.tasks[i].waiter.None?
              && (forall child :: child in s.links ==> s.links[child] != s.tasks[i].origin)
              && (onlyRunning ==> s.tasks[i].coro.isRunning)
  {
  }

  /** CPU mode takes exactly the leaves of wall mode that run. */
  lemma CpuLeavesAre(s: Snapshot, i: nat)
    ensures i in LeafOrder(s, true) <==> i in LeafOrder(s, false) && s.tasks[i].coro.isRunning
  {
    hide LeafOrder;
    LeavesAre(s, true, i);
    LeavesAre(s, false, i);
  }

  /** Every stack has the name and the running flag of its leaf; in CPU mode, none is of a task that does not run. */
  lemma StacksAreLabelled(t: Thread, s: Snapshot, onlyRunning: bool, k: nat)
    requires k < |TaskStacks(t, s, onlyRunning)|
    ensures var info, leaf := TaskStacks(t, s, onlyRunning)[k], s.tasks[LeafOrder(s, onlyRunning)[k]];
            info.taskName == leaf.name && info.onCpu == leaf.coro.isRunning && (onlyRunning ==> info.onCpu)
  {
    hide LeafOrder, LeafTop, UpperBefore, SeenBefore;
    var order := LeafOrder(s, onlyRunning);
    LeavesAre(s, onlyRunning, order[k]);
    assert TaskStacks(t, s, onlyRunning)[k] == InfoAt(t, s, order, k);
  }

  /** The walk from every leaf comes to an end. */
  predicate LeafChainsEnd(s: Snapshot, onlyRunning: bool) {
    forall i :: 0 <= i < |s.tasks| && IsLeaf(s, onlyRunning, i) ==> ChainEnds(s, i)
  }

  // ---------------------------------------------------------------------
  // ThreadInfo::unwind_tasks

  class TaskUnwinder {
    var taskLinkMap: map<Addr, Addr>
    var previousTaskObjects: set<Addr>
    var currentTasks: seq<StackInfo>

    constructor ()
      ensures taskLinkMap == map[] && previousTaskObjects == {} && currentTasks == []
    {
      taskLinkMap, previousTaskObjects, currentTasks := map[], {}, [];
    }

    method LinkTasks(parent: Addr, child: Addr)
      modifies this`taskLinkMap
      ensures taskLinkMap == old(taskLinkMap)[child := parent]
    {
      taskLinkMap := taskLinkMap[child := parent];
    }

    /** The links a sample of `tasks` leaves. */
    function Cleaned(tasks: seq<TaskInfo>): Snapshot
      reads this
    {
      Snapshot(tasks, CleanLinks(taskLinkMap, previousTaskObjects, OriginsOf(tasks)))
    }

    method RemoveStaleLinks(tasks: seq<TaskInfo>)
      modifies this`taskLinkMap, this`previousTaskObjects
      ensures taskLinkMap == CleanLinks(old(taskLinkMap), old(previousTaskObjects), OriginsOf(tasks))
      ensures previousTaskObjects == OriginsOf(tasks)
    {
      var allTaskOrigins := OriginsOf(tasks);
      var toRemove := set child | child in taskLinkMap && child !in allTaskOrigins;
      ghost var links := taskLinkMap;
      ghost var stale := toRemove;
      while toRemove != {}
        invariant toRemove <= stale && previousTaskObjects == old(previousTaskObjects)
        invariant taskLinkMap == map child |
          child in links && !(child in stale && child !in toRemove && child in previousTaskObjects) :: links[child]
      {
        var key :| key in toRemove;
        toRemove := toRemove - {key};
        if key in previousTaskObjects {
          taskLinkMap := taskLinkMap - {key};
        }
      }
      previousTaskObjects := allTaskOrigins;
    }

    /** Swaps the first running leaf, if there is one, to the front. */
    static method PutOnCpuFirst(s: Snapshot, leafTasks: seq<nat>) returns (r: seq<nat>)
      requires Within(s, leafTasks)
      ensures r == OnCpuFirst(s, leafTasks)
    {
      r := leafTasks;
      for i := 0 to |r|
        invariant r == leafTasks
        invariant i <= FirstOnCpu(s, leafTasks)
        invariant FirstOnCpu(s, leafTasks[i..]) + i == FirstOnCpu(s, leafTasks)
      {
        if s.tasks[r[i]].IsOnCpu() {
          if i > 0 {
            r := r[i := r[0]][0 := r[i]];
          }
          break;
        }
        assert leafTasks[i..][1..] == leafTasks[i + 1..];
      }
    }

    /** Puts the first `n` frames of the Python stack in front of a stack, the outermost of them first. */
    static method PushFront(stack: FrameStack, python: seq<Frame>, n: nat)
      requires n <= |python|
      modifies stack
      ensures stack.frames == python[..n] + old(stack.frames)
    {
      for i := 0 to n
        invariant stack.frames == python[n - i..n] + old(stack.frames)
      {
        assert python[n - i - 1..n] == [python[n - i - 1]] + python[n - i..n];
        ConcatAssociates([python[n - i - 1]], python[n - i..n], old(stack.frames));
        stack.frames := [python[n - i - 1]] + stack.frames;
      }
    }

    /** Puts the frames of the Python stack from `start` on at the end of a stack. */
    static method PushBack(stack: FrameStack, python: seq<Frame>, start: nat)
      requires start <= |python|
      modifies stack
      ensures stack.frames == old(stack.frames) + python[start..]
    {
      for i := start to |python|
        invariant stack.frames == old(stack.frames) + python[start..i]
      {
        assert python[start..i + 1] == python[start..i] + [python[i]];
        ConcatAssociates(old(stack.frames), python[start..i], [python[i]]);
        stack.frames := stack.frames + [python[i]];
      }
      assert python[start..|python|] == python[start..];
    }

    /** Unwinds one task of a chain and adds its name. */
    static method VisitTask(t: Thread, task: TaskInfo, stack: FrameStack, oldUpper: nat)
      returns (upper: nat, ghost got: seq<Frame>)
      modifies stack
      ensures got == GotBy(t.heap, t.maxFrames, |old(stack.frames)|, InnerFrames(Some(task.coro)))
                       + [NameFrame(task.name)]
      ensures Climbing(stack.frames, upper) == StepTask(t, task, Climbing(old(stack.frames), oldUpper))
    {
      hide UnwindTask, InnerFrames, GotBy;
      upper := oldUpper;
      var unused: nat := 0;
      var taskStackSize, newUpper;
      taskStackSize, newUpper, got :=
        Unwind(t.heap, t.maxFrames, task, stack, if task.IsOnCpu() then upper else unused);
      if task.IsOnCpu() {
        upper := newUpper;
        var framesToPush := if |t.python| > taskStackSize then |t.python| - taskStackSize else 0;
        PushFront(stack, t.python, framesToPush);
      }
      stack.frames := stack.frames + [NameFrame(task.name)];
      got := got + [NameFrame(task.name)];
    }

    /** Unwinds the chain of tasks that starts at a leaf. */
    method WalkUp(t: Thread, s: Snapshot, originMap: map<Addr, nat>, waiteeMap: map<Addr, nat>,
                  leafTask: nat, oldUpper: nat)
      returns (stack: FrameStack, upper: nat)
      requires leafTask < |s.tasks| && s.links == taskLinkMap && ChainEnds(s, leafTask)
      requires originMap == OriginMap(s.tasks, |s.tasks|) && waiteeMap == WaiteeMap(s.tasks, |s.tasks|)
      ensures fresh(stack)
      ensures Climbing(stack.frames, upper) == LeafTop(t, s, leafTask, oldUpper)
    {
      hide ChainFrom, Climb, StepTask, WaiteeMap, OriginMap;
      stack := new FrameStack();
      upper := oldUpper;
      var currentTask := leafTask;
      ghost var todo := Everyone(s);
      ghost var whole := Climb(t, s, Chain(s, leafTask), Climbing([], oldUpper));
      while true
        invariant currentTask < |s.tasks| && currentTask in todo && fresh(stack)
        invariant var rest := ChainFrom(s, currentTask, todo);
          && rest != [] && Climb(t, s, rest, Climbing(stack.frames, upper)) == whole
          && Next(s, rest[|rest| - 1]).None?
        decreases todo
      {
        ClimbOne(t, s, currentTask, todo, Climbing(stack.frames, upper));
        ghost var got;
        upper, got := VisitTask(t, s.tasks[currentTask], stack, upper);
        todo := todo - {currentTask};

        var origin := s.tasks[currentTask].origin;
        if origin in waiteeMap {
          currentTask := waiteeMap[origin];
        } else if origin in taskLinkMap && taskLinkMap[origin] in originMap {
          currentTask := originMap[taskLinkMap[origin]];
        } else {
          break;
        }
      }
    }

    /** One pass over the snapshot: who awaits whom, who is where, and the leaves. */
    method FindLeaves(s: Snapshot, onlyRunning: bool)
      returns (originMap: map<Addr, nat>, waiteeMap: map<Addr, nat>, leafTasks: seq<nat>)
      requires s.links == taskLinkMap
      ensures originMap == OriginMap(s.tasks, |s.tasks|) && waiteeMap == WaiteeMap(s.tasks, |s.tasks|)
      ensures leafTasks == Leaves(s, onlyRunning, |s.tasks|)
    {
      var parentTasks := taskLinkMap.Values;
      originMap, waiteeMap, leafTasks := map[], map[], [];
      for i := 0 to |s.tasks|
        invariant originMap == OriginMap(s.tasks, i) && waiteeMap == WaiteeMap(s.tasks, i)
        invariant leafTasks == Leaves(s, onlyRunning, i)
      {
        var task := s.tasks[i];
        if task.origin !in originMap {
          originMap := originMap[task.origin := i];
        }
        if task.waiter.Some? {
          if task.waiter.value.origin !in waiteeMap {
            waiteeMap := waiteeMap[task.waiter.value.origin := i];
          }
        } else if task.origin !in parentTasks {
          if onlyRunning && !task.IsOnCpu() {
            continue;
          }
          leafTasks := leafTasks + [i];
        }
      }
    }

    /** The whole stack of one leaf. */
    method UnwindLeaf(t: Thread, s: Snapshot, originMap: map<Addr, nat>, waiteeMap: map<Addr, nat>,
                      leafTask: nat, oldUpper: nat, onCpuTaskSeen: bool)
      returns (info: StackInfo, upper: nat)
      requires leafTask < |s.tasks| && s.links == taskLinkMap && ChainEnds(s, leafTask)
      requires originMap == OriginMap(s.tasks, |s.tasks|) && waiteeMap == WaiteeMap(s.tasks, |s.tasks|)
      ensures upper == LeafTop(t, s, leafTask, oldUpper).upper
      ensures info == LeafInfo(t, s.tasks[leafTask], LeafTop(t, s, leafTask, oldUpper), onCpuTaskSeen)
    {
      var stack;
      stack, upper := WalkUp(t, s, originMap, waiteeMap, leafTask, oldUpper);
      var startIndex := 0;
      if onCpuTaskSeen && |t.python| >= upper {
        startIndex := |t.python| - upper;
      }
      PushBack(stack, t.python, startIndex);
      info := StackInfo(s.tasks[leafTask].name, s.tasks[leafTask].IsOnCpu(), stack.frames);
    }

    /** The stacks of all the leaves, in order. */
    method UnwindLeaves(t: Thread, s: Snapshot, originMap: map<Addr, nat>, waiteeMap: map<Addr, nat>,
                        leafTasks: seq<nat>)
      requires Within(s, leafTasks) && forall k :: 0 <= k < |leafTasks| ==> ChainEnds(s, leafTasks[k])
      requires s.links == taskLinkMap
      requires originMap == OriginMap(s.tasks, |s.tasks|) && waiteeMap == WaiteeMap(s.tasks, |s.tasks|)
      modifies this`currentTasks
      ensures currentTasks == old(currentTasks) + Infos(t, s, leafTasks, |leafTasks|)
    {
      hide Infos, UpperBefore, SeenBefore, LeafTop, LeafInfo, OriginMap, WaiteeMap;
      var upperPythonStackSize: nat := 0;
      var onCpuTaskSeen := false;
      NoInfosYet(t, s, leafTasks);
      for n := 0 to |leafTasks|
        invariant upperPythonStackSize == UpperBefore(t, s, leafTasks, n)
        invariant onCpuTaskSeen == SeenBefore(s, leafTasks, n)
        invariant currentTasks == old(currentTasks) + Infos(t, s, leafTasks, n)
      {
        var leafTask := leafTasks[n];
        onCpuTaskSeen := onCpuTaskSeen || s.tasks[leafTask].IsOnCpu();
        var info;
        info, upperPythonStackSize :=
          UnwindLeaf(t, s, originMap, waiteeMap, leafTask, upperPythonStackSize, onCpuTaskSeen);
        InfosGrow(t, s, leafTasks, n, upperPythonStackSize, onCpuTaskSeen, info);
        ConcatAssociates(old(currentTasks), Infos(t, s, leafTasks, n), [info]);
        currentTasks := currentTasks + [info];
      }
    }

    method UnwindTasks(t: Thread, allTasks: Option<seq<TaskInfo>>, onlyRunning: bool) returns (ok: bool)
      requires allTasks.Some? ==> LeafChainsEnd(Cleaned(allTasks.value), onlyRunning)
      modifies this
      ensures ok == allTasks.Some?
      ensures !ok ==> taskLinkMap == old(taskLinkMap) && previousTaskObjects == old(previousTaskObjects)
                      && currentTasks == old(currentTasks)
      ensures ok ==>
        var s := old(Cleaned(allTasks.value));
        && taskLinkMap == s.links && previousTaskObjects == OriginsOf(s.tasks)
        && currentTasks == old(currentTasks) + TaskStacks(t, s, onlyRunning)
    {
      if allTasks.None? {
        return false;
      }
      var s := Cleaned(allTasks.value);
      RemoveStaleLinks(s.tasks);
      var originMap, waiteeMap, leafTasks := FindLeaves(s, onlyRunning);
      leafTasks := PutOnCpuFirst(s, leafTasks);
      forall k | 0 <= k < |leafTasks|
        ensures ChainEnds(s, leafTasks[k])
      {
        assert leafTasks[k] in leafTasks;
      }
      UnwindLeaves(t, s, originMap, waiteeMap, leafTasks);
      return true;
    }
  }
}
