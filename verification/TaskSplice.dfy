/**
 What the stitched stacks are made of, whichever tasks are on CPU
 (echion/threads.h:305-391, echion/tasks.h:363-410).
 */
module TaskSplice {
  import opened Seqs
  import opened Target
  import opened Wrappers
  import opened Frames
  import opened TaskBuild
  import opened TaskStitch
  import opened TaskChains

  /** What a task that does not run adds to a stack of `size` frames: its frames and its name. */
  function Own(t: Thread, task: TaskInfo, size: nat): seq<Frame> {
    UnwindTask(t.heap, t.maxFrames, size, InnerFrames(Some(task.coro))).added + [NameFrame(task.name)]
  }

  /** What a chain of such tasks adds. */
  function Suspended(t: Thread, s: Snapshot, chain: seq<nat>, size: nat): seq<Frame>
    requires Within(s, chain)
    decreases |chain|
  {
    if chain == [] then []
    else
      var own := Own(t, s.tasks[chain[0]], size);
      own + Suspended(t, s, chain[1..], size + |own|)
  }

  /** The coroutine at address `frame` awaits nothing and is what the Python stack shows at position `k`. */
  ghost predicate SitsAt(t: Thread, coro: GenInfo, k: nat) {
    && coro.await.None? && coro.frame != NULL
    && k < |t.python| && |t.python| <= t.maxFrames
    && AllVisible(t.heap, coro.frame) == t.python[k..]
  }

  ghost predicate NoneRuns(s: Snapshot, chain: seq<nat>)
    requires Within(s, chain)
  {
    forall k :: 0 <= k < |chain| ==> !s.tasks[chain[k]].IsOnCpu()
  }

  /** The task at position `m` of the chain is the last one on it that runs. */
  ghost predicate LastRunsAt(s: Snapshot, chain: seq<nat>, m: nat)
    requires Within(s, chain)
  {
    && m < |chain| && s.tasks[chain[m]].IsOnCpu()
    && forall i :: m < i < |chain| ==> !s.tasks[chain[i]].IsOnCpu()
  }

  /** Some leaf runs. */
  ghost predicate SomeLeafRuns(s: Snapshot, onlyRunning: bool) {
    exists i :: 0 <= i < |s.tasks| && IsLeaf(s, onlyRunning, i) && s.tasks[i].IsOnCpu()
  }

  /** One task runs, and no other. */
  ghost predicate OnlyOneRuns(s: Snapshot, x: nat) {
    x < |s.tasks| && forall i :: 0 <= i < |s.tasks| ==> (s.tasks[i].IsOnCpu() <==> i == x)
  }

  /**
   On an acyclic, untruncated Python stack unwound from `top`, a coroutine whose frame is the `j`-th
   address of the walk sits at the position of its frame among the visible ones.
   */
  lemma OnTheStackMeansSitsAt(t: Thread, top: Addr, coro: GenInfo, j: nat)
    requires t.python == AllVisible(t.heap, top) && |t.python| <= t.maxFrames && EndsCleanly(t.heap, top)
    requires coro.await.None? && j < |WalkPath(t.heap, top, {})| && coro.frame == WalkPath(t.heap, top, {})[j]
    requires coro.frame in t.heap && t.heap[coro.frame].frame.name != C_FRAME
    ensures forall i :: 0 <= i < j ==> WalkPath(t.heap, top, {})[i] in t.heap
    ensures SitsAt(t, coro, |Visible(t.heap, WalkPath(t.heap, top, {})[..j])|)
  {
    hide WalkPath, AllVisible, Visible, EndsCleanly;
    WalkPathIsLongest(t.heap, top);
    VisibleFromTheMiddle(t.heap, top, j, |Visible(t.heap, WalkPath(t.heap, top, {})[..j])|);
    ShowsItself(t.heap, coro.frame);
  }

  lemma ShowsItself(h: Heap, a: Addr)
    requires a != NULL && a in h && h[a].frame.name != C_FRAME
    ensures AllVisible(h, a) != []
  {
    VisibleStep(h, a, {});
  }

  // ---------------------------------------------------------------------
  // Climbing

  lemma StepSuspended(t: Thread, task: TaskInfo, st: Climbing)
    requires !task.IsOnCpu()
    ensures StepTask(t, task, st) == Climbing(st.stack + Own(t, task, |st.stack|), st.upper)
  {
  }

  lemma SuspendedNext(t: Thread, s: Snapshot, chain: seq<nat>, size: nat, size': nat, own: seq<Frame>)
    requires Within(s, chain) && chain != [] && own == Own(t, s.tasks[chain[0]], size) && size' == size + |own|
    ensures Suspended(t, s, chain, size) == own + Suspended(t, s, chain[1..], size')
  {
    hide Own;
  }

  lemma {:induction false} ClimbSuspended(t: Thread, s: Snapshot, chain: seq<nat>, st: Climbing)
    requires Within(s, chain) && NoneRuns(s, chain)
    ensures Climb(t, s, chain, st) == Climbing(st.stack + Suspended(t, s, chain, |st.stack|), st.upper)
  {
    if chain == [] {
      assert st.stack + [] == st.stack;
    } else {
      var own := Own(t, s.tasks[chain[0]], |st.stack|);
      var st' := Climbing(st.stack + own, st.upper);
      StepSuspended(t, s.tasks[chain[0]], st);
      SuspendedNext(t, s, chain, |st.stack|, |st'.stack|, own);
      ConcatAssociates(st.stack, own, Suspended(t, s, chain[1..], |st'.stack|));
      ClimbSuspended(t, s, chain[1..], st');
    }
  }

  /** How many frames a coroutine at position `k` shows on a stack of `size` frames. */
  function Shown(t: Thread, k: nat, size: nat): (n: nat)
    requires k <= |t.python|
    ensures n <= |t.python| - k
  {
    |Take(t.python[k..], t.maxFrames - size)|
  }

  /** A stack of `size` frames has room for the Python stack from position `k` on. */
  predicate Fits(t: Thread, k: nat, size: nat)
    requires k <= |t.python|
  {
    size + |t.python| - k <= t.maxFrames
  }

  /** The coroutine shows all of that iff there is room for it. */
  lemma ShownFits(t: Thread, k: nat, size: nat)
    requires k < |t.python|
    ensures Shown(t, k, size) == |t.python| - k <==> Fits(t, k, size)
  {
  }

  /** The frames before what the running task shows, those below the task, and its coroutine and its name. */
  function RunningPart(t: Thread, name: Key, k: nat, below: seq<Frame>): seq<Frame>
    requires k < |t.python|
  {
    var shown := Shown(t, k, |below|);
    t.python[..|t.python| - shown] + below + (if shown > 0 then [t.python[k]] else []) + [NameFrame(name)]
  }

  /** The upper size that it leaves. */
  function UpperAfter(t: Thread, k: nat, size: nat, upper: nat): nat
    requires k <= |t.python|
  {
    if Shown(t, k, size) > 0 then Shown(t, k, size) - 1 else upper
  }

  lemma PartThatFits(t: Thread, name: Key, k: nat, below: seq<Frame>)
    requires k < |t.python| && Fits(t, k, |below|)
    ensures RunningPart(t, name, k, below) == t.python[..k] + below + [t.python[k]] + [NameFrame(name)]
    ensures forall upper :: UpperAfter(t, k, |below|, upper) == |t.python| - k - 1
  {
  }

  /** The running task moves its own part of the Python stack to the front and keeps the rest for later. */
  lemma StepRunning(t: Thread, task: TaskInfo, st: Climbing, k: nat)
    requires task.IsOnCpu() && SitsAt(t, task.coro, k)
    ensures StepTask(t, task, st)
      == Climbing(RunningPart(t, task.name, k, st.stack), UpperAfter(t, k, |st.stack|, st.upper))
  {
    hide UnwindTask, InnerFrames, AllVisible, Take;
    OneInnerFrame(task.coro);
    var fs := Appended(t.heap, t.maxFrames, task.coro.frame, |st.stack|);
    assert fs == Take(t.python[k..], t.maxFrames - |st.stack|);
    TakeFirst(t.python, k, t.maxFrames - |st.stack|);
    UnwindOne(t.heap, t.maxFrames, |st.stack|, task.coro.frame);
    var u := UnwindTask(t.heap, t.maxFrames, |st.stack|, [task.coro.frame]);
    ConcatAssociates(t.python[..|t.python| - |fs|], st.stack, u.added);
  }

  lemma OneInnerFrame(coro: GenInfo)
    requires coro.await.None? && coro.frame != NULL
    ensures InnerFrames(Some(coro)) == [coro.frame]
  {
  }

  lemma TakeFirst<T>(s: seq<T>, k: nat, n: int)
    requires k < |s|
    ensures |Take(s[k..], n)| <= |s| - k
    ensures Take(s[k..], n) != [] ==> Take(s[k..], n)[0] == s[k]
  {
  }

  lemma UnwindOne(h: Heap, maxFrames: nat, size: nat, a: Addr)
    ensures var fs := Appended(h, maxFrames, a, size);
            UnwindTask(h, maxFrames, size, [a])
              == if fs == [] then Unwound([], 0, None) else Unwound([fs[0]], |fs|, Some(|fs| - 1))
  {
    hide Appended;
    assert [a][1..] == [];
  }

  // ---------------------------------------------------------------------
  // A leaf is met first or not at all

  lemma NextIsNeverALeaf(s: Snapshot, onlyRunning: bool, i: nat)
    requires i < |s.tasks| && Next(s, i).Some?
    ensures !IsLeaf(s, onlyRunning, Next(s, i).value)
  {
    WaiteesAreFirst(s.tasks, |s.tasks|);
    OriginsAreFirst(s.tasks, |s.tasks|);
  }

  lemma LeafIsOnlyFirst(s: Snapshot, onlyRunning: bool, i: nat, leaf: nat, n: nat)
    requires i < |s.tasks| && leaf < |s.tasks| && IsLeaf(s, onlyRunning, leaf)
    requires 0 < n < |Chain(s, i)|
    ensures Chain(s, i)[n] != leaf
  {
    ChainShape(s, i);
    assert Next(s, Chain(s, i)[n - 1]) == Some(Chain(s, i)[n]);
    NextIsNeverALeaf(s, onlyRunning, Chain(s, i)[n - 1]);
  }

  /** The leaves are found in the order of the snapshot. */
  lemma {:induction false} LeavesIncrease(s: Snapshot, onlyRunning: bool, n: nat, j: nat, k: nat)
    requires n <= |s.tasks| && j < k < |Leaves(s, onlyRunning, n)|
    ensures Leaves(s, onlyRunning, n)[j] < Leaves(s, onlyRunning, n)[k]
  {
    var before := Leaves(s, onlyRunning, n - 1);
    if k < |before| {
      LeavesIncrease(s, onlyRunning, n - 1, j, k);
    } else {
      assert before[j] in before;
    }
  }

  lemma LeafOrderNoRepeats(s: Snapshot, onlyRunning: bool)
    ensures NoRepeats(LeafOrder(s, onlyRunning))
  {
    var leaves := Leaves(s, onlyRunning, |s.tasks|);
    forall j, k | 0 <= j < k < |leaves|
      ensures leaves[j] != leaves[k]
    {
      LeavesIncrease(s, onlyRunning, |s.tasks|, j, k);
    }
  }

  lemma {:induction false} SeenWhenRan(s: Snapshot, leaves: seq<nat>, n: nat)
    requires Within(s, leaves) && n <= |leaves|
    ensures SeenBefore(s, leaves, n) <==> exists j :: 0 <= j < n && s.tasks[leaves[j]].IsOnCpu()
  {
    if n == 0 {
    } else {
      SeenWhenRan(s, leaves, n - 1);
    }
  }

  /** A running leaf is processed first, so it has been seen whichever leaf is processed. */
  lemma RunningLeafIsFirst(s: Snapshot, onlyRunning: bool, n: nat)
    requires n < |LeafOrder(s, onlyRunning)|
    ensures var order := LeafOrder(s, onlyRunning);
            && (s.tasks[order[0]].IsOnCpu() <==> SomeLeafRuns(s, onlyRunning))
            && (SeenBefore(s, order, n + 1) <==> SomeLeafRuns(s, onlyRunning))
  {
    var leaves, order := Leaves(s, onlyRunning, |s.tasks|), LeafOrder(s, onlyRunning);
    SeenWhenRan(s, order, n + 1);
    if SomeLeafRuns(s, onlyRunning) {
      var i :| 0 <= i < |s.tasks| && IsLeaf(s, onlyRunning, i) && s.tasks[i].IsOnCpu();
      assert i in leaves;
      var k :| 0 <= k < |leaves| && leaves[k] == i;
      assert s.tasks[leaves[k]].IsOnCpu();
    } else {
      assert forall j :: 0 <= j < |order| ==> order[j] in order && !s.tasks[order[j]].IsOnCpu();
    }
  }

  // ---------------------------------------------------------------------
  // The splice

  lemma {:induction false} ClimbSplits(t: Thread, s: Snapshot, a: seq<nat>, b: seq<nat>, st: Climbing)
    requires Within(s, a + b)
    ensures Within(s, a) && Within(s, b)
    ensures Climb(t, s, a + b, st) == Climb(t, s, b, Climb(t, s, a, st))
  {
    assert forall k :: 0 <= k < |a| ==> a[k] == (a + b)[k];
    assert forall k :: 0 <= k < |b| ==> b[k] == (a + b)[|a| + k];
    if a == [] {
      assert a + b == b;
    } else {
      assert (a + b)[1..] == a[1..] + b;
      ClimbSplits(t, s, a[1..], b, StepTask(t, s.tasks[a[0]], st));
    }
  }

  /** What a chain builds does not depend on the upper size it starts with. */
  lemma {:induction false} UpperDoesNotShow(t: Thread, s: Snapshot, chain: seq<nat>, stack: seq<Frame>, u: nat, v: nat)
    requires Within(s, chain)
    ensures Climb(t, s, chain, Climbing(stack, u)).stack == Climb(t, s, chain, Climbing(stack, v)).stack
  {
    if chain == [] {
    } else {
      var task := s.tasks[chain[0]];
      var x, y := StepTask(t, task, Climbing(stack, u)), StepTask(t, task, Climbing(stack, v));
      UpperDoesNotShow(t, s, chain[1..], x.stack, x.upper, y.upper);
    }
  }

  /** What the first `m` tasks of a chain build. */
  function Below(t: Thread, s: Snapshot, chain: seq<nat>, m: nat): seq<Frame>
    requires Within(s, chain) && m <= |chain|
  {
    Climb(t, s, chain[..m], Climbing([], 0)).stack
  }

  /** When none of them runs, it is their frames and names. */
  lemma BelowSuspended(t: Thread, s: Snapshot, chain: seq<nat>, m: nat)
    requires Within(s, chain) && m <= |chain| && NoneRuns(s, chain[..m])
    ensures Below(t, s, chain, m) == Suspended(t, s, chain[..m], 0)
  {
    ClimbSuspended(t, s, chain[..m], Climbing([], 0));
  }

  /** A chain whose last running task is at position `m`, with its coroutine at position `k` of the Python stack. */
  lemma RunningTop(t: Thread, s: Snapshot, leaf: nat, upper: nat, m: nat, k: nat)
    requires leaf < |s.tasks| && LastRunsAt(s, Chain(s, leaf), m)
    requires SitsAt(t, s.tasks[Chain(s, leaf)[m]].coro, k)
    ensures var chain := Chain(s, leaf);
            var below := Below(t, s, chain, m);
            var part := RunningPart(t, s.tasks[chain[m]].name, k, below);
            && LeafTop(t, s, leaf, upper).stack == part + Suspended(t, s, chain[m + 1..], |part|)
            && (Fits(t, k, |below|) ==> LeafTop(t, s, leaf, upper).upper == |t.python| - k - 1)
  {
    var chain := Chain(s, leaf);
    var st := Climbing([], upper);
    assert chain == chain[..m] + chain[m..];
    ClimbSplits(t, s, chain[..m], chain[m..], st);
    UpperDoesNotShow(t, s, chain[..m], [], upper, 0);
    var here := Climb(t, s, chain[..m], st);
    StepRunning(t, s.tasks[chain[m]], here, k);
    assert chain[m..][1..] == chain[m + 1..];
    ClimbSuspended(t, s, chain[m + 1..], StepTask(t, s.tasks[chain[m]], here));
    if Fits(t, k, |here.stack|) {
      PartThatFits(t, s.tasks[chain[m]].name, k, here.stack);
      assert UpperAfter(t, k, |here.stack|, here.upper) == |t.python| - k - 1;
    }
  }

  /** A chain on which no task runs. */
  lemma SuspendedTop(t: Thread, s: Snapshot, leaf: nat, upper: nat)
    requires leaf < |s.tasks| && NoneRuns(s, Chain(s, leaf))
    ensures LeafTop(t, s, leaf, upper) == Climbing(Suspended(t, s, Chain(s, leaf), 0), upper)
  {
    ClimbSuspended(t, s, Chain(s, leaf), Climbing([], upper));
    assert [] + Suspended(t, s, Chain(s, leaf), 0) == Suspended(t, s, Chain(s, leaf), 0);
  }

  /** Where the rest of the Python stack starts behind a leaf's chain: an upper size is used if some leaf runs. */
  function Rest(t: Thread, seen: bool, upper: nat): seq<Frame> {
    t.python[if seen && |t.python| >= upper then |t.python| - upper else 0..]
  }

  lemma StackAt(t: Thread, s: Snapshot, onlyRunning: bool, n: nat)
    requires n < |LeafOrder(s, onlyRunning)|
    ensures var order := LeafOrder(s, onlyRunning);
            var top := LeafTop(t, s, order[n], UpperBefore(t, s, order, n));
            TaskStacks(t, s, onlyRunning)[n].stack == top.stack + Rest(t, SomeLeafRuns(s, onlyRunning), top.upper)
  {
    assert TaskStacks(t, s, onlyRunning)[n] == InfoAt(t, s, LeafOrder(s, onlyRunning), n);
    RunningLeafIsFirst(s, onlyRunning, n);
  }

  /**
   The Python stack cut open behind position `k`: what is below the running task goes in before its coroutine, its
   name and its ancestors behind.
   */
  function CutOpen(t: Thread, s: Snapshot, chain: seq<nat>, m: nat, k: nat, below: seq<Frame>): seq<Frame>
    requires Within(s, chain) && m < |chain| && k < |t.python|
  {
    var part := t.python[..k] + below + [t.python[k]] + [NameFrame(s.tasks[chain[m]].name)];
    part + Suspended(t, s, chain[m + 1..], |part|)
  }

  lemma LongerRestDiffers(a: seq<Frame>, python: seq<Frame>, k: nat)
    requires k < |python|
    ensures a + python != a + python[k + 1..]
  {
    assert |a + python| != |a + python[k + 1..]|;
  }

  /**
   Through its last running task, and if the coroutine and what is above it fits, a leaf's stack is the Python stack
   cut open behind that coroutine, the rest of which follows; it is so iff some leaf runs.  If none does, the whole
   Python stack follows, and what is up to the coroutine is there twice.
   */
  lemma SpliceConservesIff(t: Thread, s: Snapshot, onlyRunning: bool, n: nat, m: nat, k: nat)
    requires n < |LeafOrder(s, onlyRunning)| && LastRunsAt(s, Chain(s, LeafOrder(s, onlyRunning)[n]), m)
    requires SitsAt(t, s.tasks[Chain(s, LeafOrder(s, onlyRunning)[n])[m]].coro, k)
    requires Fits(t, k, |Below(t, s, Chain(s, LeafOrder(s, onlyRunning)[n]), m)|)
    ensures var chain, stack := Chain(s, LeafOrder(s, onlyRunning)[n]), TaskStacks(t, s, onlyRunning)[n].stack;
            var cut := CutOpen(t, s, chain, m, k, Below(t, s, chain, m));
            && (stack == cut + t.python[k + 1..] <==> SomeLeafRuns(s, onlyRunning))
            && (stack == cut + t.python <==> !SomeLeafRuns(s, onlyRunning))
  {
    hide LeafOrder, LeafTop, Chain, Suspended, SitsAt, TaskStacks, SomeLeafRuns, Below, UpperBefore;
    var order := LeafOrder(s, onlyRunning);
    var chain := Chain(s, order[n]);
    var below := Below(t, s, chain, m);
    RunningTop(t, s, order[n], UpperBefore(t, s, order, n), m, k);
    PartThatFits(t, s.tasks[chain[m]].name, k, below);
    StackAt(t, s, onlyRunning, n);
    assert t.python[0..] == t.python;
    LongerRestDiffers(CutOpen(t, s, chain, m, k, below), t.python, k);
  }

  /**
   Without room for all that the running task shows, the cut is further down: the coroutine's frame, and as many
   beyond it as are not shown less one, come before what is below the task, and the coroutine's frame, if it is
   shown, after it again.
   */
  lemma NoRoomMisplaces(t: Thread, s: Snapshot, onlyRunning: bool, n: nat, m: nat, k: nat)
    requires n < |LeafOrder(s, onlyRunning)| && LastRunsAt(s, Chain(s, LeafOrder(s, onlyRunning)[n]), m)
    requires SitsAt(t, s.tasks[Chain(s, LeafOrder(s, onlyRunning)[n])[m]].coro, k)
    requires !Fits(t, k, |Below(t, s, Chain(s, LeafOrder(s, onlyRunning)[n]), m)|)
    ensures var below := Below(t, s, Chain(s, LeafOrder(s, onlyRunning)[n]), m);
            var cut := |t.python| - Shown(t, k, |below|);
            && k < cut
            && t.python[..cut] + below + (if cut < |t.python| then [t.python[k]] else [])
                 <= TaskStacks(t, s, onlyRunning)[n].stack
  {
    hide LeafOrder, LeafTop, Chain, Suspended, TaskStacks, SomeLeafRuns, Below, Rest, UpperBefore;
    var order := LeafOrder(s, onlyRunning);
    var chain := Chain(s, order[n]);
    RunningTop(t, s, order[n], UpperBefore(t, s, order, n), m, k);
    StackAt(t, s, onlyRunning, n);
    ShownFits(t, k, |Below(t, s, chain, m)|);
  }

  lemma NothingBelow(t: Thread, s: Snapshot, chain: seq<nat>, coro: GenInfo, k: nat)
    requires Within(s, chain) && SitsAt(t, coro, k)
    ensures Below(t, s, chain, 0) == [] && k < |t.python| && Fits(t, k, 0)
  {
  }

  /** The Python stack with a running leaf's name and its ancestors inserted after its coroutine. */
  function Conserved(t: Thread, s: Snapshot, chain: seq<nat>, k: nat): seq<Frame>
    requires Within(s, chain) && chain != [] && k < |t.python|
  {
    t.python[..k + 1] + [NameFrame(s.tasks[chain[0]].name)] + Suspended(t, s, chain[1..], k + 2) + t.python[k + 1..]
  }

  /** A running leaf below ancestors that do not run has a stack that conserves the Python stack. */
  lemma RunningLeafConserves(t: Thread, s: Snapshot, onlyRunning: bool, n: nat, k: nat)
    requires n < |LeafOrder(s, onlyRunning)| && LastRunsAt(s, Chain(s, LeafOrder(s, onlyRunning)[n]), 0)
    requires SitsAt(t, s.tasks[LeafOrder(s, onlyRunning)[n]].coro, k)
    ensures var x := LeafOrder(s, onlyRunning)[n];
            k < |t.python| && TaskStacks(t, s, onlyRunning)[n].stack == Conserved(t, s, Chain(s, x), k)
  {
    hide LeafOrder, Suspended, TaskStacks, SomeLeafRuns, Chain, Below, SitsAt;
    var x := LeafOrder(s, onlyRunning)[n];
    NothingBelow(t, s, Chain(s, x), s.tasks[x].coro, k);
    SpliceConservesIff(t, s, onlyRunning, n, 0, k);
    LeafOfOrder(s, onlyRunning, n);
    assert t.python[..k] + [] + [t.python[k]] == t.python[..k + 1];
  }

  lemma LeafOfOrder(s: Snapshot, onlyRunning: bool, n: nat)
    requires n < |LeafOrder(s, onlyRunning)|
    ensures IsLeaf(s, onlyRunning, LeafOrder(s, onlyRunning)[n])
    ensures s.tasks[LeafOrder(s, onlyRunning)[n]].IsOnCpu() ==> SomeLeafRuns(s, onlyRunning)
  {
    assert LeafOrder(s, onlyRunning)[n] in LeafOrder(s, onlyRunning);
  }

  // ---------------------------------------------------------------------
  // A running leaf, exactly

  /** How many frames of the Python stack a task puts in front. */
  function PushedBy(t: Thread, task: TaskInfo, st: Climbing): nat {
    var u := UnwindTask(t.heap, t.maxFrames, |st.stack|, InnerFrames(Some(task.coro)));
    if task.IsOnCpu() && |t.python| > u.count then |t.python| - u.count else 0
  }

  /** How many frames of it the tasks of a chain put in front. */
  function Pushed(t: Thread, s: Snapshot, chain: seq<nat>, st: Climbing): nat
    requires Within(s, chain)
  {
    if chain == [] then 0
    else
      var task := s.tasks[chain[0]];
      PushedBy(t, task, st) + Pushed(t, s, chain[1..], StepTask(t, task, st))
  }

  lemma StepPushes(t: Thread, task: TaskInfo, st: Climbing)
    ensures PushedBy(t, task, st) <= |t.python|
    ensures StepTask(t, task, st).stack == t.python[..PushedBy(t, task, st)] + st.stack + Own(t, task, |st.stack|)
  {
    var u := UnwindTask(t.heap, t.maxFrames, |st.stack|, InnerFrames(Some(task.coro)));
    var front := t.python[..PushedBy(t, task, st)];
    ConcatAssociates(front, st.stack, u.added);
    ConcatAssociates(front + st.stack, u.added, [NameFrame(task.name)]);
    assert [] + (st.stack + u.added) == st.stack + u.added;
    assert [] + st.stack == st.stack;
    ConcatAssociates(st.stack, u.added, [NameFrame(task.name)]);
  }

  /** The first `c` frames of a stack are of the Python stack. */
  ghost predicate StartsWithPython(t: Thread, stack: seq<Frame>, c: nat) {
    c <= |stack| && forall i :: 0 <= i < c ==> stack[i] in t.python
  }

  lemma FrontGrows(t: Thread, stack: seq<Frame>, c: nat, p: nat, own: seq<Frame>)
    requires StartsWithPython(t, stack, c) && p <= |t.python|
    ensures StartsWithPython(t, t.python[..p] + stack + own, p + c)
  {
    var r := t.python[..p] + stack + own;
    forall i | 0 <= i < p + c
      ensures r[i] in t.python
    {
      assert r[i] == if i < p then t.python[i] else stack[i - p];
    }
  }

  /** Whatever is put in front of the Python frames that a stack starts with makes them more. */
  lemma {:induction false} ClimbPushes(t: Thread, s: Snapshot, chain: seq<nat>, st: Climbing, c: nat)
    requires Within(s, chain) && StartsWithPython(t, st.stack, c)
    ensures StartsWithPython(t, Climb(t, s, chain, st).stack, c + Pushed(t, s, chain, st))
  {
    hide StartsWithPython, StepTask, PushedBy;
    if chain == [] {
    } else {
      var task := s.tasks[chain[0]];
      var p, own := PushedBy(t, task, st), Own(t, task, |st.stack|);
      StepPushes(t, task, st);
      FrontGrows(t, st.stack, c, p, own);
      ClimbPushes(t, s, chain[1..], StepTask(t, task, st), c + p);
    }
  }

  /** If nothing is put in front, the stack is that of suspended tasks. */
  lemma {:induction false} NothingPushed(t: Thread, s: Snapshot, chain: seq<nat>, st: Climbing)
    requires Within(s, chain) && Pushed(t, s, chain, st) == 0
    ensures Climb(t, s, chain, st).stack == st.stack + Suspended(t, s, chain, |st.stack|)
  {
    hide StepTask, PushedBy, Own;
    if chain == [] {
      assert st.stack + [] == st.stack;
    } else {
      var task := s.tasks[chain[0]];
      var own, next := Own(t, task, |st.stack|), StepTask(t, task, st);
      StepPushes(t, task, st);
      assert t.python[..0] + st.stack + own == st.stack + own;
      NothingPushed(t, s, chain[1..], next);
      SuspendedNext(t, s, chain, |st.stack|, |next.stack|, own);
      ConcatAssociates(st.stack, own, Suspended(t, s, chain[1..], |next.stack|));
    }
  }

  /** Every running task of the chain sits somewhere on the Python stack, and none of them at `k`. */
  ghost predicate RunElsewhere(t: Thread, s: Snapshot, chain: seq<nat>, k: nat)
    requires Within(s, chain)
  {
    forall i :: 0 <= i < |chain| && s.tasks[chain[i]].IsOnCpu() ==> SitsElsewhere(t, s.tasks[chain[i]].coro, k)
  }

  ghost predicate SitsElsewhere(t: Thread, coro: GenInfo, k: nat) {
    exists j :: j != k && SitsAt(t, coro, j)
  }

  /** A running task that puts nothing in front is at the top of the Python stack, and leaves all beyond that. */
  lemma PushesUnlessOnTop(t: Thread, task: TaskInfo, st: Climbing, k: nat)
    requires task.IsOnCpu() && SitsElsewhere(t, task.coro, k) && PushedBy(t, task, st) == 0
    ensures k != 0 && StepTask(t, task, st).upper == |t.python| - 1 >= 0
  {
    var j: nat :| j != k && SitsAt(t, task.coro, j);
    assert InnerFrames(Some(task.coro)) == [task.coro.frame];
    var fs := Appended(t.heap, t.maxFrames, task.coro.frame, |st.stack|);
    assert fs == Take(t.python[j..], t.maxFrames - |st.stack|);
  }

  lemma {:induction false} UpperOfNothingPushed(t: Thread, s: Snapshot, chain: seq<nat>, st: Climbing, k: nat)
    requires Within(s, chain) && RunElsewhere(t, s, chain, k) && Pushed(t, s, chain, st) == 0
    ensures NoneRuns(s, chain) ==> Climb(t, s, chain, st).upper == st.upper
    ensures !NoneRuns(s, chain) ==> k != 0 && Climb(t, s, chain, st).upper == |t.python| - 1 >= 0
  {
    hide StepTask, PushedBy, SitsElsewhere;
    if chain == [] {
    } else {
      var task := s.tasks[chain[0]];
      assert forall i :: 0 <= i < |chain[1..]| ==> chain[1..][i] == chain[i + 1];
      UpperOfNothingPushed(t, s, chain[1..], StepTask(t, task, st), k);
      if task.IsOnCpu() {
        PushesUnlessOnTop(t, task, st, k);
      } else {
        StepSuspended(t, task, st);
      }
      assert NoneRuns(s, chain) <==> !task.IsOnCpu() && NoneRuns(s, chain[1..]) by {
        assert forall i :: 0 < i < |chain| ==> chain[i] == chain[1..][i - 1];
      }
    }
  }

  /** The task at position `m` of the chain is the first one on it that runs. */
  ghost predicate FirstRunsAt(s: Snapshot, chain: seq<nat>, m: nat)
    requires Within(s, chain)
  {
    m < |chain| && s.tasks[chain[m]].IsOnCpu() && forall i :: 0 <= i < m ==> !s.tasks[chain[i]].IsOnCpu()
  }

  /** What follows the Python frames in front, be it of suspended tasks or a name, is not on the Python stack. */
  predicate Marked(t: Thread, below: seq<Frame>, name: Key) {
    (below + [NameFrame(name)])[0] !in t.python
  }

  /** A task further up the chain that runs as well always shows, by moving what is in front or the rest. */
  lemma AnotherRunnerShows(t: Thread, s: Snapshot, chain: seq<nat>, st: Climbing, c: nat, k: nat, seen: bool)
    requires Within(s, chain) && RunElsewhere(t, s, chain, k) && !NoneRuns(s, chain)
    requires k < |t.python| && c < |st.stack| && StartsWithPython(t, st.stack, c) && st.stack[c] !in t.python
    ensures var top := Climb(t, s, chain, st);
            top.stack + Rest(t, seen, top.upper)
              != st.stack + Suspended(t, s, chain, |st.stack|) + t.python[k + 1..]
  {
    hide Climb, Pushed, Suspended;
    var top := Climb(t, s, chain, st);
    var conserved := st.stack + Suspended(t, s, chain, |st.stack|) + t.python[k + 1..];
    if Pushed(t, s, chain, st) > 0 {
      ClimbPushes(t, s, chain, st, c);
      assert (top.stack + Rest(t, seen, top.upper))[c] == top.stack[c];
      assert conserved[c] == st.stack[c];
    } else {
      NothingPushed(t, s, chain, st);
      UpperOfNothingPushed(t, s, chain, st, k);
      assert Rest(t, seen, top.upper) == t.python[if seen then 1 else 0..];
      assert |top.stack + Rest(t, seen, top.upper)| != |conserved|;
    }
  }

  /** The chain up to its first running task, when that has room. */
  lemma FirstRunnerTop(t: Thread, s: Snapshot, leaf: nat, upper: nat, m: nat, k: nat) returns (st: Climbing)
    requires leaf < |s.tasks| && FirstRunsAt(s, Chain(s, leaf), m)
    requires SitsAt(t, s.tasks[Chain(s, leaf)[m]].coro, k)
    requires Fits(t, k, |Suspended(t, s, Chain(s, leaf)[..m], 0)|)
    ensures var chain := Chain(s, leaf);
            && st.stack == t.python[..k] + Suspended(t, s, chain[..m], 0) + [t.python[k]]
                             + [NameFrame(s.tasks[chain[m]].name)]
            && LeafTop(t, s, leaf, upper) == Climb(t, s, chain[m + 1..], st)
  {
    hide StepTask, Suspended;
    var chain := Chain(s, leaf);
    var here := Climb(t, s, chain[..m], Climbing([], upper));
    assert chain == chain[..m] + chain[m..];
    ClimbSplits(t, s, chain[..m], chain[m..], Climbing([], upper));
    ClimbSuspended(t, s, chain[..m], Climbing([], upper));
    assert here.stack == Suspended(t, s, chain[..m], 0);
    StepRunning(t, s.tasks[chain[m]], here, k);
    PartThatFits(t, s.tasks[chain[m]].name, k, here.stack);
    assert chain[m..][1..] == chain[m + 1..];
    st := StepTask(t, s.tasks[chain[m]], here);
  }

  lemma MarkIsBehindPython(t: Thread, below: seq<Frame>, name: Key, k: nat)
    requires k < |t.python| && Marked(t, below, name)
    ensures var part, c := t.python[..k] + below + [t.python[k]] + [NameFrame(name)], if below == [] then k + 1 else k;
            StartsWithPython(t, part, c) && c < |part| && part[c] !in t.python
  {
    var part, c := t.python[..k] + below + [t.python[k]] + [NameFrame(name)], if below == [] then k + 1 else k;
    assert forall i :: 0 <= i < c ==> part[i] == t.python[i];
    assert part[c] == (below + [NameFrame(name)])[0];
  }

  /**
   The stack of any leaf with a running task on its chain is the Python stack cut open behind the first such task's
   coroutine iff some leaf runs and no task further up the chain does.
   */
  lemma ChainConservesIff(t: Thread, s: Snapshot, onlyRunning: bool, n: nat, m: nat, k: nat)
    requires n < |LeafOrder(s, onlyRunning)| && FirstRunsAt(s, Chain(s, LeafOrder(s, onlyRunning)[n]), m)
    requires SitsAt(t, s.tasks[Chain(s, LeafOrder(s, onlyRunning)[n])[m]].coro, k)
    requires var chain := Chain(s, LeafOrder(s, onlyRunning)[n]);
             var below := Suspended(t, s, chain[..m], 0);
             && Fits(t, k, |below|) && Marked(t, below, s.tasks[chain[m]].name)
             && RunElsewhere(t, s, chain[m + 1..], k)
    ensures var chain, stack := Chain(s, LeafOrder(s, onlyRunning)[n]), TaskStacks(t, s, onlyRunning)[n].stack;
            var cut := CutOpen(t, s, chain, m, k, Suspended(t, s, chain[..m], 0));
            stack == cut + t.python[k + 1..] <==> SomeLeafRuns(s, onlyRunning) && NoneRuns(s, chain[m + 1..])
  {
    hide LeafOrder, TaskStacks, Suspended, SomeLeafRuns, RunElsewhere, Climb, LeafTop, Below, Marked, Chain;
    var leaf := LeafOrder(s, onlyRunning)[n];
    var chain := Chain(s, leaf);
    var below := Suspended(t, s, chain[..m], 0);
    if NoneRuns(s, chain[m + 1..]) {
      OnlyRunnerIsLast(s, chain, m);
      BelowSuspended(t, s, chain, m);
      SpliceConservesIff(t, s, onlyRunning, n, m, k);
    } else {
      var st := FirstRunnerTop(t, s, leaf, UpperBefore(t, s, LeafOrder(s, onlyRunning), n), m, k);
      MarkIsBehindPython(t, below, s.tasks[chain[m]].name, k);
      var c := if below == [] then k + 1 else k;
      AnotherRunnerShows(t, s, chain[m + 1..], st, c, k, SomeLeafRuns(s, onlyRunning));
      StackAt(t, s, onlyRunning, n);
    }
  }

  lemma OnlyRunnerIsLast(s: Snapshot, chain: seq<nat>, m: nat)
    requires Within(s, chain) && FirstRunsAt(s, chain, m) && NoneRuns(s, chain[m + 1..])
    ensures LastRunsAt(s, chain, m) && NoneRuns(s, chain[..m])
  {
    assert forall i :: m < i < |chain| ==> chain[i] == chain[m + 1..][i - m - 1];
  }

  /**
   A running leaf's stack conserves the Python stack iff none of its ancestors runs, whichever other tasks do and
   whether or not there is room for the ancestors.
   */
  lemma RunningLeafConservesIff(t: Thread, s: Snapshot, onlyRunning: bool, n: nat, k: nat)
    requires n < |LeafOrder(s, onlyRunning)| && s.tasks[LeafOrder(s, onlyRunning)[n]].IsOnCpu()
    requires SitsAt(t, s.tasks[LeafOrder(s, onlyRunning)[n]].coro, k)
    requires RunElsewhere(t, s, Chain(s, LeafOrder(s, onlyRunning)[n])[1..], k)
    requires NameFrame(s.tasks[LeafOrder(s, onlyRunning)[n]].name) !in t.python
    ensures var chain := Chain(s, LeafOrder(s, onlyRunning)[n]);
            TaskStacks(t, s, onlyRunning)[n].stack == Conserved(t, s, chain, k) <==> NoneRuns(s, chain[1..])
  {
    hide LeafOrder, TaskStacks, SomeLeafRuns, RunElsewhere, Chain, SitsAt;
    var x := LeafOrder(s, onlyRunning)[n];
    NothingBelow(t, s, Chain(s, x), s.tasks[x].coro, k);
    assert Suspended(t, s, Chain(s, x)[..0], 0) == [];
    LeafOfOrder(s, onlyRunning, n);
    ChainConservesIff(t, s, onlyRunning, n, 0, k);
    assert t.python[..k] + [] + [t.python[k]] == t.python[..k + 1];
  }

  /** If one ancestor runs, what is up to the leaf's coroutine is on the stack again below the ancestor's coroutine. */
  lemma RunningAncestorRepeats(t: Thread, s: Snapshot, onlyRunning: bool, n: nat, k: nat, m: nat, j: nat)
    requires n < |LeafOrder(s, onlyRunning)| && 0 < m
    requires var chain := Chain(s, LeafOrder(s, onlyRunning)[n]);
             && LastRunsAt(s, chain, m) && LastRunsAt(s, chain[..m], 0)
             && SitsAt(t, s.tasks[chain[0]].coro, k) && SitsAt(t, s.tasks[chain[m]].coro, j)
             && Fits(t, j, |Below(t, s, chain, m)|)
    ensures var chain := Chain(s, LeafOrder(s, onlyRunning)[n]);
            var below := t.python[..k + 1] + [NameFrame(s.tasks[chain[0]].name)]
                           + Suspended(t, s, chain[..m][1..], k + 2);
            TaskStacks(t, s, onlyRunning)[n].stack
              == CutOpen(t, s, chain, m, j, below) + t.python[j + 1..]
  {
    hide LeafOrder, Suspended, SitsAt, TaskStacks, SomeLeafRuns, Below, CutOpen;
    var chain := Chain(s, LeafOrder(s, onlyRunning)[n]);
    LeafOfOrder(s, onlyRunning, n);
    assert s.tasks[chain[..m][0]].IsOnCpu();
    SpliceConservesIff(t, s, onlyRunning, n, m, j);
    BelowStartsRunning(t, s, chain, m, k);
  }

  lemma BelowStartsRunning(t: Thread, s: Snapshot, chain: seq<nat>, m: nat, k: nat)
    requires Within(s, chain) && 0 < m <= |chain| && LastRunsAt(s, chain[..m], 0)
    requires SitsAt(t, s.tasks[chain[0]].coro, k)
    ensures Below(t, s, chain, m)
      == t.python[..k + 1] + [NameFrame(s.tasks[chain[0]].name)] + Suspended(t, s, chain[..m][1..], k + 2)
  {
    hide SitsAt, Suspended, StepTask;
    var st := StepTask(t, s.tasks[chain[0]], Climbing([], 0));
    RunningPartFirst(t, s.tasks[chain[0]], 0, k);
    assert chain[..m][0] == chain[0];
    ClimbSuspended(t, s, chain[..m][1..], st);
  }

  lemma RunningPartFirst(t: Thread, task: TaskInfo, upper: nat, k: nat)
    requires task.IsOnCpu() && SitsAt(t, task.coro, k)
    ensures k < |t.python|
    ensures StepTask(t, task, Climbing([], upper)).stack == t.python[..k + 1] + [NameFrame(task.name)]
  {
    hide StepTask;
    StepRunning(t, task, Climbing([], upper), k);
    PartThatFits(t, task.name, k, []);
    assert t.python[..k] + [] + [t.python[k]] == t.python[..k + 1];
  }

  // ---------------------------------------------------------------------
  // The leaves whose chains are suspended

  lemma {:induction false} UpperStays(t: Thread, s: Snapshot, order: seq<nat>, i: nat, n: nat)
    requires Within(s, order) && i <= n <= |order|
    requires forall j :: i <= j < n ==> NoneRuns(s, Chain(s, order[j]))
    ensures UpperBefore(t, s, order, n) == UpperBefore(t, s, order, i)
    decreases n
  {
    hide LeafTop, Chain, Suspended, NoneRuns;
    if i == n {
    } else {
      UpperStays(t, s, order, i, n - 1);
      SuspendedTop(t, s, order[n - 1], UpperBefore(t, s, order, n - 1));
    }
  }

  /** Such a stack ends in what was beyond the task that ran last on an earlier chain, if some leaf runs. */
  lemma EndsAsTheLastRunner(t: Thread, s: Snapshot, onlyRunning: bool, i: nat, m: nat, k: nat, n: nat)
    requires i < n < |LeafOrder(s, onlyRunning)|
    requires forall j :: i < j <= n ==> NoneRuns(s, Chain(s, LeafOrder(s, onlyRunning)[j]))
    requires LastRunsAt(s, Chain(s, LeafOrder(s, onlyRunning)[i]), m)
    requires SitsAt(t, s.tasks[Chain(s, LeafOrder(s, onlyRunning)[i])[m]].coro, k)
    requires Fits(t, k, |Below(t, s, Chain(s, LeafOrder(s, onlyRunning)[i]), m)|)
    ensures TaskStacks(t, s, onlyRunning)[n].stack
      == Suspended(t, s, Chain(s, LeafOrder(s, onlyRunning)[n]), 0)
           + t.python[if SomeLeafRuns(s, onlyRunning) then k + 1 else 0..]
  {
    hide LeafOrder, LeafTop, Chain, Suspended, NoneRuns, LastRunsAt, SitsAt, RunningPart, TaskStacks, SomeLeafRuns;
    var order := LeafOrder(s, onlyRunning);
    RunningTop(t, s, order[i], UpperBefore(t, s, order, i), m, k);
    UpperStays(t, s, order, i + 1, n);
    SuspendedTop(t, s, order[n], UpperBefore(t, s, order, n));
    StackAt(t, s, onlyRunning, n);
  }

  /** When no task of any chain so far runs, the whole Python stack follows. */
  lemma IdleEndsInAll(t: Thread, s: Snapshot, onlyRunning: bool, n: nat)
    requires n < |LeafOrder(s, onlyRunning)|
    requires forall j :: 0 <= j <= n ==> NoneRuns(s, Chain(s, LeafOrder(s, onlyRunning)[j]))
    ensures TaskStacks(t, s, onlyRunning)[n].stack
      == Suspended(t, s, Chain(s, LeafOrder(s, onlyRunning)[n]), 0) + t.python
  {
    var order := LeafOrder(s, onlyRunning);
    SuspendedTop(t, s, order[n], UpperBefore(t, s, order, n));
    StackAt(t, s, onlyRunning, n);
    RunningLeafIsFirst(s, onlyRunning, n);
    assert order[0] == Chain(s, order[0])[0] && !s.tasks[order[0]].IsOnCpu();
    assert t.python[0..] == t.python;
  }

  lemma RestDetermines(a: seq<Frame>, python: seq<Frame>, k: nat, j: nat)
    requires k < |python| && j < |python|
    ensures a + python[k + 1..] == a + python[j + 1..] <==> k == j
  {
    assert |a + python[k + 1..]| == |a| + |python| - k - 1;
    assert |a + python[j + 1..]| == |a| + |python| - j - 1;
  }

  /**
   All stacks end in the same part of the Python stack only if the running leaf that is processed first sits where
   the leaf sits that ran last: with two running leaves in different places they do not.
   */
  lemma SuffixIsSharedIff(t: Thread, s: Snapshot, onlyRunning: bool, j: nat, i: nat, k: nat, n: nat)
    requires i < n < |LeafOrder(s, onlyRunning)|
    requires forall l :: i < l <= n ==> NoneRuns(s, Chain(s, LeafOrder(s, onlyRunning)[l]))
    requires LastRunsAt(s, Chain(s, LeafOrder(s, onlyRunning)[0]), 0)
    requires SitsAt(t, s.tasks[LeafOrder(s, onlyRunning)[0]].coro, j)
    requires LastRunsAt(s, Chain(s, LeafOrder(s, onlyRunning)[i]), 0)
    requires SitsAt(t, s.tasks[LeafOrder(s, onlyRunning)[i]].coro, k)
    ensures var stack, own := TaskStacks(t, s, onlyRunning)[n].stack,
                              Suspended(t, s, Chain(s, LeafOrder(s, onlyRunning)[n]), 0);
            stack == own + t.python[k + 1..] && (stack == own + t.python[j + 1..] <==> k == j)
  {
    EndsAsTheLastRunner(t, s, onlyRunning, i, 0, k, n);
    LeafOfOrder(s, onlyRunning, 0);
    RestDetermines(Suspended(t, s, Chain(s, LeafOrder(s, onlyRunning)[n]), 0), t.python, k, j);
  }

  // ---------------------------------------------------------------------
  // When one task runs and no other

  lemma OnlyHereRuns(s: Snapshot, leaf: nat, x: nat, m: nat)
    requires leaf < |s.tasks| && OnlyOneRuns(s, x) && m < |Chain(s, leaf)| && Chain(s, leaf)[m] == x
    ensures LastRunsAt(s, Chain(s, leaf), m) && NoneRuns(s, Chain(s, leaf)[..m])
  {
    ChainShape(s, leaf);
  }

  lemma OtherChainsAreSuspended(s: Snapshot, onlyRunning: bool, x: nat, leaf: nat)
    requires OnlyOneRuns(s, x) && IsLeaf(s, onlyRunning, x) && leaf < |s.tasks| && leaf != x
    ensures NoneRuns(s, Chain(s, leaf))
  {
    forall n | 0 <= n < |Chain(s, leaf)|
      ensures !s.tasks[Chain(s, leaf)[n]].IsOnCpu()
    {
      if n > 0 { LeafIsOnlyFirst(s, onlyRunning, leaf, x, n); }
    }
  }

  lemma OnlyRunningLeafIsFirst(s: Snapshot, onlyRunning: bool, x: nat)
    requires OnlyOneRuns(s, x) && IsLeaf(s, onlyRunning, x)
    ensures var order := LeafOrder(s, onlyRunning);
            order != [] && order[0] == x && forall n :: 0 < n < |order| ==> order[n] != x
  {
    assert x in LeafOrder(s, onlyRunning);
    RunningLeafIsFirst(s, onlyRunning, 0);
    LeafOrderNoRepeats(s, onlyRunning);
  }

  /**
   If the only running task is a leaf, its stack is the Python stack with the task's name and its ancestors inserted
   above its coroutine, and every other leaf's stack ends in the same part of the Python stack.
   */
  lemma SpliceConservesStack(t: Thread, s: Snapshot, onlyRunning: bool, x: nat, k: nat)
    requires OnlyOneRuns(s, x) && IsLeaf(s, onlyRunning, x) && SitsAt(t, s.tasks[x].coro, k)
    ensures var order, stacks := LeafOrder(s, onlyRunning), TaskStacks(t, s, onlyRunning);
            && order != [] && order[0] == x
            && stacks[0].stack
                 == t.python[..k + 1] + [NameFrame(s.tasks[x].name)]
                    + Suspended(t, s, Chain(s, x)[1..], k + 2) + t.python[k + 1..]
            && forall n :: 0 < n < |order| ==>
                 stacks[n].stack == Suspended(t, s, Chain(s, order[n]), 0) + t.python[k + 1..]
  {
    var order, stacks := LeafOrder(s, onlyRunning), TaskStacks(t, s, onlyRunning);
    OnlyRunningLeafIsFirst(s, onlyRunning, x);
    OnlyHereRuns(s, x, x, 0);
    RunningLeafConserves(t, s, onlyRunning, 0, k);
    forall n | 0 < n < |order|
      ensures stacks[n].stack == Suspended(t, s, Chain(s, order[n]), 0) + t.python[k + 1..]
    {
      forall j | 0 < j <= n
        ensures NoneRuns(s, Chain(s, order[j]))
      {
        OtherChainsAreSuspended(s, onlyRunning, x, order[j]);
      }
      EndsAsTheLastRunner(t, s, onlyRunning, 0, 0, k, n);
    }
  }

  /**
   If it is on a leaf's chain, whether as the leaf or as an ancestor, the Python stack is conserved there iff it is
   the leaf.  As the parent of a link it is none, and the whole Python stack follows again.
   */
  lemma OnlyLeavesConserve(t: Thread, s: Snapshot, onlyRunning: bool, x: nat, k: nat, n: nat, m: nat)
    requires OnlyOneRuns(s, x) && SitsAt(t, s.tasks[x].coro, k) && n < |LeafOrder(s, onlyRunning)|
    requires m < |Chain(s, LeafOrder(s, onlyRunning)[n])| && Chain(s, LeafOrder(s, onlyRunning)[n])[m] == x
    requires Fits(t, k, |Below(t, s, Chain(s, LeafOrder(s, onlyRunning)[n]), m)|)
    ensures var chain, stack := Chain(s, LeafOrder(s, onlyRunning)[n]), TaskStacks(t, s, onlyRunning)[n].stack;
            var below := Suspended(t, s, chain[..m], 0);
            var cut := CutOpen(t, s, chain, m, k, below);
            && (stack == cut + t.python[k + 1..] <==> IsLeaf(s, onlyRunning, x))
            && (stack == cut + t.python <==> !IsLeaf(s, onlyRunning, x))
  {
    var leaf := LeafOrder(s, onlyRunning)[n];
    OnlyHereRuns(s, leaf, x, m);
    BelowSuspended(t, s, Chain(s, leaf), m);
    SpliceConservesIff(t, s, onlyRunning, n, m, k);
    assert SomeLeafRuns(s, onlyRunning) <==> IsLeaf(s, onlyRunning, x);
  }

  // ---------------------------------------------------------------------
  // Without truncation, the limit does not show

  function FullRest(h: Heap, addrs: seq<Addr>): seq<Frame> {
    if addrs == [] || AllVisible(h, addrs[0]) == [] then [] else AllVisible(h, addrs[0]) + FullRest(h, addrs[1..])
  }

  /** All that a task has to show: one frame for its innermost coroutine, then all of the others. */
  function FullTask(h: Heap, addrs: seq<Addr>): seq<Frame> {
    if addrs == [] || AllVisible(h, addrs[0]) == [] then [] else [AllVisible(h, addrs[0])[0]] + FullRest(h, addrs[1..])
  }

  function FullOwn(h: Heap, task: TaskInfo): seq<Frame> {
    FullTask(h, InnerFrames(Some(task.coro))) + [NameFrame(task.name)]
  }

  function FullChain(h: Heap, s: Snapshot, chain: seq<nat>): seq<Frame>
    requires Within(s, chain)
  {
    if chain == [] then [] else FullOwn(h, s.tasks[chain[0]]) + FullChain(h, s, chain[1..])
  }

  lemma {:induction false} RestInFull(h: Heap, maxFrames: nat, size: nat, addrs: seq<Addr>)
    requires size + |FullRest(h, addrs)| <= maxFrames
    ensures UnwindRest(h, maxFrames, size, addrs) == FullRest(h, addrs)
    decreases |addrs|
  {
    if addrs == [] || AllVisible(h, addrs[0]) == [] {
    } else {
      RestInFull(h, maxFrames, size + |AllVisible(h, addrs[0])|, addrs[1..]);
    }
  }

  lemma TaskInFull(h: Heap, maxFrames: nat, size: nat, addrs: seq<Addr>)
    requires size + |FullTask(h, addrs)| <= maxFrames
    ensures UnwindTask(h, maxFrames, size, addrs).added == FullTask(h, addrs)
  {
    if FullTask(h, addrs) != [] {
      RestInFull(h, maxFrames, size + 1, addrs[1..]);
    }
  }

  lemma OwnInFull(t: Thread, task: TaskInfo, size: nat)
    requires size + |FullOwn(t.heap, task)| <= t.maxFrames
    ensures Own(t, task, size) == FullOwn(t.heap, task)
  {
    TaskInFull(t.heap, t.maxFrames, size, InnerFrames(Some(task.coro)));
  }

  /** Ancestors on a stack that stays below the limit show everything they have. */
  lemma {:induction false} SuspendedInFull(t: Thread, s: Snapshot, chain: seq<nat>, size: nat)
    requires Within(s, chain) && size + |FullChain(t.heap, s, chain)| <= t.maxFrames
    ensures Suspended(t, s, chain, size) == FullChain(t.heap, s, chain)
    decreases |chain|
  {
    if chain == [] {
    } else {
      var own := FullOwn(t.heap, s.tasks[chain[0]]);
      var size' := size + |own|;
      OwnInFull(t, s.tasks[chain[0]], size);
      SuspendedNext(t, s, chain, size, size', own);
      SuspendedInFull(t, s, chain[1..], size');
    }
  }
}
