/**
 Small snapshots on which a stitched stack is not what one might expect
 (echion/threads.h:305-391).
 */
module TaskExamples {
  import opened Seqs
  import opened Target
  import opened Wrappers
  import opened Frames
  import opened TaskBuild
  import opened TaskStitch
  import opened TaskChains
  import opened TaskSplice

  const F1: Frame := Frame(11, 1, 11, false)
  const F2: Frame := Frame(12, 1, 12, false)
  const F3: Frame := Frame(13, 1, 13, false)
  const F4: Frame := Frame(14, 1, 14, false)

  /** A Python stack of three frames, and the frame of a suspended coroutine. */
  const HEAP: Heap := map[
    100 := Reading(F1, 101), 101 := Reading(F2, 102), 102 := Reading(F3, NULL), 103 := Reading(F4, NULL)]

  const THREAD: Thread := Thread(HEAP, 100, [F1, F2, F3])

  /** A task that awaits nothing; its coroutine awaits nothing either. */
  function Lone(origin: Addr, frame: Addr, running: bool): TaskInfo {
    TaskInfo(origin, 9, GenInfo(origin + 50, frame, None, running), origin + 20, None)
  }

  lemma WalksOnTheHeap()
    ensures AllVisible(HEAP, 100) == [F1, F2, F3] && AllVisible(HEAP, 101) == [F2, F3] && AllVisible(HEAP, 103) == [F4]
  {
    var none: set<Addr> := {};
    assert WalkPath(HEAP, 102, none + {100} + {101}) == [102];
    assert WalkPath(HEAP, 101, none + {100}) == [101, 102];
    assert WalkPath(HEAP, 100, none) == [100, 101, 102];
    assert WalkPath(HEAP, 102, none + {101}) == [102];
    assert WalkPath(HEAP, 101, none) == [101, 102];
    assert WalkPath(HEAP, 103, none) == [103];
    assert Visible(HEAP, [102]) == [F3];
    assert [101, 102][1..] == [102] && [100, 101, 102][1..] == [101, 102];
    assert Visible(HEAP, [101, 102]) == [F2, F3];
  }

  lemma LonesSitAndShow(a: Addr, b: Addr, c: Addr)
    ensures SitsAt(THREAD, Lone(a, 100, true).coro, 0) && SitsAt(THREAD, Lone(b, 101, true).coro, 1)
    ensures Own(THREAD, Lone(c, 103, false), 0) == [F4, NameFrame(c + 20)]
  {
    WalksOnTheHeap();
    assert InnerFrames(Some(Lone(c, 103, false).coro)) == [103];
    assert Appended(HEAP, 100, 103, 0) == [F4];
  }

  lemma LoneChain(s: Snapshot, i: nat)
    requires i < |s.tasks| && s.links == map[] && forall j :: 0 <= j < |s.tasks| ==> s.tasks[j].waiter.None?
    ensures Chain(s, i) == [i]
  {
    WaiteesAreFirst(s.tasks, |s.tasks|);
    assert Next(s, i).None?;
  }

  lemma ThreeLeaves(s: Snapshot)
    requires |s.tasks| == 3 && s.links == map[] && forall j :: 0 <= j < 3 ==> s.tasks[j].waiter.None?
    requires s.tasks[0].IsOnCpu()
    ensures LeafOrder(s, false) == [0, 1, 2]
  {
    assert s.links.Values == {};
    assert Leaves(s, false, 1) == [0];
    assert Leaves(s, false, 2) == [0, 1];
    assert Leaves(s, false, 3) == [0, 1, 2];
  }

  /**
   Two tasks run, as when one starts the other eagerly, and a third is suspended.  Each running one splices its own
   stack, and the third one's stack ends as that of whichever came last in the snapshot.
   */
  lemma EagerStart(s: Snapshot, k: nat)
    requires k < 2 && s.links == map[]
    requires s.tasks == [Lone(1 + k, 100 + k, true), Lone(2 - k, 101 - k, true), Lone(3, 103, false)]
    ensures var stacks := TaskStacks(THREAD, s, false);
            && |stacks| == 3
            && stacks[0].stack == THREAD.python[..k + 1] + [NameFrame(21 + k)] + THREAD.python[k + 1..]
            && stacks[1].stack == THREAD.python[..2 - k] + [NameFrame(22 - k)] + THREAD.python[2 - k..]
            && stacks[2].stack == [F4, NameFrame(23)] + THREAD.python[2 - k..]
  {
    hide LeafOrder, TaskStacks, Chain, Suspended, Below, SitsAt, Own, SomeLeafRuns;
    ThreeLeaves(s);
    LonesSitAndShow(1, 2, 3);
    LoneChain(s, 0);
    LoneChain(s, 1);
    LoneChain(s, 2);
    RunningLeafConserves(THREAD, s, false, 0, k);
    RunningLeafConserves(THREAD, s, false, 1, 1 - k);
    NothingBelow(THREAD, s, Chain(s, 1), s.tasks[1].coro, 1 - k);
    LeafOfOrder(s, false, 0);
    EndsAsTheLastRunner(THREAD, s, false, 1, 0, 1 - k, 2);
    SuspendedAlone(THREAD, s, 2, [F4, NameFrame(23)]);
    NothingSuspended(THREAD, s, k);
    NothingSuspended(THREAD, s, 1 - k);
  }

  lemma NothingSuspended(t: Thread, s: Snapshot, k: nat)
    requires k < 2
    ensures Suspended(t, s, [0][1..], k + 2) == [] == Suspended(t, s, [1][1..], k + 2)
    ensures forall a: seq<Frame>, b: seq<Frame> {:trigger a + [] + b} :: a + [] + b == a + b
  {
    assert forall a: seq<Frame> :: a + [] == a;
  }

  lemma SuspendedAlone(t: Thread, s: Snapshot, i: nat, own: seq<Frame>)
    requires i < |s.tasks| && own == Own(t, s.tasks[i], 0)
    ensures Suspended(t, s, [i], 0) == own
  {
    assert own + [] == own;
  }

  lemma BelowParent(s: Snapshot)
    requires s.tasks == [Lone(3, 103, false), Lone(1, 100, true)]
    ensures Suspended(THREAD, s, [0, 1][..1], 0) == Below(THREAD, s, [0, 1], 1) == [F4, NameFrame(23)]
  {
    LonesSitAndShow(1, 2, 3);
    SuspendedAlone(THREAD, s, 0, [F4, NameFrame(23)]);
    assert [0, 1][..1] == [0];
    BelowSuspended(THREAD, s, [0, 1], 1);
  }

  /** A running task that is the parent of a link: the frame of its coroutine is on its child's stack twice. */
  lemma GatheringParent(s: Snapshot)
    requires s.tasks == [Lone(3, 103, false), Lone(1, 100, true)] && s.links == map[3 := 1]
    ensures OnlyOneRuns(s, 1) && !IsLeaf(s, false, 1) && LeafOrder(s, false) == [0] && ChainEnds(s, 0)
    ensures TaskStacks(THREAD, s, false)[0].stack == [F4, NameFrame(23), F1, NameFrame(21), F1, F2, F3]
  {
    hide LeafOrder, TaskStacks, Chain, Suspended, Below, SitsAt, IsLeaf;
    ParentChain(s, s.tasks[0], s.tasks[1]);
    BelowParent(s);
    LonesSitAndShow(1, 2, 3);
    OnlyLeavesConserve(THREAD, s, false, 1, 0, 0, 1);
    ParentIsLast(s, 0, [F4, NameFrame(23)]);
  }

  lemma ParentIsLast(s: Snapshot, k: nat, below: seq<Frame>)
    requires |s.tasks| == 2 && k < 3
    ensures CutOpen(THREAD, s, [0, 1], 1, k, below)
      == THREAD.python[..k] + below + [THREAD.python[k]] + [NameFrame(s.tasks[1].name)]
  {
    assert [0, 1][2..] == [];
  }

  lemma ParentChain(s: Snapshot, child: TaskInfo, parent: TaskInfo)
    requires s.tasks == [child, parent] && s.links == map[child.origin := parent.origin]
    requires child.origin != parent.origin && child.waiter.None? && parent.waiter.None?
    ensures Chain(s, 0) == [0, 1] && ChainEnds(s, 0)
    ensures IsLeaf(s, false, 0) && !IsLeaf(s, false, 1) && LeafOrder(s, false) == [0]
  {
    WaiteesAreFirst(s.tasks, 2);
    OriginsAreFirst(s.tasks, 2);
    assert Next(s, 0) == Some(1) && Next(s, 1) == None;
    assert ChainFrom(s, 1, Everyone(s) - {0}) == [1];
    OnlyTheChildIsALeaf(s, child, parent);
  }

  lemma OnlyTheChildIsALeaf(s: Snapshot, child: TaskInfo, parent: TaskInfo)
    requires s.tasks == [child, parent] && s.links == map[child.origin := parent.origin]
    requires child.origin != parent.origin && child.waiter.None? && parent.waiter.None?
    ensures IsLeaf(s, false, 0) && !IsLeaf(s, false, 1) && LeafOrder(s, false) == [0]
  {
    assert s.links[child.origin] == parent.origin;
    assert s.links.Values == {parent.origin};
    assert Leaves(s, false, 1) == [0];
    assert Leaves(s, false, 2) == [0];
  }

  /**
   The same when the child runs as well: what is up to the child's coroutine is there twice.  The original links a
   child after its eager start, so this takes a link left over from an earlier task at the same address.
   */
  lemma EagerChild(s: Snapshot)
    requires s.tasks == [Lone(1, 100, true), Lone(2, 101, true)] && s.links == map[1 := 2]
    ensures LeafOrder(s, false) == [0] && ChainEnds(s, 0)
    ensures TaskStacks(THREAD, s, false)[0].stack == [F1, F1, NameFrame(21), F2, NameFrame(22), F3]
  {
    hide LeafOrder, TaskStacks, Chain, Suspended, Below, SitsAt, IsLeaf;
    ParentChain(s, s.tasks[0], s.tasks[1]);
    LonesSitAndShow(1, 2, 3);
    BelowEagerParent(s);
    RunningAncestorRepeats(THREAD, s, false, 0, 0, 1, 1);
    ParentIsLast(s, 1, [F1, NameFrame(21)]);
  }

  lemma BelowEagerParent(s: Snapshot)
    requires s.tasks == [Lone(1, 100, true), Lone(2, 101, true)]
    ensures LastRunsAt(s, [0, 1][..1], 0)
    ensures Suspended(THREAD, s, [0, 1][..1][1..], 2) == [] && Below(THREAD, s, [0, 1], 1) == [F1, NameFrame(21)]
  {
    LonesSitAndShow(1, 2, 3);
    assert [0, 1][..1] == [0] && [0, 1][..1][1..] == [];
    BelowStartsRunning(THREAD, s, [0, 1], 1, 0);
  }
}
