/**
 The walk from a leaf task towards the root: when it ends, and what it covers
 (echion/threads.h:275-303 and 327-372).
 */
module TaskChains {
  import opened Seqs
  import opened Target
  import opened Wrappers
  import opened Frames
  import opened TaskBuild
  import opened TaskStitch

  ghost predicate DistinctOrigins(s: Snapshot) {
    forall i, j :: 0 <= i < j < |s.tasks| ==> s.tasks[i].origin != s.tasks[j].origin
  }

  predicate Awaits(s: Snapshot, i: nat, origin: Addr)
    requires i < |s.tasks|
  {
    s.tasks[i].waiter.Some? && s.tasks[i].waiter.value.origin == origin
  }

  /** Task `j` awaits task `i`, or is the parent that a link gives to it. */
  predicate Edge(s: Snapshot, i: nat, j: nat)
    requires i < |s.tasks| && j < |s.tasks|
  {
    var o := s.tasks[i].origin;
    Awaits(s, j, o) || (o in s.links && s.links[o] == s.tasks[j].origin)
  }

  ghost predicate IsCycle(s: Snapshot, p: seq<nat>) {
    && |p| >= 2 && Within(s, p) && p[0] == p[|p| - 1]
    && forall k :: 0 <= k < |p| - 1 ==> Edge(s, p[k], p[k + 1])
  }

  ghost predicate Acyclic(s: Snapshot) {
    forall p :: !IsCycle(s, p)
  }

  /** The task reached from `i` after `n` steps, if the walk is still going. */
  function Visit(s: Snapshot, i: nat, n: nat): (r: Option<nat>)
    requires i < |s.tasks|
    ensures r.Some? ==> r.value < |s.tasks|
  {
    if n == 0 then Some(i)
    else
      var before := Visit(s, i, n - 1);
      if before.None? then None else Next(s, before.value)
  }

  // ---------------------------------------------------------------------
  // The chain is the walk

  ghost predicate FollowsNext(s: Snapshot, c: seq<nat>) {
    Within(s, c) && forall k :: 0 <= k < |c| - 1 ==> Next(s, c[k]) == Some(c[k + 1])
  }

  lemma {:induction false} ChainFromShape(s: Snapshot, i: nat, todo: set<nat>)
    requires i < |s.tasks|
    ensures var c := ChainFrom(s, i, todo);
            && FollowsNext(s, c)
            && (c != [] ==> c[0] == i && var next := Next(s, c[|c| - 1]);
                            next.None? || next.value in c || next.value !in todo)
    decreases todo
  {
    var c := ChainFrom(s, i, todo);
    if i !in todo || Next(s, i).None? {
    } else {
      var j := Next(s, i).value;
      var d := ChainFrom(s, j, todo - {i});
      ChainFromShape(s, j, todo - {i});
      assert c == [i] + d;
      PrependNext(s, i, d);
      if d != [] { assert c[|c| - 1] == d[|d| - 1]; }
    }
  }

  lemma PrependNext(s: Snapshot, i: nat, d: seq<nat>)
    requires FollowsNext(s, d) && i < |s.tasks| && (d != [] ==> Next(s, i) == Some(d[0]))
    ensures FollowsNext(s, [i] + d)
  {
    var c := [i] + d;
    forall k | 0 <= k < |c| - 1
      ensures Next(s, c[k]) == Some(c[k + 1])
    {
      if k > 0 { assert Next(s, d[k - 1]) == Some(d[k]); }
    }
  }

  lemma {:induction false} ChainFromNoRepeats(s: Snapshot, i: nat, todo: set<nat>)
    requires i < |s.tasks|
    ensures NoRepeats(ChainFrom(s, i, todo))
    decreases todo
  {
    if i !in todo || Next(s, i).None? {
    } else {
      var d := ChainFrom(s, Next(s, i).value, todo - {i});
      ChainFromNoRepeats(s, Next(s, i).value, todo - {i});
      assert i !in d;
      assert ChainFrom(s, i, todo) == [i] + d;
    }
  }

  lemma ChainShape(s: Snapshot, i: nat)
    requires i < |s.tasks|
    ensures FollowsNext(s, Chain(s, i)) && NoRepeats(Chain(s, i))
    ensures var next := Next(s, Chain(s, i)[|Chain(s, i)| - 1]);
            next.None? || next.value in Chain(s, i)
  {
    ChainFromShape(s, i, Everyone(s));
    ChainFromNoRepeats(s, i, Everyone(s));
  }

  lemma {:induction false} VisitFollowsChain(s: Snapshot, i: nat, c: seq<nat>, n: nat)
    requires i < |s.tasks| && FollowsNext(s, c) && n < |c| && c[0] == i
    ensures Visit(s, i, n) == Some(c[n])
  {
    if n == 0 {
    } else {
      VisitFollowsChain(s, i, c, n - 1);
    }
  }

  /** A walk that meets a task twice is for ever inside the tasks it has met. */
  lemma {:induction false} TrappedForEver(s: Snapshot, i: nat, n: nat)
    requires i < |s.tasks| && !ChainEnds(s, i)
    ensures Visit(s, i, n).Some? && Visit(s, i, n).value in Chain(s, i)
  {
    ChainShape(s, i);
    if n == 0 {
    } else {
      TrappedForEver(s, i, n - 1);
      var c := Chain(s, i);
      var k :| 0 <= k < |c| && c[k] == Visit(s, i, n - 1).value;
      if k < |c| - 1 { assert Next(s, c[k]) == Some(c[k + 1]); }
    }
  }

  /** The chain is the whole walk exactly when stepping comes to an end. */
  lemma ChainEndsIff(s: Snapshot, i: nat)
    requires i < |s.tasks|
    ensures ChainEnds(s, i) <==> exists n: nat :: Visit(s, i, n).None?
  {
    var c := Chain(s, i);
    ChainShape(s, i);
    if ChainEnds(s, i) {
      VisitFollowsChain(s, i, c, |c| - 1);
      assert Visit(s, i, |c|).None?;
    } else {
      forall n: nat
        ensures Visit(s, i, n).Some?
      {
        TrappedForEver(s, i, n);
      }
    }
  }

  /** A path of next tasks that ends where it starts. */
  ghost predicate IsNextCycle(s: Snapshot, p: seq<nat>) {
    |p| >= 2 && FollowsNext(s, p) && p[0] == p[|p| - 1]
  }

  /** Task `j` is met on the walk from task `i`. */
  ghost predicate Meets(s: Snapshot, i: nat, j: nat)
    requires i < |s.tasks|
  {
    exists n: nat :: Visit(s, i, n) == Some(j)
  }

  lemma {:induction false} EndIsFinal(s: Snapshot, i: nat, m: nat, n: nat)
    requires i < |s.tasks| && m <= n && Visit(s, i, m).None?
    ensures Visit(s, i, n).None?
  {
    if m == n {
    } else {
      EndIsFinal(s, i, m, n - 1);
    }
  }

  lemma {:induction false} CycleGoesOn(s: Snapshot, i: nat, p: seq<nat>, m: nat, n: nat)
    requires i < |s.tasks| && IsNextCycle(s, p) && m <= n && Visit(s, i, m) == Some(p[0])
    ensures Visit(s, i, n).Some? && Visit(s, i, n).value in p
  {
    if m == n {
    } else {
      CycleGoesOn(s, i, p, m, n - 1);
      var k :| 0 <= k < |p| && p[k] == Visit(s, i, n - 1).value;
      var k' := if k == |p| - 1 then 0 else k;
      assert Next(s, p[k']) == Some(p[k' + 1]);
    }
  }

  lemma CloseLoop(s: Snapshot, c: seq<nat>, m: nat)
    requires FollowsNext(s, c) && m < |c| && Next(s, c[|c| - 1]) == Some(c[m])
    ensures FollowsNext(s, c[m..] + [c[m]])
  {
    var p := c[m..] + [c[m]];
    forall k | 0 <= k < |p| - 1
      ensures Next(s, p[k]) == Some(p[k + 1])
    {
      if k < |p| - 2 { assert Next(s, c[m + k]) == Some(c[m + k + 1]); }
    }
  }

  /** The walk from a task ends iff it meets no task that the next tasks lead back to. */
  lemma WalkEndsIff(s: Snapshot, i: nat)
    requires i < |s.tasks|
    ensures (exists n: nat :: Visit(s, i, n).None?) <==> forall p :: IsNextCycle(s, p) ==> !Meets(s, i, p[0])
  {
    ChainEndsIff(s, i);
    if ChainEnds(s, i) {
      var end: nat :| Visit(s, i, end).None?;
      forall p | IsNextCycle(s, p)
        ensures !Meets(s, i, p[0])
      {
        if Meets(s, i, p[0]) {
          var m: nat :| Visit(s, i, m) == Some(p[0]);
          CycleGoesOn(s, i, p, m, m + end);
          EndIsFinal(s, i, end, m + end);
        }
      }
    } else {
      var c := Chain(s, i);
      ChainShape(s, i);
      var m :| 0 <= m < |c| && c[m] == Next(s, c[|c| - 1]).value;
      CloseLoop(s, c, m);
      VisitFollowsChain(s, i, c, m);
      var p := c[m..] + [c[m]];
      assert IsNextCycle(s, p) && Meets(s, i, p[0]);
    }
  }

  // ---------------------------------------------------------------------
  // Sufficient conditions

  lemma NextIsEdge(s: Snapshot, i: nat)
    requires i < |s.tasks| && Next(s, i).Some?
    ensures Edge(s, i, Next(s, i).value)
    ensures s.links == map[] ==> Awaits(s, Next(s, i).value, s.tasks[i].origin)
  {
    WaiteesAreFirst(s.tasks, |s.tasks|);
    OriginsAreFirst(s.tasks, |s.tasks|);
  }

  /** Waiter edges alone never trap the walk from a leaf, deadlocked waiters included. */
  lemma WaiterWalkEnds(s: Snapshot, leaf: nat)
    requires DistinctOrigins(s) && s.links == map[]
    requires leaf < |s.tasks| && s.tasks[leaf].waiter.None?
    ensures ChainEnds(s, leaf) && NoRepeats(Chain(s, leaf))
  {
    var c := Chain(s, leaf);
    ChainShape(s, leaf);
    if !ChainEnds(s, leaf) {
      var last := |c| - 1;
      var m :| 0 <= m < |c| && c[m] == Next(s, c[last]).value;
      NextIsEdge(s, c[last]);
      if m > 0 {
        assert Next(s, c[m - 1]) == Some(c[m]);
        NextIsEdge(s, c[m - 1]);
      }
    }
  }

  lemma NoCycleOfNexts(s: Snapshot, p: seq<nat>)
    requires IsNextCycle(s, p)
    ensures !Acyclic(s)
  {
    forall k | 0 <= k < |p| - 1
      ensures Edge(s, p[k], p[k + 1])
    {
      assert Next(s, p[k]) == Some(p[k + 1]);
      NextIsEdge(s, p[k]);
    }
    assert IsCycle(s, p);
  }

  /** With links, an acyclic await/link relation lets every walk end. */
  lemma AcyclicWalkEnds(s: Snapshot, i: nat)
    requires Acyclic(s) && i < |s.tasks|
    ensures ChainEnds(s, i) && NoRepeats(Chain(s, i))
  {
    var c := Chain(s, i);
    ChainShape(s, i);
    if !ChainEnds(s, i) {
      var m :| 0 <= m < |c| && c[m] == Next(s, c[|c| - 1]).value;
      CloseLoop(s, c, m);
      NoCycleOfNexts(s, c[m..] + [c[m]]);
    }
  }

  lemma LoopTraps(s: Snapshot)
    requires |s.tasks| == 3 && Next(s, 0) == Some(1) && Next(s, 1) == Some(2) && Next(s, 2) == Some(1)
    ensures !ChainEnds(s, 0)
  {
    var loop := [1, 2, 1];
    assert FollowsNext(s, loop) && IsNextCycle(s, loop);
    assert Visit(s, 0, 0) == Some(0);
    assert Visit(s, 0, 1) == Some(loop[0]);
    assert Meets(s, 0, loop[0]);
    WalkEndsIff(s, 0);
    ChainEndsIff(s, 0);
  }

  /** A leaf below two mutually linked parents is never done. */
  lemma MutualLinksTrap(s: Snapshot)
    requires |s.tasks| == 3
    requires forall i :: 0 <= i < 3 ==> s.tasks[i].origin == i + 1 && s.tasks[i].waiter.None?
    requires s.links == map[1 := 2, 2 := 3, 3 := 2]
    ensures DistinctOrigins(s) && IsLeaf(s, false, 0) && !ChainEnds(s, 0)
  {
    hide Next, ChainEnds;
    NextByLink(s, 0, 1);
    NextByLink(s, 1, 2);
    NextByLink(s, 2, 1);
    assert s.links.Values == {2, 3} by {
      assert s.links[1] == 2 && s.links[2] == 3;
    }
    LoopTraps(s);
  }

  /** Mutual links are not the only trap: a leaf linked below one of two deadlocked waiters is never done either. */
  lemma DeadlockTraps(s: Snapshot)
    requires |s.tasks| == 3 && forall i :: 0 <= i < 3 ==> s.tasks[i].origin == i + 1
    requires s.tasks[0].waiter.None? && Awaits(s, 1, 3) && Awaits(s, 2, 2)
    requires s.links == map[1 := 2]
    ensures DistinctOrigins(s) && IsLeaf(s, false, 0) && !ChainEnds(s, 0)
  {
    hide Next, ChainEnds;
    NextByLink(s, 0, 1);
    NextByWaiter(s, 1, 2);
    NextByWaiter(s, 2, 1);
    assert s.links.Values == {2} by {
      assert s.links[1] == 2;
    }
    LoopTraps(s);
  }

  // ---------------------------------------------------------------------
  // Coverage

  /** Every waiter is in the snapshot and awaited by one task only. */
  ghost predicate WaitersAreTasks(s: Snapshot) {
    forall i | 0 <= i < |s.tasks| && s.tasks[i].waiter.Some? ::
      var o := s.tasks[i].waiter.value.origin;
      && (exists j :: 0 <= j < |s.tasks| && s.tasks[j].origin == o)
      && (forall j :: 0 <= j < |s.tasks| && Awaits(s, j, o) ==> j == i)
  }

  /** Every linked child is in the snapshot, and no task awaits it. */
  ghost predicate LinkedChildrenAreFree(s: Snapshot) {
    forall child :: child in s.links ==>
      && (exists j :: 0 <= j < |s.tasks| && s.tasks[j].origin == child)
      && (forall j :: 0 <= j < |s.tasks| ==> !Awaits(s, j, child))
  }

  lemma NextByWaiter(s: Snapshot, j: nat, i: nat)
    requires j < |s.tasks| && i < |s.tasks| && Awaits(s, i, s.tasks[j].origin)
    requires forall k :: 0 <= k < |s.tasks| && Awaits(s, k, s.tasks[j].origin) ==> k == i
    ensures Next(s, j) == Some(i)
  {
    WaiteesAreFirst(s.tasks, |s.tasks|);
    assert Awaits(s, WaiteeMap(s.tasks, |s.tasks|)[s.tasks[j].origin], s.tasks[j].origin);
  }

  lemma NextByLink(s: Snapshot, j: nat, i: nat)
    requires j < |s.tasks| && i < |s.tasks| && DistinctOrigins(s)
    requires s.tasks[j].origin in s.links && s.links[s.tasks[j].origin] == s.tasks[i].origin
    requires forall k :: 0 <= k < |s.tasks| ==> !Awaits(s, k, s.tasks[j].origin)
    ensures Next(s, j) == Some(i)
  {
    var o := s.tasks[j].origin;
    WaiteesAreFirst(s.tasks, |s.tasks|);
    OriginsAreFirst(s.tasks, |s.tasks|);
    assert o !in WaiteeMap(s.tasks, |s.tasks|) by {
      if o in WaiteeMap(s.tasks, |s.tasks|) {
        assert Awaits(s, WaiteeMap(s.tasks, |s.tasks|)[o], o);
      }
    }
  }

  /** Whatever is not a leaf is the next of some task. */
  lemma SomeoneLeadsTo(s: Snapshot, i: nat) returns (j: nat)
    requires DistinctOrigins(s) && WaitersAreTasks(s) && LinkedChildrenAreFree(s)
    requires i < |s.tasks| && !IsLeaf(s, false, i)
    ensures j < |s.tasks| && Next(s, j) == Some(i)
  {
    if s.tasks[i].waiter.Some? {
      j :| 0 <= j < |s.tasks| && s.tasks[j].origin == s.tasks[i].waiter.value.origin;
      NextByWaiter(s, j, i);
    } else {
      var child :| child in s.links && s.links[child] == s.tasks[i].origin;
      j :| 0 <= j < |s.tasks| && s.tasks[j].origin == child;
      NextByLink(s, j, i);
    }
  }

  /** A path of next tasks is a part of the chain of its first task. */
  lemma {:induction false} PathIsOnChain(s: Snapshot, p: seq<nat>, n: nat)
    requires p != [] && FollowsNext(s, p) && n < |p| && ChainEnds(s, p[0])
    ensures n < |Chain(s, p[0])| && Chain(s, p[0])[n] == p[n]
  {
    ChainShape(s, p[0]);
    if n == 0 {
    } else {
      PathIsOnChain(s, p, n - 1);
      assert Next(s, p[n - 1]) == Some(p[n]);
    }
  }

  /** Task `i` is on the chain of some leaf. */
  ghost predicate IsCovered(s: Snapshot, onlyRunning: bool, i: nat) {
    exists leaf :: 0 <= leaf < |s.tasks| && IsLeaf(s, onlyRunning, leaf) && i in Chain(s, leaf)
  }

  /** Some task's next is task `i`. */
  ghost predicate IsLedTo(s: Snapshot, i: nat) {
    exists j :: 0 <= j < |s.tasks| && Next(s, j) == Some(i)
  }

  /** All but the leaves are led to. */
  ghost predicate AllLedTo(s: Snapshot, onlyRunning: bool) {
    forall i :: 0 <= i < |s.tasks| && !IsLeaf(s, onlyRunning, i) ==> IsLedTo(s, i)
  }

  lemma {:induction false} BackToLeaf(s: Snapshot, onlyRunning: bool, p: seq<nat>, free: set<nat>) returns (leaf: nat)
    requires AllLedTo(s, onlyRunning) && Acyclic(s)
    requires p != [] && FollowsNext(s, p)
    requires forall j :: 0 <= j < |s.tasks| ==> j in p || j in free
    ensures leaf < |s.tasks| && IsLeaf(s, onlyRunning, leaf)
    ensures p[|p| - 1] in Chain(s, leaf)
    decreases free
  {
    if IsLeaf(s, onlyRunning, p[0]) {
      leaf := p[0];
      AcyclicWalkEnds(s, leaf);
      PathIsOnChain(s, p, |p| - 1);
    } else {
      assert IsLedTo(s, p[0]);
      var j :| 0 <= j < |s.tasks| && Next(s, j) == Some(p[0]);
      PrependNext(s, j, p);
      if j in p {
        var m :| 0 <= m < |p| && p[m] == j;
        PrependNext(s, j, p[..m + 1]);
        NoCycleOfNexts(s, [j] + p[..m + 1]);
      }
      leaf := BackToLeaf(s, onlyRunning, [j] + p, free - {j});
    }
  }

  /** On an acyclic snapshot every task is on some leaf's chain iff every task that is no leaf is some task's next. */
  lemma AllCoveredIff(s: Snapshot, onlyRunning: bool)
    requires Acyclic(s)
    ensures (forall i :: 0 <= i < |s.tasks| ==> IsCovered(s, onlyRunning, i)) <==> AllLedTo(s, onlyRunning)
  {
    if AllLedTo(s, onlyRunning) {
      forall i | 0 <= i < |s.tasks|
        ensures IsCovered(s, onlyRunning, i)
      {
        var leaf := BackToLeaf(s, onlyRunning, [i], Everyone(s));
      }
    } else {
      var i :| 0 <= i < |s.tasks| && !IsLeaf(s, onlyRunning, i) && !IsLedTo(s, i);
      NotLedToNotCovered(s, onlyRunning, i);
    }
  }

  lemma NotLedToNotCovered(s: Snapshot, onlyRunning: bool, i: nat)
    requires i < |s.tasks| && !IsLeaf(s, onlyRunning, i) && !IsLedTo(s, i)
    ensures !IsCovered(s, onlyRunning, i)
  {
    forall leaf | 0 <= leaf < |s.tasks| && IsLeaf(s, onlyRunning, leaf)
      ensures i !in Chain(s, leaf)
    {
      if i in Chain(s, leaf) {
        var n :| 0 <= n < |Chain(s, leaf)| && Chain(s, leaf)[n] == i;
        if n > 0 { ChainIsLedTo(s, leaf, n); }
      }
    }
  }

  lemma ChainIsLedTo(s: Snapshot, leaf: nat, n: nat)
    requires leaf < |s.tasks| && 0 < n < |Chain(s, leaf)|
    ensures IsLedTo(s, Chain(s, leaf)[n])
  {
    ChainShape(s, leaf);
    assert Next(s, Chain(s, leaf)[n - 1]) == Some(Chain(s, leaf)[n]);
  }

  /** Of two tasks that await the same one, the later is on no stack. */
  lemma SecondAwaiterIsLost(s: Snapshot)
    requires |s.tasks| == 3 && s.links == map[] && forall i :: 0 <= i < 3 ==> s.tasks[i].origin == i + 1
    requires s.tasks[0].waiter.None? && Awaits(s, 1, 1) && Awaits(s, 2, 1)
    ensures DistinctOrigins(s) && !IsLeaf(s, false, 2) && !IsCovered(s, false, 2)
  {
    WaiteesAreFirst(s.tasks, 3);
    NotLedToNotCovered(s, false, 2);
  }

  /** In wall mode every task of the snapshot is on the chain of some leaf. */
  lemma EveryTaskIsCovered(s: Snapshot, i: nat) returns (leaf: nat)
    requires DistinctOrigins(s) && WaitersAreTasks(s) && LinkedChildrenAreFree(s) && Acyclic(s)
    requires i < |s.tasks|
    ensures leaf < |s.tasks| && IsLeaf(s, false, leaf) && ChainEnds(s, leaf)
    ensures i in Chain(s, leaf)
  {
    forall j | 0 <= j < |s.tasks| && !IsLeaf(s, false, j)
      ensures IsLedTo(s, j)
    {
      var l := SomeoneLeadsTo(s, j);
    }
    AllCoveredIff(s, false);
    assert IsCovered(s, false, i);
    leaf :| 0 <= leaf < |s.tasks| && IsLeaf(s, false, leaf) && i in Chain(s, leaf);
    AcyclicWalkEnds(s, leaf);
  }

  // ---------------------------------------------------------------------
  // From chains to stacks

  lemma {:induction false} ClimbKeepsFrames(t: Thread, s: Snapshot, chain: seq<nat>, st: Climbing, f: Frame)
    requires Within(s, chain) && f in st.stack
    ensures f in Climb(t, s, chain, st).stack
  {
    if chain == [] {
    } else {
      ClimbKeepsFrames(t, s, chain[1..], StepTask(t, s.tasks[chain[0]], st), f);
    }
  }

  lemma {:induction false} ClimbNames(t: Thread, s: Snapshot, chain: seq<nat>, st: Climbing, i: nat)
    requires Within(s, chain) && i in chain
    ensures NameFrame(s.tasks[i].name) in Climb(t, s, chain, st).stack
  {
    var st' := StepTask(t, s.tasks[chain[0]], st);
    if chain[0] == i {
      ClimbKeepsFrames(t, s, chain[1..], st', NameFrame(s.tasks[i].name));
    } else {
      ClimbNames(t, s, chain[1..], st', i);
    }
  }

  /** In wall mode the name of every task of the snapshot is on some sampled stack. */
  lemma EveryTaskIsSampled(t: Thread, s: Snapshot, i: nat) returns (k: nat)
    requires DistinctOrigins(s) && WaitersAreTasks(s) && LinkedChildrenAreFree(s) && Acyclic(s)
    requires i < |s.tasks|
    ensures LeafChainsEnd(s, false)
    ensures k < |TaskStacks(t, s, false)| && NameFrame(s.tasks[i].name) in TaskStacks(t, s, false)[k].stack
  {
    forall j | 0 <= j < |s.tasks| && IsLeaf(s, false, j)
      ensures ChainEnds(s, j)
    {
      AcyclicWalkEnds(s, j);
    }
    var leaf := EveryTaskIsCovered(s, i);
    var leaves := LeafOrder(s, false);
    assert leaf in leaves;
    k :| 0 <= k < |leaves| && leaves[k] == leaf;
    assert TaskStacks(t, s, false)[k] == InfoAt(t, s, leaves, k);
    ClimbNames(t, s, Chain(s, leaf), Climbing([], UpperBefore(t, s, leaves, k)), i);
  }
}
