/**
 The references that a sample of a thread holds until it is rendered: its stacks are made of what Frame::get returned
 for the frames of the Python stack, of the coroutines and of the task names (echion/threads.h, ThreadInfo::unwind
 and ThreadInfo::unwind_tasks).
 */
module SampleRefs {
  import opened Seqs
  import opened Target
  import opened Wrappers
  import opened Frames
  import opened FrameCache
  import opened LruCache
  import opened TaskBuild
  import opened TaskStitch

  type FrameAccess = Access<Key, Frame>

  /** What unwinding a task asks the cache for: also the frames that are popped again, and at last its name. */
  function GetsOfTask(t: Thread, size: nat, task: TaskInfo): seq<FrameAccess> {
    GetsOf(GotBy(t.heap, t.maxFrames, size, InnerFrames(Some(task.coro))))
      + [Access(task.name, Some(NameFrame(task.name)))]
  }

  function GetsOfChain(t: Thread, s: Snapshot, chain: seq<nat>, st: Climbing): seq<FrameAccess>
    requires Within(s, chain)
  {
    if chain == [] then []
    else
      var task := s.tasks[chain[0]];
      GetsOfTask(t, |st.stack|, task) + GetsOfChain(t, s, chain[1..], StepTask(t, task, st))
  }

  function GetsOfLeaves(t: Thread, s: Snapshot, leaves: seq<nat>, n: nat): seq<FrameAccess>
    requires Within(s, leaves) && n <= |leaves|
  {
    if n == 0 then []
    else
      GetsOfLeaves(t, s, leaves, n - 1)
        + GetsOfChain(t, s, Chain(s, leaves[n - 1]), Climbing([], UpperBefore(t, s, leaves, n - 1)))
  }

  /** All the gets of a sample: the Python stack first, then task by task. */
  function GetsOfSample(t: Thread, s: Snapshot, onlyRunning: bool): seq<FrameAccess> {
    GetsOf(t.python) + GetsOfLeaves(t, s, LeafOrder(s, onlyRunning), |LeafOrder(s, onlyRunning)|)
  }

  // ---------------------------------------------------------------------
  // Every frame on a stack was asked for

  /** A get that returns `f`, or what is cached under its key. */
  predicate IsGetOf(a: FrameAccess, f: Frame) {
    a.key == f.cacheKey && (a.made.Some? ==> a.made.value == f)
  }

  ghost predicate AskedFor(gets: seq<FrameAccess>, f: Frame) {
    exists m :: 0 <= m < |gets| && IsGetOf(gets[m], f)
  }

  ghost predicate AllAskedFor(gets: seq<FrameAccess>, fs: seq<Frame>) {
    forall i :: 0 <= i < |fs| ==> AskedFor(gets, fs[i])
  }

  lemma {:induction false} GetsAskFor(fs: seq<Frame>)
    ensures AllAskedFor(GetsOf(fs), fs)
  {
    if fs == [] {
    } else {
      GetsAskFor(fs[1..]);
      var gets := GetsOf(fs);
      forall i | 0 <= i < |fs|
        ensures AskedFor(gets, fs[i])
      {
        if i == 0 {
          assert IsGetOf(gets[0], fs[0]);
        } else {
          assert AskedFor(GetsOf(fs[1..]), fs[1..][i - 1]);
          MoreGets(gets[..1], GetsOf(fs[1..]), [], fs[i]);
        }
      }
    }
  }

  lemma MoreGets(a: seq<FrameAccess>, b: seq<FrameAccess>, c: seq<FrameAccess>, f: Frame)
    requires AskedFor(b, f)
    ensures AskedFor(a + b + c, f)
  {
    var m :| 0 <= m < |b| && IsGetOf(b[m], f);
    assert (a + b + c)[|a| + m] == b[m];
  }

  lemma AllMoreGets(a: seq<FrameAccess>, b: seq<FrameAccess>, c: seq<FrameAccess>, fs: seq<Frame>)
    requires AllAskedFor(b, fs)
    ensures AllAskedFor(a + b + c, fs)
  {
    hide AskedFor;
    forall i | 0 <= i < |fs|
      ensures AskedFor(a + b + c, fs[i])
    {
      MoreGets(a, b, c, fs[i]);
    }
  }

  lemma AllAskedForBoth(gets: seq<FrameAccess>, a: seq<Frame>, b: seq<Frame>)
    requires AllAskedFor(gets, a) && AllAskedFor(gets, b)
    ensures AllAskedFor(gets, a + b)
  {
    hide AskedFor;
  }

  lemma AllAskedForPart(gets: seq<FrameAccess>, fs: seq<Frame>, i: nat, j: nat)
    requires AllAskedFor(gets, fs) && i <= j <= |fs|
    ensures AllAskedFor(gets, fs[i..j])
  {
    hide AskedFor;
  }

  /** What a task adds was asked for on the way. */
  lemma TaskAsksFor(t: Thread, size: nat, task: TaskInfo)
    ensures AllAskedFor(GetsOfTask(t, size, task),
                        UnwindTask(t.heap, t.maxFrames, size, InnerFrames(Some(task.coro))).added)
    ensures AskedFor(GetsOfTask(t, size, task), NameFrame(task.name))
  {
    hide AllAskedFor, InnerFrames, Appended, UnwindRest, GetsOf, GotBy;
    var addrs := InnerFrames(Some(task.coro));
    var got := GotBy(t.heap, t.maxFrames, size, addrs);
    var named := [Access(task.name, Some(NameFrame(task.name)))];
    var gets := GetsOfTask(t, size, task);
    assert gets == [] + GetsOf(got) + named;
    assert IsGetOf(gets[|gets| - 1], NameFrame(task.name));
    GetsAskFor(got);
    AllMoreGets([], GetsOf(got), named, got);
    AddedWasGot(t.heap, t.maxFrames, size, addrs, gets);
  }

  /** What unwinding adds is the first frame it got, and all that it got for the outer coroutines. */
  lemma AddedWasGot(h: Heap, maxFrames: nat, size: nat, addrs: seq<Addr>, gets: seq<FrameAccess>)
    requires AllAskedFor(gets, GotBy(h, maxFrames, size, addrs))
    ensures AllAskedFor(gets, UnwindTask(h, maxFrames, size, addrs).added)
  {
    hide AllAskedFor, Appended, UnwindRest;
    var got := GotBy(h, maxFrames, size, addrs);
    if got == [] {
      NothingAskedFor(gets);
    } else {
      var fs, rest := Appended(h, maxFrames, addrs[0], size), UnwindRest(h, maxFrames, size + 1, addrs[1..]);
      AllAskedForPart(gets, got, 0, 1);
      AllAskedForPart(gets, got, |fs|, |got|);
      assert got[0..1] == [fs[0]] && got[|fs|..|got|] == rest;
      AllAskedForBoth(gets, [fs[0]], rest);
    }
  }

  lemma NothingAskedFor(gets: seq<FrameAccess>)
    ensures AllAskedFor(gets, [])
  {
  }

  lemma OneAskedFor(gets: seq<FrameAccess>, f: Frame)
    requires AskedFor(gets, f)
    ensures AllAskedFor(gets, [f])
  {
  }

  /** A step up a chain keeps every frame of the stack one that was asked for. */
  lemma StepAsksFor(t: Thread, task: TaskInfo, st: Climbing, a: seq<FrameAccess>, c: seq<FrameAccess>)
    requires var gets := a + GetsOfTask(t, |st.stack|, task) + c;
             AllAskedFor(gets, t.python) && AllAskedFor(gets, st.stack)
    ensures AllAskedFor(a + GetsOfTask(t, |st.stack|, task) + c, StepTask(t, task, st).stack)
  {
    hide AllAskedFor, AskedFor, UnwindTask, GetsOfTask, InnerFrames;
    var u := UnwindTask(t.heap, t.maxFrames, |st.stack|, InnerFrames(Some(task.coro)));
    var b, name := GetsOfTask(t, |st.stack|, task), NameFrame(task.name);
    var gets := a + b + c;
    TaskAsksFor(t, |st.stack|, task);
    AllMoreGets(a, b, c, u.added);
    MoreGets(a, b, c, name);
    OneAskedFor(gets, name);
    AllAskedForBoth(gets, st.stack, u.added);
    if task.IsOnCpu() {
      var n := if |t.python| > u.count then |t.python| - u.count else 0;
      AllAskedForPart(gets, t.python, 0, n);
      AllAskedForBoth(gets, t.python[..n], st.stack + u.added);
      AllAskedForBoth(gets, t.python[..n] + (st.stack + u.added), [name]);
    } else {
      AllAskedForBoth(gets, st.stack + u.added, [name]);
    }
  }

  lemma {:induction false} ClimbAsksFor(t: Thread, s: Snapshot, chain: seq<nat>, st: Climbing,
                                        a: seq<FrameAccess>, c: seq<FrameAccess>)
    requires Within(s, chain)
    requires var gets := a + GetsOfChain(t, s, chain, st) + c;
             AllAskedFor(gets, t.python) && AllAskedFor(gets, st.stack)
    ensures AllAskedFor(a + GetsOfChain(t, s, chain, st) + c, Climb(t, s, chain, st).stack)
    decreases |chain|
  {
    hide AllAskedFor, StepTask, GetsOfTask;
    if chain == [] {
    } else {
      var task := s.tasks[chain[0]];
      var b, rest := GetsOfTask(t, |st.stack|, task), GetsOfChain(t, s, chain[1..], StepTask(t, task, st));
      assert a + (b + rest) + c == a + b + (rest + c) == (a + b) + rest + c;
      StepAsksFor(t, task, st, a, rest + c);
      ClimbAsksFor(t, s, chain[1..], StepTask(t, task, st), a + b, c);
    }
  }

  /** The gets of a leaf's chain are among those of all the leaves. */
  lemma {:induction false} GetsOfLeafAreThere(t: Thread, s: Snapshot, leaves: seq<nat>, k: nat, n: nat)
    returns (a: seq<FrameAccess>, c: seq<FrameAccess>)
    requires Within(s, leaves) && k < n <= |leaves|
    ensures GetsOfLeaves(t, s, leaves, n)
      == a + GetsOfChain(t, s, Chain(s, leaves[k]), Climbing([], UpperBefore(t, s, leaves, k))) + c
    decreases n
  {
    hide GetsOfChain, UpperBefore, Chain;
    var last := GetsOfChain(t, s, Chain(s, leaves[n - 1]), Climbing([], UpperBefore(t, s, leaves, n - 1)));
    if k == n - 1 {
      a, c := GetsOfLeaves(t, s, leaves, n - 1), [];
    } else {
      a, c := GetsOfLeafAreThere(t, s, leaves, k, n - 1);
      c := c + last;
    }
  }

  /** Every frame on a stack of a sample is one that the sample asked the cache for. */
  lemma StacksAreAskedFor(t: Thread, s: Snapshot, onlyRunning: bool, k: nat)
    requires k < |TaskStacks(t, s, onlyRunning)|
    ensures AllAskedFor(GetsOfSample(t, s, onlyRunning), TaskStacks(t, s, onlyRunning)[k].stack)
  {
    hide AllAskedFor, GetsOfChain, Climb, UpperBefore, SeenBefore, Chain, LeafOrder, GetsOf;
    var leaves := LeafOrder(s, onlyRunning);
    var upper := UpperBefore(t, s, leaves, k);
    var chain := Chain(s, leaves[k]);
    var mine := GetsOfChain(t, s, chain, Climbing([], upper));
    var gets, first := GetsOfSample(t, s, onlyRunning), GetsOf(t.python);
    var a, c := GetsOfLeafAreThere(t, s, leaves, k, |leaves|);
    assert gets == (first + a) + mine + c;
    GetsAskFor(t.python);
    assert gets == [] + first + (a + mine + c);
    AllMoreGets([], first, a + mine + c, t.python);
    NothingAskedFor(gets);
    ClimbAsksFor(t, s, chain, Climbing([], upper), first + a, c);
    var top := LeafTop(t, s, leaves[k], upper);
    assert TaskStacks(t, s, onlyRunning)[k] == InfoAt(t, s, leaves, k);
    var start := if SeenBefore(s, leaves, k + 1) && |t.python| >= top.upper then |t.python| - top.upper else 0;
    AllAskedForPart(gets, t.python, start, |t.python|);
    assert t.python[start..|t.python|] == t.python[start..];
    AllAskedForBoth(gets, top.stack, t.python[start..]);
  }

  /**
   Whatever the cache held before: every frame on every stack of a sample is one that a get returned, and all that
   the gets returned is held when the sample is rendered iff the cache has room for the distinct keys they used.
   */
  lemma SampleIsHeldIff(es: seq<Entry<Key, Frame>>, capacity: nat, t: Thread, s: Snapshot, onlyRunning: bool)
    requires WellFormed(es, capacity)
    ensures var gets := GetsOfSample(t, s, onlyRunning);
            var os := Outcomes(es, capacity, gets);
            && (forall k :: 0 <= k < |TaskStacks(t, s, onlyRunning)| ==>
                  AllAskedFor(gets, TaskStacks(t, s, onlyRunning)[k].stack))
            && (AllHeld(Run(es, capacity, gets, |gets|), os, 0, |gets|, capacity) <==>
                  |Used(os, 0, |gets|)| <= capacity)
  {
    hide Run, Outcomes, Used, AllHeld, AllAskedFor, GetsOfSample, TaskStacks;
    forall k | 0 <= k < |TaskStacks(t, s, onlyRunning)|
      ensures AllAskedFor(GetsOfSample(t, s, onlyRunning), TaskStacks(t, s, onlyRunning)[k].stack)
    {
      StacksAreAskedFor(t, s, onlyRunning, k);
    }
    AllHeldIff(es, capacity, GetsOfSample(t, s, onlyRunning), 0, |GetsOfSample(t, s, onlyRunning)|);
  }
}
