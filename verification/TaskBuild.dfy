/**
 Construction of coroutine and task descriptions from the target's memory
 (echion/tasks.h, GenInfo::create and TaskInfo::create).
 */
module TaskBuild {
  import opened Target
  import opened Wrappers
  import opened Frames

  /** What is found at the address of an awaitable. */
  datatype GenObject =
    | AsyncGenASend(gen: Addr)
    | Coroutine(frame: Addr, awaited: Addr, executing: bool)
    | NotACoroutine

  datatype TaskObject = TaskObject(coro: Addr, name: Option<Key>, loop: Addr, waiter: Addr)

  /** A snapshot of the target; a read outside a map's domain fails. */
  datatype Memory = Memory(gens: map<Addr, GenObject>, frames: set<Addr>, tasks: map<Addr, TaskObject>) {
    ghost predicate Valid() {
      NULL !in gens && NULL !in frames && NULL !in tasks
    }
  }

  datatype GenInfo = GenInfo(origin: Addr, frame: Addr, await: Option<GenInfo>, isRunning: bool)

  datatype TaskInfo = TaskInfo(origin: Addr, loop: Addr, coro: GenInfo, name: Key, waiter: Option<TaskInfo>) {
    predicate IsOnCpu() { coro.isRunning }
  }

  const MAX_RECURSION_DEPTH: nat := 250

  /** The two constructors, each with its own recursion counter. */
  class Builder {
    const memory: Memory
    var genDepth: nat
    var taskDepth: nat

    constructor (memory: Memory)
      ensures this.memory == memory && genDepth == 0 && taskDepth == 0
    {
      this.memory := memory;
      genDepth, taskDepth := 0, 0;
    }

    method CreateGen(genAddr: Addr) returns (r: Option<GenInfo>)
      requires memory.Valid() && genDepth <= MAX_RECURSION_DEPTH
      modifies this`genDepth
      ensures genDepth == old(genDepth)
      ensures r.Some? <==> Coroutines(memory, GoodPath(memory, genAddr, MAX_RECURSION_DEPTH - old(genDepth))) != []
      ensures r.Some? ==>
        AwaitChain(r.value) == Coroutines(memory, GoodPath(memory, genAddr, MAX_RECURSION_DEPTH - old(genDepth)))
      ensures r.Some? ==> Describes(memory, r.value)
      decreases MAX_RECURSION_DEPTH - genDepth
    {
      genDepth := genDepth + 1;
      if genDepth > MAX_RECURSION_DEPTH {
        genDepth := genDepth - 1;
        return None;
      }
      if genAddr !in memory.gens {
        genDepth := genDepth - 1;
        return None;
      }
      var gen := memory.gens[genAddr];
      ghost var path := GoodPath(memory, genAddr, MAX_RECURSION_DEPTH - old(genDepth));
      if gen.AsyncGenASend? {
        r := CreateGen(gen.gen);
        genDepth := genDepth - 1;
        assert path[1..] == GoodPath(memory, gen.gen, MAX_RECURSION_DEPTH - old(genDepth) - 1);
        return;
      }
      if !gen.Coroutine? {
        genDepth := genDepth - 1;
        return None;
      }
      var frame := gen.frame;
      if frame !in memory.frames {
        genDepth := genDepth - 1;
        return None;
      }
      var yf := gen.awaited;
      var await: Option<GenInfo> := None;
      if yf != NULL && yf != genAddr {
        await := CreateGen(yf);
        assert path[1..] == GoodPath(memory, yf, MAX_RECURSION_DEPTH - old(genDepth) - 1);
      }
      var isRunning := if await.Some? then await.value.isRunning else gen.executing;
      genDepth := genDepth - 1;
      return Some(GenInfo(genAddr, frame, await, isRunning));
    }

    method CreateTask(taskAddr: Addr) returns (r: Option<TaskInfo>)
      requires memory.Valid() && genDepth == 0 && taskDepth <= MAX_RECURSION_DEPTH
      modifies this
      ensures genDepth == 0 && taskDepth == old(taskDepth)
      ensures r.Some? <==> GoodTasks(memory, taskAddr, MAX_RECURSION_DEPTH - old(taskDepth)) != []
      ensures r.Some? ==> WaiterChain(r.value) == GoodTasks(memory, taskAddr, MAX_RECURSION_DEPTH - old(taskDepth))
      ensures r.Some? ==> DescribesTask(memory, r.value)
      decreases MAX_RECURSION_DEPTH - taskDepth
    {
      hide GoodPath, Coroutines, AwaitChain, Describes;
      taskDepth := taskDepth + 1;
      if taskDepth > MAX_RECURSION_DEPTH {
        taskDepth := taskDepth - 1;
        return None;
      }
      if taskAddr !in memory.tasks {
        taskDepth := taskDepth - 1;
        return None;
      }
      var task := memory.tasks[taskAddr];
      var coro := CreateGen(task.coro);
      if coro.None? {
        taskDepth := taskDepth - 1;
        return None;
      }
      if task.name.None? {
        taskDepth := taskDepth - 1;
        return None;
      }
      var waiter: Option<TaskInfo> := None;
      if task.waiter != NULL {
        waiter := CreateTask(task.waiter);
      }
      taskDepth := taskDepth - 1;
      return Some(TaskInfo(taskAddr, task.loop, coro.value, task.name.value, waiter));
    }
  }

  // ---------------------------------------------------------------------
  // Specification

  /** A coroutine whose frame can be read, or an async-send object. */
  predicate IsGood(m: Memory, a: Addr) {
    a in m.gens && (m.gens[a].AsyncGenASend? || (m.gens[a].Coroutine? && m.gens[a].frame in m.frames))
  }

  /** The object a good object leads to; NULL when it leads nowhere. */
  function Awaited(m: Memory, a: Addr): Addr
    requires IsGood(m, a)
  {
    match m.gens[a]
    case AsyncGenASend(gen) => gen
    case Coroutine(_, awaited, _) => if awaited == a then NULL else awaited
  }

  /** The heap's awaiting path from `a`, at most `fuel` objects long. */
  function GoodPath(m: Memory, a: Addr, fuel: nat): seq<Addr>
    decreases fuel
  {
    if fuel == 0 || !IsGood(m, a) then []
    else [a] + GoodPath(m, Awaited(m, a), fuel - 1)
  }

  /** The coroutines on a path: the async-send hops are skipped. */
  function Coroutines(m: Memory, p: seq<Addr>): seq<Addr> {
    if p == [] then []
    else (if p[0] in m.gens && m.gens[p[0]].Coroutine? then [p[0]] else []) + Coroutines(m, p[1..])
  }

  function AwaitChain(g: GenInfo): seq<Addr> {
    [g.origin] + if g.await.None? then [] else AwaitChain(g.await.value)
  }

  /** Every link carries its coroutine's own frame, and the running flag of the last link. */
  ghost predicate Describes(m: Memory, g: GenInfo) {
    && IsGood(m, g.origin) && m.gens[g.origin].Coroutine?
    && g.frame == m.gens[g.origin].frame
    && (if g.await.Some? then Describes(m, g.await.value) && g.isRunning == g.await.value.isRunning
        else g.isRunning == m.gens[g.origin].executing)
  }

  /** A task that can be read, whose coroutine can be described and whose name is known. */
  predicate IsGoodTask(m: Memory, a: Addr) {
    && a in m.tasks && m.tasks[a].name.Some?
    && Coroutines(m, GoodPath(m, m.tasks[a].coro, MAX_RECURSION_DEPTH)) != []
  }

  /** The path of waiters from `a`, at most `fuel` tasks long. */
  function GoodTasks(m: Memory, a: Addr, fuel: nat): seq<Addr>
    decreases fuel
  {
    if fuel == 0 || !IsGoodTask(m, a) then []
    else [a] + GoodTasks(m, m.tasks[a].waiter, fuel - 1)
  }

  function WaiterChain(t: TaskInfo): seq<Addr> {
    [t.origin] + if t.waiter.None? then [] else WaiterChain(t.waiter.value)
  }

  ghost predicate DescribesTask(m: Memory, t: TaskInfo) {
    && IsGoodTask(m, t.origin)
    && t.loop == m.tasks[t.origin].loop
    && m.tasks[t.origin].name == Some(t.name)
    && Describes(m, t.coro)
    && AwaitChain(t.coro) == Coroutines(m, GoodPath(m, m.tasks[t.origin].coro, MAX_RECURSION_DEPTH))
    && (t.waiter.Some? ==> DescribesTask(m, t.waiter.value))
  }

  // ---------------------------------------------------------------------
  // Properties

  /** `p` is the awaiting path from `a`, as long as memory and the limit let it be. */
  ghost predicate IsAwaitingPath(m: Memory, a: Addr, limit: nat, p: seq<Addr>) {
    && |p| <= limit
    && (forall i :: 0 <= i < |p| ==> IsGood(m, p[i]))
    && (|p| > 0 ==> p[0] == a)
    && (forall i :: 0 < i < |p| ==> p[i] == Awaited(m, p[i - 1]))
    && (|p| == limit || !IsGood(m, if |p| == 0 then a else Awaited(m, p[|p| - 1])))
  }

  lemma {:induction false} GoodPathIsAwaitingPath(m: Memory, a: Addr, limit: nat)
    ensures IsAwaitingPath(m, a, limit, GoodPath(m, a, limit))
    decreases limit
  {
    if limit == 0 || !IsGood(m, a) {
    } else {
      GoodPathIsAwaitingPath(m, Awaited(m, a), limit - 1);
      var p, q := GoodPath(m, a, limit), GoodPath(m, Awaited(m, a), limit - 1);
      assert p == [a] + q;
      assert forall i :: 0 < i < |p| ==> p[i] == q[i - 1];
    }
  }

  /** There is only one such path. */
  lemma {:induction false} AwaitingPathIsUnique(m: Memory, a: Addr, limit: nat, p: seq<Addr>)
    requires IsAwaitingPath(m, a, limit, p)
    ensures p == GoodPath(m, a, limit)
    decreases limit
  {
    if p == [] {
    } else {
      var q := p[1..];
      assert forall i :: 0 < i < |q| ==> q[i] == p[i + 1];
      AwaitingPathIsUnique(m, Awaited(m, a), limit - 1, q);
    }
  }

  /**
   What each object of memory makes of a chain of coroutines: an async-send object stands for its generator, a
   coroutine comes first and is followed by what it awaits, unless that is itself or nothing, and anything else ends it.
   */
  lemma ChainCases(m: Memory, a: Addr, limit: nat)
    requires m.Valid() && limit > 0
    ensures var chain := Coroutines(m, GoodPath(m, a, limit));
            if a !in m.gens then chain == []
            else
              match m.gens[a]
              case AsyncGenASend(gen) => chain == Coroutines(m, GoodPath(m, gen, limit - 1))
              case Coroutine(frame, awaited, _) =>
                chain == if frame !in m.frames then []
                         else if awaited == NULL || awaited == a then [a]
                         else [a] + Coroutines(m, GoodPath(m, awaited, limit - 1))
              case NotACoroutine => chain == []
  {
    if IsGood(m, a) {
      var rest := GoodPath(m, Awaited(m, a), limit - 1);
      assert GoodPath(m, a, limit)[1..] == rest;
      assert [a] + [] == [a];
    }
  }

  /** A coroutine and what it awaits, as a sequence. */
  function LinksOf(g: GenInfo): seq<GenInfo> {
    [g] + if g.await.None? then [] else LinksOf(g.await.value)
  }

  /** Every link of a description is a coroutine of memory, with the frame it has there and the flag of the last. */
  lemma {:induction false} LinksAreDescribed(m: Memory, g: GenInfo, i: nat)
    requires Describes(m, g) && i < |LinksOf(g)|
    ensures |AwaitChain(g)| == |LinksOf(g)|
    ensures var link, last := LinksOf(g)[i], LinksOf(g)[|LinksOf(g)| - 1].origin;
            && link.origin == AwaitChain(g)[i]
            && link.origin in m.gens && m.gens[link.origin].Coroutine? && link.frame == m.gens[link.origin].frame
            && last in m.gens && m.gens[last].Coroutine? && link.isRunning == m.gens[last].executing
    decreases g
  {
    if g.await.Some? {
      var rest := g.await.value;
      LinksAreDescribed(m, rest, if i > 0 then i - 1 else 0);
      assert LinksOf(g)[|LinksOf(g)| - 1] == LinksOf(rest)[|LinksOf(rest)| - 1];
    }
  }

  /** A description made from depth zero has at most 250 links, and its running flag is the last link's. */
  lemma {:induction false} DescriptionIsBounded(m: Memory, a: Addr, g: GenInfo)
    requires AwaitChain(g) == Coroutines(m, GoodPath(m, a, MAX_RECURSION_DEPTH))
    requires Describes(m, g)
    ensures 0 < |AwaitChain(g)| <= MAX_RECURSION_DEPTH
    ensures forall c :: c in AwaitChain(g) ==> c in m.gens && m.gens[c].Coroutine?
    ensures var last := AwaitChain(g)[|AwaitChain(g)| - 1];
            last in m.gens && m.gens[last].Coroutine? && g.isRunning == m.gens[last].executing
  {
    GoodPathIsAwaitingPath(m, a, MAX_RECURSION_DEPTH);
    CoroutinesAreFew(m, GoodPath(m, a, MAX_RECURSION_DEPTH));
    RunningFlagIsTheLast(m, g);
  }

  lemma {:induction false} CoroutinesAreFew(m: Memory, p: seq<Addr>)
    ensures |Coroutines(m, p)| <= |p|
    ensures forall c :: c in Coroutines(m, p) <==> c in p && c in m.gens && m.gens[c].Coroutine?
  {
    if p == [] {
    } else {
      CoroutinesAreFew(m, p[1..]);
      assert p == [p[0]] + p[1..];
    }
  }

  lemma {:induction false} RunningFlagIsTheLast(m: Memory, g: GenInfo)
    requires Describes(m, g)
    ensures AwaitChain(g) != []
    ensures var last := AwaitChain(g)[|AwaitChain(g)| - 1];
            last in m.gens && m.gens[last].Coroutine? && g.isRunning == m.gens[last].executing
  {
    if g.await.None? {
    } else {
      RunningFlagIsTheLast(m, g.await.value);
    }
  }

  /** `p` is the path of waiters from `a`, as long as memory and the limit let it be. */
  ghost predicate IsWaiterPath(m: Memory, a: Addr, limit: nat, p: seq<Addr>) {
    && |p| <= limit
    && (forall i :: 0 <= i < |p| ==> IsGoodTask(m, p[i]))
    && (|p| > 0 ==> p[0] == a)
    && (forall i :: 0 < i < |p| ==> p[i] == m.tasks[p[i - 1]].waiter)
    && (|p| == limit || !IsGoodTask(m, if |p| == 0 then a else m.tasks[p[|p| - 1]].waiter))
  }

  /** The waiters that are described are exactly that path. */
  lemma {:induction false} GoodTasksIsWaiterPath(m: Memory, a: Addr, limit: nat)
    ensures IsWaiterPath(m, a, limit, GoodTasks(m, a, limit))
    decreases limit
  {
    hide Coroutines, GoodPath;
    if limit == 0 || !IsGoodTask(m, a) {
    } else {
      var p, q := GoodTasks(m, a, limit), GoodTasks(m, m.tasks[a].waiter, limit - 1);
      GoodTasksIsWaiterPath(m, m.tasks[a].waiter, limit - 1);
      assert p == [a] + q;
      assert forall i :: 0 < i < |p| ==> p[i] == q[i - 1];
    }
  }

  /** What each task of memory makes of a chain of waiters. */
  lemma TaskCases(m: Memory, a: Addr, limit: nat)
    requires m.Valid() && limit > 0
    ensures GoodTasks(m, a, limit)
      == if a !in m.tasks || m.tasks[a].name.None? then []
         else if Coroutines(m, GoodPath(m, m.tasks[a].coro, 250)) == [] then []
         else if m.tasks[a].waiter == NULL then [a]
         else [a] + GoodTasks(m, m.tasks[a].waiter, limit - 1)
  {
    if IsGoodTask(m, a) && m.tasks[a].waiter == NULL {
      assert GoodTasks(m, NULL, limit - 1) == [];
      assert [a] + [] == [a];
    }
  }

  /** A task and its waiters, as a sequence. */
  function TasksOf(t: TaskInfo): seq<TaskInfo> {
    [t] + if t.waiter.None? then [] else TasksOf(t.waiter.value)
  }

  /** Every task of a description has the name and loop it has in memory, and its own coroutine's description. */
  lemma {:induction false} WaitersAreDescribed(m: Memory, t: TaskInfo, i: nat)
    requires DescribesTask(m, t) && i < |TasksOf(t)|
    ensures |WaiterChain(t)| == |TasksOf(t)|
    ensures var task := TasksOf(t)[i];
            && task.origin == WaiterChain(t)[i] && task.origin in m.tasks
            && m.tasks[task.origin].name == Some(task.name) && m.tasks[task.origin].loop == task.loop
            && Describes(m, task.coro)
            && AwaitChain(task.coro) == Coroutines(m, GoodPath(m, m.tasks[task.origin].coro, 250))
    decreases t
  {
    hide Coroutines, GoodPath, Describes, AwaitChain;
    if t.waiter.Some? {
      WaitersAreDescribed(m, t.waiter.value, if i > 0 then i - 1 else 0);
    }
  }
}
