/**
 Enumeration of the threads of an interpreter (echion/threads.h:603-682).  The list of
 thread states may change under the reader: what it reads is any finite graph.
 */
module ThreadList {
  import opened Seqs
  import opened Target

  type ThreadId = nat

  /** The names of the tracked threads. */
  type Infos = map<ThreadId, string>

  const MAIN_THREAD: string := "MainThread"

  datatype ThreadState = ThreadState(next: Addr, prev: Addr, threadId: ThreadId)

  type Heap = map<Addr, ThreadState>

  /** `b` is a neighbour that reading `a` offers. */
  predicate Offers(h: Heap, a: Addr, b: Addr) {
    a in h && b != NULL && (b == h[a].next || b == h[a].prev)
  }

  ghost predicate IsPath(h: Heap, p: seq<Addr>) {
    p != [] && forall i, j :: 0 <= i && j == i + 1 && j < |p| ==> Offers(h, p[i], p[j])
  }

  ghost predicate Reachable(h: Heap, head: Addr, a: Addr) {
    exists p :: IsPath(h, p) && p[0] == head && p[|p| - 1] == a
  }

  /** The addresses that can ever be offered. */
  function Offered(h: Heap, head: Addr): set<Addr> {
    {head} + (set a | a in h :: h[a].next) + (set a | a in h :: h[a].prev)
  }

  predicate HasMainThread(infos: Infos) {
    MAIN_THREAD in infos.Values
  }

  /** What is tracked after a state with thread `t` is met: a missing thread may become the main thread. */
  function Tracked(infos: Infos, creatable: set<ThreadId>, t: ThreadId): Infos {
    if t !in infos && !HasMainThread(infos) && t in creatable then infos[t := MAIN_THREAD] else infos
  }

  /** A thread that is tracked, or that stays untracked for good. */
  ghost predicate Settled(infos: Infos, creatable: set<ThreadId>, t: ThreadId) {
    t in infos || HasMainThread(infos) || t !in creatable
  }

  lemma TrackedSettles(infos: Infos, creatable: set<ThreadId>, t: ThreadId)
    ensures Settled(Tracked(infos, creatable, t), creatable, t)
    ensures forall u :: Settled(infos, creatable, u) ==>
              Settled(Tracked(infos, creatable, t), creatable, u) && (u in Tracked(infos, creatable, t) <==> u in infos)
  {
    var infos' := Tracked(infos, creatable, t);
    if infos' != infos {
      assert infos'[t] == MAIN_THREAD;
    }
  }

  class ThreadTable {
    /** The names of the tracked threads. */
    var infos: Infos

    constructor ()
      ensures infos == map[]
    {
      infos := map[];
    }

    /** Adds what a state that can be read offers, unless it was seen. */
    static method Enqueue(h: Heap, tstate: Addr, seen: seq<Addr>, waiting: set<Addr>) returns (threads: set<Addr>)
      ensures threads == waiting + Unseen(h, tstate, seen)
    {
      threads := waiting;
      if tstate !in h {
        return;
      }
      var state := h[tstate];
      if state.next != NULL && state.next !in seen {
        threads := threads + {state.next};
      }
      if state.prev != NULL && state.prev !in seen {
        threads := threads + {state.prev};
      }
    }

    /** Makes sure that a thread is tracked, if it can be. */
    method Track(threadId: ThreadId, creatable: set<ThreadId>) returns (tracked: bool)
      modifies this
      ensures infos == Tracked(old(infos), creatable, threadId)
      ensures tracked <==> threadId in infos
    {
      if threadId !in infos {
        var mainThreadTracked := MAIN_THREAD in infos.Values;
        if mainThreadTracked {
          return false;
        }
        if threadId !in creatable {
          return false;
        }
        infos := infos[threadId := MAIN_THREAD];
      }
      return true;
    }

    /**
     `creatable` holds the threads for which the thread info can be made.  `seen` is what was taken from the
     worklist, in order; `called` are the states that the callback was given.
     */
    method ForEachThread(h: Heap, head: Addr, creatable: set<ThreadId>) returns (seen: seq<Addr>, called: seq<Addr>)
      modifies this
      ensures NoRepeats(seen) && forall a :: a in seen <==> Reachable(h, head, a)
      ensures head in seen && NeighboursAreMet(h, seen)
      ensures CallsTracked(h, infos, creatable, seen, called)
      ensures infos == old(infos) || OneNamed(h, old(infos), infos, creatable, seen)
      ensures infos != old(infos) <==> NamesOne(h, old(infos), creatable, seen)
    {
      var threads: set<Addr> := {head};
      seen, called := [], [];
      assert IsPath(h, [head]);
      while threads != {}
        invariant Closing(h, head, threads, seen)
        invariant CallsTracked(h, infos, creatable, seen, called)
        invariant infos == old(infos) || OneNamed(h, old(infos), infos, creatable, seen)
        decreases Offered(h, head) - Elements(seen)
      {
        var tstate :| tstate in threads;
        ClosingStep(h, head, threads, seen, tstate);
        SeenGrows(h, head, threads, seen, tstate);
        threads := threads - {tstate};
        ghost var before := seen;
        seen := seen + [tstate];
        threads := Enqueue(h, tstate, seen, threads);
        if tstate !in h {
          CallsSkip(h, infos, creatable, before, called, tstate);
          continue;
        }
        CallsStep(h, infos, creatable, before, called, tstate);
        NamedStep(h, old(infos), infos, creatable, before, tstate);
        var tracked := Track(h[tstate].threadId, creatable);
        if tracked {
          called := called + [tstate];
        }
      }
      ClosedIsReachable(h, head, seen);
      ClosedMeetsNeighbours(h, head, seen);
      NamingIff(h, old(infos), infos, creatable, seen, called);
    }
  }

  // ---------------------------------------------------------------------
  // The callback

  /** The callback was given each met state of a tracked thread, once; the other threads stay untracked for good. */
  ghost predicate CallsTracked(h: Heap, infos: Infos, creatable: set<ThreadId>,
                               seen: seq<Addr>, called: seq<Addr>) {
    && NoRepeats(called)
    && (forall a :: a in called <==> a in seen && a in h && h[a].threadId in infos)
    && (forall a :: a in seen && a in h ==> Settled(infos, creatable, h[a].threadId))
  }

  /** One met thread became the main thread, and none was tracked by that name before. */
  ghost predicate OneNamed(h: Heap, before: Infos, infos: Infos, creatable: set<ThreadId>, seen: seq<Addr>) {
    && !HasMainThread(before)
    && exists a :: a in seen && a in h && h[a].threadId in creatable && h[a].threadId !in before
                   && infos == before[h[a].threadId := MAIN_THREAD]
  }

  /** No thread is tracked as the main thread, and one that was met is not tracked at all and can be. */
  ghost predicate NamesOne(h: Heap, before: Infos, creatable: set<ThreadId>, seen: seq<Addr>) {
    && (forall t :: t in before ==> before[t] != "MainThread")
    && exists a :: a in seen && a in h && h[a].threadId !in before && h[a].threadId in creatable
  }

  /** A thread is named exactly then. */
  lemma NamingIff(h: Heap, before: Infos, infos: Infos, creatable: set<ThreadId>, seen: seq<Addr>, called: seq<Addr>)
    requires CallsTracked(h, infos, creatable, seen, called)
    requires infos == before || OneNamed(h, before, infos, creatable, seen)
    ensures infos != before <==> NamesOne(h, before, creatable, seen)
    ensures infos != before ==> exists t: ThreadId :: t !in before && infos == before[t := "MainThread"]
  {
    if NamesOne(h, before, creatable, seen) {
      var a :| a in seen && a in h && h[a].threadId !in before && h[a].threadId in creatable;
      assert Settled(infos, creatable, h[a].threadId);
    }
    if infos != before {
      var a :| a in seen && a in h && h[a].threadId in creatable && h[a].threadId !in before
               && infos == before[h[a].threadId := MAIN_THREAD];
    }
  }

  lemma CallsSkip(h: Heap, infos: Infos, creatable: set<ThreadId>, seen: seq<Addr>, called: seq<Addr>, a: Addr)
    requires CallsTracked(h, infos, creatable, seen, called) && a !in h
    ensures CallsTracked(h, infos, creatable, seen + [a], called)
  {
  }

  lemma CallsStep(h: Heap, infos: Infos, creatable: set<ThreadId>, seen: seq<Addr>, called: seq<Addr>, a: Addr)
    requires CallsTracked(h, infos, creatable, seen, called) && a in h && a !in seen
    ensures var infos' := Tracked(infos, creatable, h[a].threadId);
            CallsTracked(h, infos', creatable, seen + [a], if h[a].threadId in infos' then called + [a] else called)
  {
    TrackedSettles(infos, creatable, h[a].threadId);
  }

  lemma NamedStep(h: Heap, before: Infos, infos: Infos, creatable: set<ThreadId>, seen: seq<Addr>, a: Addr)
    requires infos == before || OneNamed(h, before, infos, creatable, seen)
    requires a in h
    ensures var infos' := Tracked(infos, creatable, h[a].threadId);
            infos' == before || OneNamed(h, before, infos', creatable, seen + [a])
  {
    if infos != before {
      var b :| b in seen && b in h && h[b].threadId in creatable && h[b].threadId !in before
               && infos == before[h[b].threadId := MAIN_THREAD];
      assert infos[h[b].threadId] == MAIN_THREAD;
      assert b in seen + [a];
    } else if Tracked(infos, creatable, h[a].threadId) != infos {
      assert a in seen + [a];
    }
  }

  // ---------------------------------------------------------------------
  // The worklist

  function Elements(s: seq<Addr>): set<Addr> {
    set a | a in s
  }

  /** Everything met can be reached, and whatever a met state offers is met or waiting. */
  ghost predicate Closing(h: Heap, head: Addr, threads: set<Addr>, seen: seq<Addr>) {
    && NoRepeats(seen)
    && (head in seen || head in threads)
    && (forall a :: a in threads ==> a !in seen && Reachable(h, head, a) && a in Offered(h, head))
    && (forall a :: a in seen ==> Reachable(h, head, a) && a in Offered(h, head))
    && (forall a, b :: a in seen && Offers(h, a, b) ==> b in seen || b in threads)
  }

  /** The neighbours that a state offers and that were not met. */
  function Unseen(h: Heap, a: Addr, seen: seq<Addr>): set<Addr> {
    if a in h then set b | b in {h[a].next, h[a].prev} && b != NULL && b !in seen else {}
  }

  lemma ReachableExtends(h: Heap, head: Addr, a: Addr, b: Addr)
    requires Reachable(h, head, a) && Offers(h, a, b)
    ensures Reachable(h, head, b) && b in Offered(h, head)
  {
    var p :| IsPath(h, p) && p[0] == head && p[|p| - 1] == a;
    var q := p + [b];
    assert IsPath(h, q) && q[|q| - 1] == b;
  }

  lemma ClosingStep(h: Heap, head: Addr, threads: set<Addr>, seen: seq<Addr>, a: Addr)
    requires Closing(h, head, threads, seen) && a in threads
    ensures Closing(h, head, threads - {a} + Unseen(h, a, seen + [a]), seen + [a])
  {
    forall b | Offers(h, a, b)
      ensures Reachable(h, head, b) && b in Offered(h, head)
    {
      ReachableExtends(h, head, a, b);
    }
  }

  lemma SeenGrows(h: Heap, head: Addr, threads: set<Addr>, seen: seq<Addr>, a: Addr)
    requires Closing(h, head, threads, seen) && a in threads
    ensures a !in seen
    ensures Offered(h, head) - Elements(seen + [a]) < Offered(h, head) - Elements(seen)
  {
    assert Elements(seen + [a]) == Elements(seen) + {a};
    assert a in Offered(h, head) - Elements(seen);
  }

  lemma {:induction false} PathStaysInside(h: Heap, seen: seq<Addr>, p: seq<Addr>, n: nat)
    requires IsPath(h, p) && n < |p| && p[0] in seen
    requires forall a, b :: a in seen && Offers(h, a, b) ==> b in seen
    ensures p[n] in seen
  {
    if n == 0 {
    } else {
      PathStaysInside(h, seen, p, n - 1);
      assert Offers(h, p[n - 1], p[n]);
    }
  }

  /** Both neighbours of every state that was read have been met. */
  ghost predicate NeighboursAreMet(h: Heap, seen: seq<Addr>) {
    forall a :: a in seen && a in h ==>
      (h[a].next == NULL || h[a].next in seen) && (h[a].prev == NULL || h[a].prev in seen)
  }

  lemma ClosedMeetsNeighbours(h: Heap, head: Addr, seen: seq<Addr>)
    requires Closing(h, head, {}, seen)
    ensures head in seen && NeighboursAreMet(h, seen)
  {
    forall a | a in seen && a in h
      ensures (h[a].next == NULL || h[a].next in seen) && (h[a].prev == NULL || h[a].prev in seen)
    {
      assert h[a].next != NULL ==> Offers(h, a, h[a].next);
      assert h[a].prev != NULL ==> Offers(h, a, h[a].prev);
    }
  }

  /** When nothing waits, what was met is exactly what can be reached. */
  lemma ClosedIsReachable(h: Heap, head: Addr, seen: seq<Addr>)
    requires Closing(h, head, {}, seen)
    ensures forall a :: a in seen <==> Reachable(h, head, a)
  {
    forall a | Reachable(h, head, a)
      ensures a in seen
    {
      var p :| IsPath(h, p) && p[0] == head && p[|p| - 1] == a;
      PathStaysInside(h, seen, p, |p| - 1);
    }
  }
}
