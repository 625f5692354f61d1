/**
 Frames, frame stacks and the walk over the chain of previous frames
 (echion/stacks.h, echion/frame.h).

 The memory of the target is a partial map: reading an address outside its
 domain fails.  The map may be cyclic and may dangle.
 */
module Frames {
  import opened Seqs
  import opened Target

  const INVALID: Key := 1
  const UNKNOWN: Key := 2
  const C_FRAME: Key := 3

  datatype Frame = Frame(cacheKey: Key, filename: Key, name: Key, isEntry: bool)

  /** What a successful Frame::read yields: the frame and the next address. */
  datatype Reading = Reading(frame: Frame, prev: Addr)

  type Heap = map<Addr, Reading>

  /** A deque of frames; position 0 is the innermost frame. */
  class FrameStack {
    var frames: seq<Frame>

    constructor ()
      ensures frames == []
    {
      frames := [];
    }
  }

  // ---------------------------------------------------------------------
  // Specification

  /** The addresses the walk reads, in order. */
  function WalkPath(h: Heap, a: Addr, seen: set<Addr>): seq<Addr>
    decreases h.Keys - seen
  {
    if a == NULL || a in seen || a !in h then
      []
    else
      assert h.Keys - (seen + {a}) < h.Keys - seen by {
        assert a in h.Keys - seen;
      }
      [a] + WalkPath(h, h[a].prev, seen + {a})
  }

  /** The frames along a path that are not C frames. */
  function Visible(h: Heap, p: seq<Addr>): seq<Frame>
    requires forall i :: 0 <= i < |p| ==> p[i] in h
  {
    if p == [] then []
    else (if h[p[0]].frame.name == C_FRAME then [] else [h[p[0]].frame]) + Visible(h, p[1..])
  }

  /** The visible frames that a walk still reaches from `a` when it has seen some addresses. */
  function VisibleFrom(h: Heap, a: Addr, seen: set<Addr>): seq<Frame> {
    WalkPathReadable(h, a, seen);
    Visible(h, WalkPath(h, a, seen))
  }

  /** Everything visible from `a`, as if there were no limit on the stack. */
  function AllVisible(h: Heap, a: Addr): seq<Frame> {
    VisibleFrom(h, a, {})
  }

  /** What unwinding from `a` onto a stack of `size` frames pushes. */
  function Appended(h: Heap, maxFrames: nat, a: Addr, size: nat): seq<Frame> {
    Take(AllVisible(h, a), maxFrames - size)
  }

  predicate LeadsTo(h: Heap, x: Addr, y: Addr) {
    x in h && h[x].prev == y
  }

  /** `p` follows the previous-frame chain from `a` through readable addresses without repeats. */
  ghost predicate IsWalk(h: Heap, a: Addr, p: seq<Addr>) {
    && (forall i :: 0 <= i < |p| ==> p[i] != NULL && p[i] in h)
    && (p != [] ==> p[0] == a)
    && (forall i, j :: 0 <= i && j == i + 1 && j < |p| ==> LeadsTo(h, p[i], p[j]))
    && (forall i, j :: 0 <= i < j < |p| ==> p[i] != p[j])
  }

  /** The address the chain from `a` offers after the walk `p`. */
  function After(h: Heap, a: Addr, p: seq<Addr>): Addr {
    if p == [] then a else if p[|p| - 1] in h then h[p[|p| - 1]].prev else NULL
  }

  /** No walk from `a` extends `p`. */
  ghost predicate IsLongestWalk(h: Heap, a: Addr, p: seq<Addr>) {
    && IsWalk(h, a, p)
    && (After(h, a, p) == NULL || After(h, a, p) !in h || After(h, a, p) in p)
  }

  // ---------------------------------------------------------------------
  // unwind_frame

  method UnwindFrame(h: Heap, maxFrames: nat, frameAddr: Addr, stack: FrameStack) returns (count: nat)
    modifies stack
    ensures stack.frames == old(stack.frames) + Appended(h, maxFrames, frameAddr, |old(stack.frames)|)
    ensures count == |Appended(h, maxFrames, frameAddr, |old(stack.frames)|)|
  {
    hide WalkOn, Appended;
    var seenFrames: set<Addr> := {};
    count := 0;
    var current := frameAddr;
    ghost var before := stack.frames;
    ghost var whole := WalkOn(h, maxFrames, frameAddr, {}, before);
    while current != NULL && |stack.frames| < maxFrames
      invariant WalkOn(h, maxFrames, current, seenFrames, stack.frames) == whole
      invariant |stack.frames| == |before| + count
      decreases h.Keys - seenFrames
    {
      WalkOnStep(h, maxFrames, current, seenFrames, stack.frames);
      if current in seenFrames {
        break;
      }
      if current !in h {
        break;
      }
      assert current in h.Keys - seenFrames;
      seenFrames := seenFrames + {current};
      var reading := h[current];
      current := reading.prev;
      if reading.frame.name == C_FRAME {
        continue;
      }
      stack.frames := stack.frames + [reading.frame];
      count := count + 1;
    }
    WalkOnStep(h, maxFrames, current, seenFrames, stack.frames);
    WalkOnFromStart(h, maxFrames, frameAddr, before);
  }

  /** The stack that the walk leaves, from any point of it. */
  function WalkOn(h: Heap, maxFrames: nat, a: Addr, seen: set<Addr>, frames: seq<Frame>): seq<Frame>
    decreases h.Keys - seen
  {
    if a == NULL || |frames| >= maxFrames || a in seen || a !in h then
      frames
    else
      assert a in h.Keys - seen;
      var f := h[a].frame;
      WalkOn(h, maxFrames, h[a].prev, seen + {a}, if f.name == C_FRAME then frames else frames + [f])
  }

  lemma WalkOnStep(h: Heap, maxFrames: nat, a: Addr, seen: set<Addr>, frames: seq<Frame>)
    ensures a == NULL || |frames| >= maxFrames || a in seen || a !in h ==>
              WalkOn(h, maxFrames, a, seen, frames) == frames
    ensures a != NULL && |frames| < maxFrames && a !in seen && a in h ==>
              var f := h[a].frame;
              WalkOn(h, maxFrames, a, seen, frames)
                == WalkOn(h, maxFrames, h[a].prev, seen + {a}, if f.name == C_FRAME then frames else frames + [f])
  {
  }

  /** It is the stack there was and what is visible from there, cut at the limit. */
  lemma {:induction false} WalkOnAppends(h: Heap, maxFrames: nat, a: Addr, seen: set<Addr>, frames: seq<Frame>)
    ensures WalkOn(h, maxFrames, a, seen, frames) == frames + Take(VisibleFrom(h, a, seen), maxFrames - |frames|)
    decreases h.Keys - seen
  {
    hide VisibleFrom;
    VisibleStep(h, a, seen);
    if a == NULL || |frames| >= maxFrames || a in seen || a !in h {
    } else {
      assert a in h.Keys - seen;
      var f, rest := h[a].frame, VisibleFrom(h, h[a].prev, seen + {a});
      if f.name == C_FRAME {
        WalkOnAppends(h, maxFrames, h[a].prev, seen + {a}, frames);
        assert [] + rest == rest;
      } else {
        WalkOnAppends(h, maxFrames, h[a].prev, seen + {a}, frames + [f]);
        TakeOneMore(frames, f, rest, maxFrames - |frames|);
      }
    }
  }

  lemma TakeOneMore(frames: seq<Frame>, f: Frame, rest: seq<Frame>, n: int)
    requires n > 0
    ensures frames + Take([f] + rest, n) == frames + [f] + Take(rest, n - 1)
  {
  }

  lemma WalkOnFromStart(h: Heap, maxFrames: nat, a: Addr, frames: seq<Frame>)
    ensures WalkOn(h, maxFrames, a, {}, frames) == frames + Appended(h, maxFrames, a, |frames|)
  {
    WalkOnAppends(h, maxFrames, a, {}, frames);
  }

  /** What one step of the walk sees. */
  lemma VisibleStep(h: Heap, a: Addr, seen: set<Addr>)
    ensures VisibleFrom(h, a, seen)
      == if a == NULL || a in seen || a !in h then []
         else (if h[a].frame.name == C_FRAME then [] else [h[a].frame]) + VisibleFrom(h, h[a].prev, seen + {a})
  {
    if a == NULL || a in seen || a !in h {
    } else {
      assert a in h.Keys - seen;
      var rest := WalkPath(h, h[a].prev, seen + {a});
      assert WalkPath(h, a, seen) == [a] + rest;
      assert ([a] + rest)[1..] == rest;
    }
  }

  // ---------------------------------------------------------------------
  // Properties

  /** The positions of a path whose frames are not C frames. */
  function Kept(h: Heap, p: seq<Addr>): (kept: set<nat>)
    requires forall i :: 0 <= i < |p| ==> p[i] in h
    ensures forall i :: i in kept <==> 0 <= i < |p| && h[p[i]].frame.name != C_FRAME
  {
    set i: nat | 0 <= i < |p| && h[p[i]].frame.name != C_FRAME
  }

  lemma KeptGrows(h: Heap, p: seq<Addr>)
    requires p != [] && forall i :: 0 <= i < |p| ==> p[i] in h
    ensures var last := |p| - 1;
            |Kept(h, p)| == |Kept(h, p[..last])| + if h[p[last]].frame.name == C_FRAME then 0 else 1
  {
    var last := |p| - 1;
    assert Kept(h, p) == Kept(h, p[..last]) + if h[p[last]].frame.name == C_FRAME then {} else {last};
  }

  lemma VisibleOfOne(h: Heap, a: Addr)
    requires a in h
    ensures Visible(h, [a]) == if h[a].frame.name == C_FRAME then [] else [h[a].frame]
  {
    assert [a][1..] == [];
  }

  /** Walking on to one more address shows its frame last, unless that is a C frame. */
  lemma VisibleAppends(h: Heap, p: seq<Addr>)
    requires p != [] && forall i :: 0 <= i < |p| ==> p[i] in h
    ensures var last := |p| - 1;
            Visible(h, p) == Visible(h, p[..last]) + if h[p[last]].frame.name == C_FRAME then [] else [h[p[last]].frame]
  {
    VisibleSplits(h, p, |p| - 1);
    assert p[|p| - 1..] == [p[|p| - 1]];
    VisibleOfOne(h, p[|p| - 1]);
  }

  /**
   Of the frames on a path exactly the C frames are left out: as many are shown as are no C frames, each behind all of
   them that come before it on the path.
   */
  lemma {:induction false} VisibleAreTheOthers(h: Heap, p: seq<Addr>, i: nat)
    requires i < |p| && forall j :: 0 <= j < |p| ==> p[j] in h
    ensures |Visible(h, p)| == |Kept(h, p)|
    ensures h[p[i]].frame.name != C_FRAME ==>
              |Kept(h, p[..i])| < |Visible(h, p)| && Visible(h, p)[|Kept(h, p[..i])|] == h[p[i]].frame
    decreases |p|
  {
    hide Visible, Kept;
    var last := |p| - 1;
    VisibleAppends(h, p);
    KeptGrows(h, p);
    if last == 0 {
      NothingKept(h);
      assert p[..last] == p[..i] == [];
    } else {
      VisibleAreTheOthers(h, p[..last], if i < last then i else 0);
      if i < last { assert p[..last][..i] == p[..i]; }
    }
  }

  lemma NothingKept(h: Heap)
    ensures Visible(h, []) == [] && Kept(h, []) == {}
  {
  }

  lemma {:induction false} WalkPathReadable(h: Heap, a: Addr, seen: set<Addr>)
    ensures forall i :: 0 <= i < |WalkPath(h, a, seen)| ==> WalkPath(h, a, seen)[i] in h
    decreases h.Keys - seen
  {
    if a == NULL || a in seen || a !in h {
    } else {
      assert a in h.Keys - seen;
      WalkPathReadable(h, h[a].prev, seen + {a});
    }
  }

  lemma {:induction false} WalkPathExtends(h: Heap, a: Addr, seen: set<Addr>)
    ensures var p := WalkPath(h, a, seen);
            && IsWalk(h, a, p)
            && (forall x :: x in p ==> x !in seen)
            && (After(h, a, p) == NULL || After(h, a, p) !in h || After(h, a, p) in p || After(h, a, p) in seen)
    decreases h.Keys - seen
  {
    if a == NULL || a in seen || a !in h {
    } else {
      var b := h[a].prev;
      assert a in h.Keys - seen;
      WalkPathExtends(h, b, seen + {a});
      var p, q := WalkPath(h, a, seen), WalkPath(h, b, seen + {a});
      assert p == [a] + q;
      forall i, j | 0 <= i && j == i + 1 && j < |p|
        ensures LeadsTo(h, p[i], p[j])
      {
        if i > 0 { assert LeadsTo(h, q[i - 1], q[j - 1]); }
      }
      assert a !in q;
    }
  }

  /** The walk of unwind_frame is the longest readable, repeat-free prefix of the chain. */
  lemma WalkPathIsLongest(h: Heap, a: Addr)
    ensures IsLongestWalk(h, a, WalkPath(h, a, {}))
  {
    WalkPathExtends(h, a, {});
  }

  lemma {:induction false} WalksAgree(h: Heap, a: Addr, p: seq<Addr>, q: seq<Addr>, n: nat)
    requires IsWalk(h, a, p) && IsWalk(h, a, q)
    requires n <= |p| && n <= |q|
    ensures p[..n] == q[..n]
  {
    if n == 0 {
    } else {
      WalksAgree(h, a, p, q, n - 1);
      if n > 1 {
        assert p[..n - 1][n - 2] == q[..n - 1][n - 2];
        assert LeadsTo(h, p[n - 2], p[n - 1]) && LeadsTo(h, q[n - 2], q[n - 1]);
      }
      assert p[..n] == p[..n - 1] + [p[n - 1]] && q[..n] == q[..n - 1] + [q[n - 1]];
    }
  }

  /** What a walk reads after its first `n` addresses is a fresh readable address. */
  lemma WalkReadsOn(h: Heap, a: Addr, q: seq<Addr>, n: nat)
    requires IsWalk(h, a, q) && n < |q|
    ensures After(h, a, q[..n]) != NULL && After(h, a, q[..n]) in h
    ensures After(h, a, q[..n]) !in q[..n]
  {
    if n > 0 { assert LeadsTo(h, q[n - 1], q[n]); }
    assert After(h, a, q[..n]) == q[n];
  }

  /** Any other walk from the same address is a prefix of the longest one. */
  lemma LongestWalkIsLongest(h: Heap, a: Addr, p: seq<Addr>, q: seq<Addr>)
    requires IsLongestWalk(h, a, p) && IsWalk(h, a, q)
    ensures q <= p
  {
    var n := if |p| < |q| then |p| else |q|;
    WalksAgree(h, a, p, q, n);
    assert p[..|p|] == p && q[..|q|] == q;
    if n < |q| {
      WalkReadsOn(h, a, q, n);
    }
  }

  /** The chain from `a` ends at NULL or at an unreadable address: it does not run into itself. */
  ghost predicate EndsCleanly(h: Heap, a: Addr) {
    var next := After(h, a, WalkPath(h, a, {}));
    next == NULL || next !in h
  }

  lemma RestOfWalk(h: Heap, a: Addr, p: seq<Addr>, j: nat)
    requires IsWalk(h, a, p) && j < |p|
    requires After(h, a, p) == NULL || After(h, a, p) !in h
    ensures IsLongestWalk(h, p[j], p[j..])
  {
    var q := p[j..];
    assert q[|q| - 1] == p[|p| - 1];
  }

  /** On a chain that ends cleanly, walking from any address on it sees the rest of it. */
  lemma WalkFromTheMiddle(h: Heap, a: Addr, j: nat)
    requires EndsCleanly(h, a) && j < |WalkPath(h, a, {})|
    ensures WalkPath(h, WalkPath(h, a, {})[j], {}) == WalkPath(h, a, {})[j..]
  {
    var p := WalkPath(h, a, {});
    WalkPathIsLongest(h, a);
    WalkPathIsLongest(h, p[j]);
    RestOfWalk(h, a, p, j);
    LongestWalkIsLongest(h, p[j], p[j..], WalkPath(h, p[j], {}));
    LongestWalkIsLongest(h, p[j], WalkPath(h, p[j], {}), p[j..]);
  }

  lemma {:induction false} VisibleSplits(h: Heap, p: seq<Addr>, j: nat)
    requires forall i :: 0 <= i < |p| ==> p[i] in h
    requires j <= |p|
    ensures Visible(h, p) == Visible(h, p[..j]) + Visible(h, p[j..])
  {
    if j > 0 {
      assert p[1..][..j - 1] == p[..j][1..] && p[1..][j - 1..] == p[j..];
      VisibleSplits(h, p[1..], j - 1);
    } else {
      assert p[j..] == p;
    }
  }

  /** The frames seen from the address that holds the frame at position `k` of a stack. */
  lemma VisibleFromTheMiddle(h: Heap, a: Addr, j: nat, k: nat)
    requires EndsCleanly(h, a) && j < |WalkPath(h, a, {})|
    requires forall i :: 0 <= i < |WalkPath(h, a, {})| ==> WalkPath(h, a, {})[i] in h
    requires k == |Visible(h, WalkPath(h, a, {})[..j])|
    ensures k <= |AllVisible(h, a)|
    ensures AllVisible(h, WalkPath(h, a, {})[j]) == AllVisible(h, a)[k..]
  {
    WalkFromTheMiddle(h, a, j);
    VisibleSplits(h, WalkPath(h, a, {}), j);
  }
}
