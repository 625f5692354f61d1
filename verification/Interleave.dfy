/**
 Interleaving of the native and the Python stack (echion/stacks.h:260-320).
 Stacks have their innermost frame first.
 */
module Interleave {
  import opened Frames
  import opened Seqs
  import opened Target
  import opened Wrappers

  /** A frame of the result, with the stack it was taken from. */
  datatype Slot = Python(frame: Frame) | Native(frame: Frame)

  const EVAL: string := "PyEval_EvalFrameDefault"

  predicate Contains(s: string, sub: string) {
    sub <= s || (s != [] && Contains(s[1..], sub))
  }

  datatype Config = Config(segmented: bool, names: map<Key, string>) {
    /** The native frame is the evaluator of Python code. */
    predicate IsEval(f: Frame) {
      f.name in names && Contains(names[f.name], EVAL)
    }
  }

  function Entry(f: Frame): nat {
    if f.isEntry then 1 else 0
  }

  // ---------------------------------------------------------------------
  // Specification: the Python stack, outermost first, cut into segments

  /** How many frames to take when `entries` entry frames were taken already. */
  function SegmentLength(python: seq<Frame>, entries: nat): (n: nat)
    ensures n <= |python|
  {
    if python == [] || entries + Entry(python[0]) >= 2 then 0
    else 1 + SegmentLength(python[1..], entries + Entry(python[0]))
  }

  /** The number of Python frames that one evaluator frame stands for; before 3.11 it is one. */
  function FirstSegment(c: Config, python: seq<Frame>): (n: nat)
    requires python != []
    ensures 0 < n <= |python|
  {
    if c.segmented then SegmentLength(python, 0) else 1
  }

  function Segments(c: Config, python: seq<Frame>): seq<seq<Frame>> {
    if python == [] then []
    else [python[..FirstSegment(c, python)]] + Segments(c, python[FirstSegment(c, python)..])
  }

  function Pythons(fs: seq<Frame>): (r: seq<Slot>)
    ensures |r| == |fs|
  {
    if fs == [] then [] else [Python(fs[0])] + Pythons(fs[1..])
  }

  function AllOf(segments: seq<seq<Frame>>): seq<Frame> {
    if segments == [] then [] else segments[0] + AllOf(segments[1..])
  }

  /** Native frames, outermost first: evaluators give way to segments as long as there are any. */
  function Weave(c: Config, native: seq<Frame>, segments: seq<seq<Frame>>): seq<Slot> {
    if native == [] then Pythons(AllOf(segments))
    else if c.IsEval(native[0]) && segments != [] then Pythons(segments[0]) + Weave(c, native[1..], segments[1..])
    else [Native(native[0])] + Weave(c, native[1..], segments)
  }

  function PythonOf(slots: seq<Slot>): seq<Frame> {
    if slots == [] then []
    else (if slots[0].Python? then [slots[0].frame] else []) + PythonOf(slots[1..])
  }

  function NativeOf(slots: seq<Slot>): seq<Frame> {
    if slots == [] then []
    else (if slots[0].Native? then [slots[0].frame] else []) + NativeOf(slots[1..])
  }

  /** The native frames without the first `n` evaluators. */
  function WithoutEvals(c: Config, native: seq<Frame>, n: nat): seq<Frame> {
    if native == [] then []
    else if c.IsEval(native[0]) && n > 0 then WithoutEvals(c, native[1..], n - 1)
    else [native[0]] + WithoutEvals(c, native[1..], n)
  }

  /** The result: the two innermost native frames are left out. */
  function Interleaved(c: Config, python: seq<Frame>, native: seq<Frame>): seq<Slot>
    requires |native| >= 2
  {
    Reverse(Weave(c, Reverse(native[2..]), Segments(c, Reverse(python))))
  }

  // ---------------------------------------------------------------------
  // interleave_stacks

  method InterleaveStacks(c: Config, python: seq<Frame>, native: seq<Frame>) returns (ok: bool, interleaved: seq<Slot>)
    requires |native| >= 2
    ensures ok <==> forall i :: 2 <= i < |native| ==> native[i].name in c.names
    ensures ok ==> interleaved == Interleaved(c, python, native)
  {
    hide Contains, Reverse;
    interleaved := [];
    var p: nat := |python|;
    var n: nat := |native|;
    ghost var whole := Weave(c, Reverse(native[2..]), Segments(c, Reverse(python)));
    assert python[..p] == python && native[2..n] == native[2..];
    while n > 2
      invariant 2 <= n <= |native| && 0 <= p <= |python|
      invariant forall i :: n <= i < |native| ==> native[i].name in c.names
      invariant Reverse(interleaved) + Weave(c, Reverse(native[2..n]), Segments(c, Reverse(python[..p]))) == whole
    {
      ghost var left, ahead := Reverse(native[2..n]), Segments(c, Reverse(python[..p]));
      ghost var done := Reverse(interleaved);
      NextNative(native, n);
      n := n - 1;
      var nativeFrame := native[n];
      if nativeFrame.name !in c.names {
        return false, interleaved;
      }
      if Contains(c.names[nativeFrame.name], EVAL) && p > 0 {
        ghost var before := interleaved;
        interleaved, p := PopSegment(c, python, p, interleaved);
        ConcatAssociates(done, Pythons(ahead[0]), Weave(c, left[1..], ahead[1..]));
      } else {
        ReverseCons(Native(nativeFrame), interleaved);
        interleaved := [Native(nativeFrame)] + interleaved;
        ConcatAssociates(done, [Native(nativeFrame)], Weave(c, left[1..], ahead));
      }
    }
    ghost var done := Reverse(interleaved);
    AllOfSegments(c, Reverse(python[..p]));
    interleaved := PopRest(python, p, interleaved);
    ReverseTwice(interleaved);
    return true, interleaved;
  }

  lemma NextNative(native: seq<Frame>, n: nat)
    requires 2 < n <= |native|
    ensures var left := Reverse(native[2..n]);
            left[0] == native[n - 1] && left[1..] == Reverse(native[2..n - 1])
  {
    ReverseLast(native[2..n]);
    assert native[2..n][..n - 3] == native[2..n - 1];
  }

  /** Moves one segment from the end of the Python stack to the front of the result. */
  method PopSegment(c: Config, python: seq<Frame>, start: nat, onto: seq<Slot>) returns (interleaved: seq<Slot>, p: nat)
    requires 0 < start <= |python|
    ensures p <= start
    ensures var segments := Segments(c, Reverse(python[..start]));
            && Reverse(interleaved) == Reverse(onto) + Pythons(segments[0])
            && Segments(c, Reverse(python[..p])) == segments[1..]
  {
    hide Reverse;
    interleaved, p := onto, start;
    ghost var ahead := Reverse(python[..start]);
    if c.segmented {
      var cframeCount: nat := 0;
      while p > 0
        invariant 0 <= p <= start && Reverse(python[..p]) == ahead[start - p..] && 0 <= cframeCount <= 1
        invariant Reverse(interleaved) == Reverse(onto) + Pythons(ahead[..start - p])
        invariant start - p + SegmentLength(ahead[start - p..], cframeCount) == SegmentLength(ahead, 0)
      {
        NextPython(python, start, p);
        assert ahead[start - p..][1..] == ahead[start - p + 1..];
        cframeCount := cframeCount + Entry(python[p - 1]);
        if cframeCount >= 2 {
          break;
        }
        ConcatAssociates(Reverse(onto), Pythons(ahead[..start - p]), [Python(python[p - 1])]);
        ReverseCons(Python(python[p - 1]), interleaved);
        interleaved := [Python(python[p - 1])] + interleaved;
        p := p - 1;
      }
      assert start - p == FirstSegment(c, ahead);
    } else {
      ReverseLast(python[..p]);
      assert python[..p][..p - 1] == python[..p - 1];
      ReverseCons(Python(python[p - 1]), interleaved);
      interleaved := [Python(python[p - 1])] + interleaved;
      p := p - 1;
      assert ahead[..1] == [python[p]] && ahead[1..] == Reverse(python[..p]);
      assert Pythons(ahead[..1]) == [Python(python[p])];
    }
  }

  method PopRest(python: seq<Frame>, start: nat, onto: seq<Slot>) returns (interleaved: seq<Slot>)
    requires start <= |python|
    ensures Reverse(interleaved) == Reverse(onto) + Pythons(Reverse(python[..start]))
  {
    interleaved := onto;
    var p: nat := start;
    ghost var ahead := Reverse(python[..start]);
    while p > 0
      invariant 0 <= p <= start && Reverse(python[..p]) == ahead[start - p..]
      invariant Reverse(interleaved) == Reverse(onto) + Pythons(ahead[..start - p])
    {
      NextPython(python, start, p);
      ConcatAssociates(Reverse(onto), Pythons(ahead[..start - p]), [Python(python[p - 1])]);
      interleaved := [Python(python[p - 1])] + interleaved;
      p := p - 1;
    }
    assert ahead[..start] == ahead;
  }

  /** One more frame taken from the end of the Python stack. */
  lemma NextPython(python: seq<Frame>, start: nat, p: nat)
    requires 0 < p <= start <= |python|
    requires Reverse(python[..p]) == Reverse(python[..start])[start - p..]
    ensures var ahead := Reverse(python[..start]);
            && ahead[start - p] == python[p - 1]
            && Reverse(python[..p - 1]) == ahead[start - p + 1..]
            && Pythons(ahead[..start - p + 1]) == Pythons(ahead[..start - p]) + [Python(python[p - 1])]
  {
    var ahead := Reverse(python[..start]);
    ReverseLast(python[..p]);
    assert python[..p][..p - 1] == python[..p - 1];
    assert ahead[start - p..][1..] == ahead[start - p + 1..];
    assert ahead[..start - p + 1] == ahead[..start - p] + [ahead[start - p]];
    PythonsAppend(ahead[..start - p], ahead[start - p]);
  }

  lemma {:induction false} PythonsAppend(fs: seq<Frame>, f: Frame)
    ensures Pythons(fs + [f]) == Pythons(fs) + [Python(f)]
  {
    if fs == [] {
    } else {
      assert (fs + [f])[1..] == fs[1..] + [f];
      PythonsAppend(fs[1..], f);
    }
  }

  // ---------------------------------------------------------------------
  // Conservation

  lemma {:induction false} AllOfSegments(c: Config, python: seq<Frame>)
    ensures AllOf(Segments(c, python)) == python
    decreases |python|
  {
    if python == [] {
    } else {
      AllOfSegments(c, python[FirstSegment(c, python)..]);
    }
  }

  lemma PythonFirst(f: Frame, more: seq<Slot>)
    ensures PythonOf([Python(f)] + more) == [f] + PythonOf(more)
    ensures NativeOf([Python(f)] + more) == NativeOf(more)
  {
    assert ([Python(f)] + more)[1..] == more;
  }

  lemma OneMorePython(f: Frame, fs: seq<Frame>, slots: seq<Slot>, rest: seq<Slot>)
    requires PythonOf(slots + rest) == fs + PythonOf(rest) && NativeOf(slots + rest) == NativeOf(rest)
    ensures PythonOf([Python(f)] + slots + rest) == [f] + fs + PythonOf(rest)
    ensures NativeOf([Python(f)] + slots + rest) == NativeOf(rest)
  {
    hide PythonOf, NativeOf;
    PythonFirst(f, slots + rest);
    ConcatAssociates([Python(f)], slots, rest);
    ConcatAssociates([f], fs, PythonOf(rest));
  }

  lemma {:induction false} PythonsOnly(fs: seq<Frame>, rest: seq<Slot>)
    ensures PythonOf(Pythons(fs) + rest) == fs + PythonOf(rest)
    ensures NativeOf(Pythons(fs) + rest) == NativeOf(rest)
  {
    hide PythonOf, NativeOf;
    if fs == [] {
      assert Pythons(fs) + rest == rest;
    } else {
      PythonsOnly(fs[1..], rest);
      OneMorePython(fs[0], fs[1..], Pythons(fs[1..]), rest);
      assert fs == [fs[0]] + fs[1..];
    }
  }

  lemma {:induction false} WeaveConserves(c: Config, native: seq<Frame>, segments: seq<seq<Frame>>)
    ensures PythonOf(Weave(c, native, segments)) == AllOf(segments)
    ensures NativeOf(Weave(c, native, segments)) == WithoutEvals(c, native, |segments|)
  {
    if native == [] {
      assert Pythons(AllOf(segments)) + [] == Pythons(AllOf(segments));
      PythonsOnly(AllOf(segments), []);
    } else if c.IsEval(native[0]) && segments != [] {
      WeaveConserves(c, native[1..], segments[1..]);
      PythonsOnly(segments[0], Weave(c, native[1..], segments[1..]));
    } else {
      WeaveConserves(c, native[1..], segments);
    }
  }

  lemma {:induction false} OfConcat(a: seq<Slot>, b: seq<Slot>)
    ensures PythonOf(a + b) == PythonOf(a) + PythonOf(b)
    ensures NativeOf(a + b) == NativeOf(a) + NativeOf(b)
  {
    if a == [] {
      assert a + b == b;
    } else {
      var s := a[0];
      assert (a + b)[1..] == a[1..] + b;
      OfConcat(a[1..], b);
      ConcatAssociates(if s.Python? then [s.frame] else [], PythonOf(a[1..]), PythonOf(b));
      ConcatAssociates(if s.Native? then [s.frame] else [], NativeOf(a[1..]), NativeOf(b));
    }
  }

  lemma {:induction false} OfReverse(slots: seq<Slot>)
    ensures PythonOf(Reverse(slots)) == Reverse(PythonOf(slots))
    ensures NativeOf(Reverse(slots)) == Reverse(NativeOf(slots))
  {
    if slots == [] {
    } else {
      var s := slots[0];
      OfReverse(slots[1..]);
      OfConcat(Reverse(slots[1..]), [s]);
      ReverseConcat(if s.Python? then [s.frame] else [], PythonOf(slots[1..]));
      ReverseConcat(if s.Native? then [s.frame] else [], NativeOf(slots[1..]));
    }
  }

  /**
   The Python frames of the result are the whole Python stack in its order; the native frames are the native
   stack without its first two frames and without as many evaluators, outermost first, as there are segments.
   */
  lemma InterleavingConserves(c: Config, python: seq<Frame>, native: seq<Frame>)
    requires |native| >= 2
    ensures PythonOf(Interleaved(c, python, native)) == python
    ensures NativeOf(Interleaved(c, python, native))
      == Reverse(WithoutEvals(c, Reverse(native[2..]), |Segments(c, Reverse(python))|))
  {
    var segments := Segments(c, Reverse(python));
    WeaveConserves(c, Reverse(native[2..]), segments);
    AllOfSegments(c, Reverse(python));
    OfReverse(Weave(c, Reverse(native[2..]), segments));
    ReverseTwice(python);
  }

  function Entries(fs: seq<Frame>): nat {
    if fs == [] then 0 else Entry(fs[0]) + Entries(fs[1..])
  }

  lemma {:induction false} SegmentLengthStops(python: seq<Frame>, entries: nat)
    requires entries <= 1
    ensures var n := SegmentLength(python, entries);
            && entries + Entries(python[..n]) <= 1
            && (n < |python| ==> python[n].isEntry && entries + Entries(python[..n]) == 1)
  {
    if python == [] || entries + Entry(python[0]) >= 2 {
    } else {
      var n := SegmentLength(python, entries);
      SegmentLengthStops(python[1..], entries + Entry(python[0]));
      assert python[..n][1..] == python[1..][..n - 1];
    }
  }

  /**
   Every segment has frames, and at most one entry frame; every segment but the last has exactly one
   (3.11 and later), and the next one starts with an entry frame.  Before 3.11 every segment is one frame.
   */
  lemma {:induction false} SegmentsHaveOneEntry(c: Config, python: seq<Frame>, i: nat)
    requires i < |Segments(c, python)|
    ensures var segments := Segments(c, python);
            && segments[i] != [] && Entries(segments[i]) <= 1
            && (c.segmented && i + 1 < |segments| ==>
                  Entries(segments[i]) == 1 && segments[i + 1] != [] && segments[i + 1][0].isEntry)
            && (!c.segmented ==> |segments[i]| == 1)
    decreases |python|
  {
    var n := FirstSegment(c, python);
    var rest := python[n..];
    SegmentLengthStops(python, 0);
    if i > 0 {
      SegmentsHaveOneEntry(c, rest, i - 1);
    } else if rest != [] {
      assert Segments(c, python)[1] == rest[..FirstSegment(c, rest)];
    }
    if !c.segmented {
      assert Entries(python[..1]) == Entry(python[0]);
    }
  }

  // ---------------------------------------------------------------------
  // Which native frames give way, and to what

  /** The name stands in this one, between `a` and `b`. */
  predicate StandsBetween(name: string, a: string, b: string) {
    name == a + "PyEval_EvalFrameDefault" + b
  }

  lemma {:induction false} FoundBetween(name: string) returns (a: string, b: string)
    requires Contains(name, EVAL)
    ensures StandsBetween(name, a, b)
  {
    if EVAL <= name {
      a, b := "", name[|EVAL|..];
    } else {
      a, b := FoundBetween(name[1..]);
      PrependOne(name, a, b);
      a := name[..1] + a;
    }
  }

  lemma PrependOne(name: string, a: string, b: string)
    requires name != [] && StandsBetween(name[1..], a, b)
    ensures StandsBetween(name, name[..1] + a, b)
  {
    assert name == name[..1] + name[1..];
  }

  lemma {:induction false} BetweenIsFound(name: string, a: string, b: string)
    requires StandsBetween(name, a, b)
    ensures Contains(name, EVAL)
    decreases a
  {
    if a == [] {
      assert name == EVAL + b;
    } else {
      assert name[1..] == a[1..] + EVAL + b;
      BetweenIsFound(name[1..], a[1..], b);
    }
  }

  /** The evaluator is any function that has this in its name, wherever it stands there. */
  lemma IsEvalIff(c: Config, f: Frame)
    ensures c.IsEval(f) <==> f.name in c.names && exists a, b :: StandsBetween(c.names[f.name], a, b)
  {
    hide Contains, StandsBetween;
    if f.name in c.names {
      if c.IsEval(f) {
        var a, b := FoundBetween(c.names[f.name]);
      }
      if a, b :| StandsBetween(c.names[f.name], a, b) {
        BetweenIsFound(c.names[f.name], a, b);
      }
    }
  }

  /** The number of evaluators. */
  function Evals(c: Config, native: seq<Frame>): nat {
    if native == [] then 0 else (if c.IsEval(native[0]) then 1 else 0) + Evals(c, native[1..])
  }

  /** The native frame at `i` gives way: it is an evaluator, and a segment is left for it. */
  predicate GivesWay(c: Config, native: seq<Frame>, segments: seq<seq<Frame>>, i: nat)
    requires i < |native|
  {
    c.IsEval(native[i]) && Evals(c, native[..i]) < |segments|
  }

  /** What stands for it. */
  function StandsFor(c: Config, native: seq<Frame>, segments: seq<seq<Frame>>, i: nat): seq<Slot>
    requires i < |native|
  {
    if GivesWay(c, native, segments, i) then Pythons(segments[Evals(c, native[..i])]) else [Native(native[i])]
  }

  /** The segments of the first `n` evaluators. */
  function Given(segments: seq<seq<Frame>>, n: nat): seq<seq<Frame>> {
    if n < |segments| then segments[..n] else segments
  }

  lemma GivenNext(segments: seq<seq<Frame>>, n: nat)
    requires segments != []
    ensures AllOf(Given(segments, n + 1)) == segments[0] + AllOf(Given(segments[1..], n))
  {
    assert Given(segments, n + 1)[1..] == Given(segments[1..], n);
  }

  lemma NothingOutside(c: Config, segments: seq<seq<Frame>>)
    ensures PythonOf([]) == AllOf(Given(segments, 0)) == [] && NativeOf([]) == WithoutEvals(c, [], |segments|) == []
  {
  }

  lemma NativeFirst(f: Frame, more: seq<Slot>)
    ensures PythonOf([Native(f)] + more) == PythonOf(more)
    ensures NativeOf([Native(f)] + more) == [f] + NativeOf(more)
  {
    assert ([Native(f)] + more)[1..] == more;
  }

  /** What the outermost native frame changes for one further in. */
  lemma OneFurtherIn(c: Config, native: seq<Frame>, segments: seq<seq<Frame>>, i: nat)
    requires 0 < i < |native|
    ensures var native', isEval := native[1..], c.IsEval(native[0]);
            var segments' := if isEval && segments != [] then segments[1..] else segments;
            && Evals(c, native[..i]) == (if isEval then 1 else 0) + Evals(c, native'[..i - 1])
            && StandsFor(c, native, segments, i) == StandsFor(c, native', segments', i - 1)
            && WithoutEvals(c, native[..i], |segments|)
                 == (if isEval && segments != [] then [] else [native[0]])
                      + WithoutEvals(c, native'[..i - 1], |segments'|)
  {
    hide Pythons, Contains;
    assert native[..i][1..] == native[1..][..i - 1];
  }

  /**
   Outside a native frame, or what stands for it, are the segments of the evaluators outside it, and the native frames
   outside it that do not give way.
   */
  lemma {:induction false} WeaveSplits(c: Config, native: seq<Frame>, segments: seq<seq<Frame>>, i: nat)
    returns (outer: seq<Slot>, inner: seq<Slot>)
    requires i < |native|
    ensures Weave(c, native, segments) == outer + StandsFor(c, native, segments, i) + inner
    ensures PythonOf(outer) == AllOf(Given(segments, Evals(c, native[..i])))
    ensures NativeOf(outer) == WithoutEvals(c, native[..i], |segments|)
    decreases i
  {
    hide Pythons, PythonOf, NativeOf, AllOf, Contains, StandsFor, WithoutEvals, Given;
    if i == 0 {
      outer, inner := FirstStandsFor(c, native, segments);
    } else {
      OneFurtherIn(c, native, segments, i);
      var stands := StandsFor(c, native, segments, i);
      if c.IsEval(native[0]) && segments != [] {
        outer, inner := WeaveSplits(c, native[1..], segments[1..], i - 1);
        PythonsOnly(segments[0], outer);
        GivenNext(segments, Evals(c, native[1..][..i - 1]));
        ConcatAssociates(Pythons(segments[0]), outer + stands, inner);
        ConcatAssociates(Pythons(segments[0]), outer, stands);
        outer := Pythons(segments[0]) + outer;
      } else {
        outer, inner := WeaveSplits(c, native[1..], segments, i - 1);
        NativeFirst(native[0], outer);
        NoneLeft(segments, Evals(c, native[..i]), Evals(c, native[1..][..i - 1]));
        ConcatAssociates([Native(native[0])], outer + stands, inner);
        ConcatAssociates([Native(native[0])], outer, stands);
        outer := [Native(native[0])] + outer;
      }
    }
  }

  lemma NoneLeft(segments: seq<seq<Frame>>, m: nat, n: nat)
    ensures segments == [] || m == n ==> Given(segments, m) == Given(segments, n)
  {
  }

  lemma FirstStandsFor(c: Config, native: seq<Frame>, segments: seq<seq<Frame>>)
    returns (outer: seq<Slot>, inner: seq<Slot>)
    requires native != []
    ensures Weave(c, native, segments) == outer + StandsFor(c, native, segments, 0) + inner
    ensures PythonOf(outer) == AllOf(Given(segments, Evals(c, native[..0])))
    ensures NativeOf(outer) == WithoutEvals(c, native[..0], |segments|)
  {
    hide Contains;
    assert native[..0] == [];
    NothingOutside(c, segments);
    outer := [];
    inner := if c.IsEval(native[0]) && segments != [] then Weave(c, native[1..], segments[1..])
             else Weave(c, native[1..], segments);
    assert [] + StandsFor(c, native, segments, 0) == StandsFor(c, native, segments, 0);
  }

  lemma {:induction false} EvalsOfConcat(c: Config, a: seq<Frame>, b: seq<Frame>)
    ensures Evals(c, a + b) == Evals(c, a) + Evals(c, b)
  {
    if a == [] {
      assert a + b == b;
    } else {
      assert (a + b)[1..] == a[1..] + b;
      EvalsOfConcat(c, a[1..], b);
    }
  }

  lemma {:induction false} EvalsOfReverse(c: Config, native: seq<Frame>)
    ensures Evals(c, Reverse(native)) == Evals(c, native)
  {
    if native != [] {
      EvalsOfReverse(c, native[1..]);
      EvalsOfConcat(c, Reverse(native[1..]), [native[0]]);
    }
  }

  lemma {:induction false} PythonsOfReverse(fs: seq<Frame>)
    ensures Reverse(Pythons(fs)) == Pythons(Reverse(fs))
  {
    if fs != [] {
      PythonsOfReverse(fs[1..]);
      ReverseCons(Python(fs[0]), Pythons(fs[1..]));
      PythonsAppend(Reverse(fs[1..]), fs[0]);
    }
  }

  lemma ReverseOfRest(native: seq<Frame>, j: nat)
    requires 2 <= j < |native|
    ensures var ahead, i := Reverse(native[2..]), |native| - 1 - j;
            ahead[i] == native[j] && ahead[..i] == Reverse(native[j + 1..])
  {
    var ahead, i := Reverse(native[2..]), |native| - 1 - j;
    ReverseAt(native[2..], i);
    assert native[2..] == native[2..j + 1] + native[j + 1..];
    ReverseConcat(native[2..j + 1], native[j + 1..]);
  }

  /**
   Where everything is: a native frame stays in its place unless it is an evaluator with a segment left for it, and
   then that segment is in its place.  Around it, the Python stack is cut in two: outside it are exactly the segments
   of the evaluators outside it.
   */
  lemma EveryFrameInPlace(c: Config, python: seq<Frame>, native: seq<Frame>, j: nat)
    returns (inner: seq<Slot>, outer: seq<Slot>)
    requires 2 <= j < |native|
    ensures var segments, n := Segments(c, Reverse(python)), Evals(c, native[j + 1..]);
            var giveWay := c.IsEval(native[j]) && n < |segments|;
            && Interleaved(c, python, native)
                 == inner + (if giveWay then Pythons(Reverse(segments[n])) else [Native(native[j])]) + outer
            && PythonOf(outer) == Reverse(AllOf(Given(segments, n)))
            && PythonOf(inner) + (if giveWay then Reverse(segments[n]) else []) + PythonOf(outer) == python
  {
    hide Weave, Segments, Evals, PythonOf, NativeOf, AllOf, Given, Contains, Pythons, Reverse, WithoutEvals;
    var segments, n := Segments(c, Reverse(python)), Evals(c, native[j + 1..]);
    var ahead, i := Reverse(native[2..]), |native| - 1 - j;
    ReverseOfRest(native, j);
    EvalsOfReverse(c, native[j + 1..]);
    var o, inn := WeaveSplits(c, ahead, segments, i);
    var stands := StandsFor(c, ahead, segments, i);
    inner, outer := Reverse(inn), Reverse(o);
    ReverseConcat(o + stands, inn);
    ReverseConcat(o, stands);
    ConcatAssociates(inner, Reverse(stands), outer);
    OfReverse(o);
    InterleavingConserves(c, python, native);
    OfConcat(inner + Reverse(stands), outer);
    OfConcat(inner, Reverse(stands));
    if GivesWay(c, ahead, segments, i) {
      PythonsOfReverse(segments[n]);
      PythonsAlone(Reverse(segments[n]));
    } else {
      ReverseOne(Native(native[j]));
    }
  }

  lemma PythonsAlone(fs: seq<Frame>)
    ensures PythonOf(Pythons(fs)) == fs
  {
    PythonsOnly(fs, []);
    assert Pythons(fs) + [] == Pythons(fs);
  }

  lemma ReverseOne(slot: Slot)
    ensures Reverse([slot]) == [slot]
    ensures slot.Native? ==> PythonOf([slot]) == []
  {
  }
}
