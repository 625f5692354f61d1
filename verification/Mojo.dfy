/**
 The MOJO output stream (echion/render.h:158-363, echion/mojo.h): how events are
 printed, and a decoder that reads them back.
 */
module Mojo {
  import opened Bytes
  import F = Frames
  import opened Seqs
  import opened Wrappers

  const MOJO_VERSION: nat := 3

  const TWO63: int := 0x8000_0000_0000_0000
  const TWO64: int := 0x1_0000_0000_0000_0000

  type Text = seq<byte>

  datatype Event =
    | Metadata(key: Text, value: Text)
    | Stack(pid: int, iid: int, threadName: Text)
    | FrameDef(frame: int, filename: int, name: int, line: int, lineEnd: int, column: int, columnEnd: int)
    | FrameInvalid
    | FrameRef(frame: int)
    | FrameKernel(scope: Text)
    | MetricTime(time: int)
    | MetricMemory(bytes: int)
    | StringDef(str: int, text: Text)
    | StringRef(str: int)

  // ---------------------------------------------------------------------
  // Printing, as functions

  /** The digits of base 128 after the first byte. */
  function Tail(n: nat): seq<byte> {
    if n == 0 then []
    else [n % 128 + if n / 128 != 0 then 128 else 0] + Tail(n / 128)
  }

  function Magnitude(n: int): nat {
    if n < 0 then -n else n
  }

  /** The first byte holds 6 bits and the sign, the others 7 bits each; the high bit says that more follow. */
  function Integer(n: int): (r: seq<byte>)
    ensures r != []
  {
    var m := Magnitude(n);
    [m % 64 + (if n < 0 then 64 else 0) + (if m / 64 != 0 then 128 else 0)] + Tail(m / 64)
  }

  /** An unsigned 64-bit value passed as a signed one. */
  function AsInt64(n: int): int {
    if n < TWO63 then n else n - TWO64
  }

  function Ref(n: int): seq<byte> {
    Integer(AsInt64(n))
  }

  function String(text: Text): seq<byte> {
    text + [0]
  }

  function Integers(ns: seq<int>): seq<byte> {
    if ns == [] then [] else Integer(ns[0]) + Integers(ns[1..])
  }

  function Strings(ts: seq<Text>): seq<byte> {
    if ts == [] then [] else String(ts[0]) + Strings(ts[1..])
  }

  /** The code of an event, its integers and its strings; a reference to frame 0 is the invalid frame. */
  function Layout(e: Event): (byte, seq<int>, seq<Text>) {
    match e
    case Metadata(key, value) => (1, [], [key, value])
    case Stack(pid, iid, threadName) => (2, [pid, iid], [threadName])
    case FrameDef(frame, filename, name, line, lineEnd, column, columnEnd) =>
      (3, [AsInt64(frame), AsInt64(filename), AsInt64(name), line, lineEnd, column, columnEnd], [])
    case FrameInvalid => (4, [], [])
    case FrameRef(frame) => if frame == 0 then (4, [], []) else (5, [AsInt64(frame)], [])
    case FrameKernel(scope) => (6, [], [scope])
    case MetricTime(time) => (9, [time], [])
    case MetricMemory(bytes) => (10, [bytes], [])
    case StringDef(str, text) => (11, [AsInt64(str)], [text])
    case StringRef(str) => (12, [AsInt64(str)], [])
  }

  /** The bytes of an event. */
  function Print(e: Event): (r: seq<byte>)
    ensures r != []
  {
    var (code, ns, ts) := Layout(e);
    [code] + Integers(ns) + Strings(ts)
  }

  lemma FewFields(a: int, b: int, t: Text, u: Text)
    ensures Integers([]) == [] && Strings([]) == []
    ensures Integers([a]) == Integer(a) && Integers([a, b]) == Integer(a) + Integer(b)
    ensures Strings([t]) == String(t) && Strings([t, u]) == String(t) + String(u)
  {
    assert [a, b][1..] == [b] && [t, u][1..] == [u];
    assert [a][1..] == [] && [b][1..] == [] && [t][1..] == [] && [u][1..] == [];
  }

  lemma {:induction false} IntegersConcat(ms: seq<int>, ns: seq<int>)
    ensures Integers(ms + ns) == Integers(ms) + Integers(ns)
  {
    if ms == [] {
      assert ms + ns == ns;
    } else {
      assert (ms + ns)[1..] == ms[1..] + ns;
      IntegersConcat(ms[1..], ns);
    }
  }

  function PrintAll(es: seq<Event>): seq<byte> {
    if es == [] then [] else PrintAll(es[..|es| - 1]) + Print(es[|es| - 1])
  }

  const MAGIC: seq<byte> := [77, 79, 74]

  function Header(): seq<byte> {
    MAGIC + Integer(MOJO_VERSION)
  }

  predicate IsInt64(n: int) { -TWO63 <= n < TWO63 }
  predicate IsUInt64(n: int) { 0 <= n < TWO64 }

  // ---------------------------------------------------------------------
  // The renderer

  class MojoRenderer {
    var output: seq<byte>
    var metric: nat

    constructor ()
      ensures output == [] && metric == 0
    {
      output, metric := [], 0;
    }

    method Put(b: byte)
      modifies this`output
      ensures output == old(output) + [b]
    {
      output := output + [b];
    }

    method PutString(text: Text)
      modifies this`output
      ensures output == old(output) + String(text)
    {
      output := output + text + [0];
    }

    method PutInteger(n: int)
      requires -TWO63 <= n < TWO63
      modifies this`output
      ensures output == old(output) + Integer(n)
    {
      var integer: nat := if n < 0 then -n else n;
      var sign := n < 0;
      var b: byte := integer % 64;
      if sign {
        b := b + 64;
      }
      integer := integer / 64;
      if integer != 0 {
        b := b + 128;
      }
      Put(b);
      while integer != 0
        invariant output + Tail(integer) == old(output) + Integer(n)
      {
        b := integer % 128;
        integer := integer / 128;
        if integer != 0 {
          b := b + 128;
        }
        Put(b);
      }
    }

    method PutRef(n: int)
      requires 0 <= n < TWO64
      modifies this`output
      ensures output == old(output) + Ref(n)
    {
      PutInteger(AsInt64(n));
    }

    method WriteHeader()
      modifies this`output
      ensures output == old(output) + Header()
    {
      output := output + MAGIC;
      PutInteger(MOJO_VERSION);
    }

    method WriteMetadata(key: Text, value: Text)
      modifies this`output
      ensures output == old(output) + Print(Metadata(key, value))
    {
      FewFields(0, 0, key, value);
      Put(1);
      PutString(key);
      PutString(value);
    }

    method WriteStack(pid: int, iid: int, threadName: Text)
      requires IsInt64(pid) && IsInt64(iid)
      modifies this`output
      ensures output == old(output) + Print(Stack(pid, iid, threadName))
    {
      FewFields(pid, iid, threadName, []);
      Put(2);
      PutInteger(pid);
      PutInteger(iid);
      PutString(threadName);
    }

    method WriteFrame(frame: int, filename: int, name: int, line: int, lineEnd: int, column: int, columnEnd: int)
      requires IsUInt64(frame) && IsUInt64(filename) && IsUInt64(name)
      requires IsInt64(line) && IsInt64(lineEnd) && IsInt64(column) && IsInt64(columnEnd)
      modifies this`output
      ensures output == old(output) + Print(FrameDef(frame, filename, name, line, lineEnd, column, columnEnd))
    {
      hide AsInt64, Integer;
      ghost var keys := [AsInt64(frame), AsInt64(filename), AsInt64(name)];
      ghost var location := [line, lineEnd, column, columnEnd];
      Put(3);
      PutKeys(frame, filename, name);
      PutLocation(line, lineEnd, column, columnEnd);
      IntegersConcat(keys, location);
      assert keys + location == [AsInt64(frame), AsInt64(filename), AsInt64(name), line, lineEnd, column, columnEnd];
      assert output == old(output) + ([3] + Integers(keys + location) + []);
    }

    method PutKeys(frame: int, filename: int, name: int)
      requires IsUInt64(frame) && IsUInt64(filename) && IsUInt64(name)
      modifies this`output
      ensures output == old(output) + Integers([AsInt64(frame), AsInt64(filename), AsInt64(name)])
    {
      FewFields(AsInt64(frame), AsInt64(filename), [], []);
      FewFields(AsInt64(name), 0, [], []);
      IntegersConcat([AsInt64(frame), AsInt64(filename)], [AsInt64(name)]);
      assert [AsInt64(frame), AsInt64(filename)] + [AsInt64(name)]
        == [AsInt64(frame), AsInt64(filename), AsInt64(name)];
      PutRef(frame);
      PutRef(filename);
      PutRef(name);
    }

    method PutLocation(line: int, lineEnd: int, column: int, columnEnd: int)
      requires IsInt64(line) && IsInt64(lineEnd) && IsInt64(column) && IsInt64(columnEnd)
      modifies this`output
      ensures output == old(output) + Integers([line, lineEnd, column, columnEnd])
    {
      FewFields(line, lineEnd, [], []);
      FewFields(column, columnEnd, [], []);
      IntegersConcat([line, lineEnd], [column, columnEnd]);
      assert [line, lineEnd] + [column, columnEnd] == [line, lineEnd, column, columnEnd];
      PutInteger(line);
      PutInteger(lineEnd);
      ConcatAssociates(old(output), Integer(line), Integer(lineEnd));
      ghost var middle := output;
      PutInteger(column);
      PutInteger(columnEnd);
      ConcatAssociates(middle, Integer(column), Integer(columnEnd));
      ConcatAssociates(old(output), Integers([line, lineEnd]), Integers([column, columnEnd]));
    }

    method WriteFrameRef(frame: int)
      requires IsUInt64(frame)
      modifies this`output
      ensures output == old(output) + Print(FrameRef(frame))
    {
      FewFields(AsInt64(frame), 0, [], []);
      if frame == 0 {
        Put(4);
      } else {
        Put(5);
        PutRef(frame);
      }
    }

    method WriteFrameKernel(scope: Text)
      modifies this`output
      ensures output == old(output) + Print(FrameKernel(scope))
    {
      FewFields(0, 0, scope, []);
      Put(6);
      PutString(scope);
    }

    method WriteMetricTime(time: int)
      requires IsInt64(time)
      modifies this`output
      ensures output == old(output) + Print(MetricTime(time))
    {
      FewFields(time, 0, [], []);
      Put(9);
      PutInteger(time);
    }

    method WriteMetricMemory(bytes: int)
      requires IsInt64(bytes)
      modifies this`output
      ensures output == old(output) + Print(MetricMemory(bytes))
    {
      FewFields(bytes, 0, [], []);
      Put(10);
      PutInteger(bytes);
    }

    method WriteString(str: int, text: Text)
      requires IsUInt64(str)
      modifies this`output
      ensures output == old(output) + Print(StringDef(str, text))
    {
      FewFields(AsInt64(str), 0, text, []);
      Put(11);
      PutRef(str);
      PutString(text);
    }

    method WriteStringRef(str: int)
      requires IsUInt64(str)
      modifies this`output
      ensures output == old(output) + Print(StringRef(str))
    {
      FewFields(AsInt64(str), 0, [], []);
      Put(12);
      PutRef(str);
    }

    method RenderCpuTime(cpuTime: nat)
      modifies this`metric
      ensures metric == cpuTime
    {
      metric := cpuTime;
    }

    /**
     In CPU mode a time metric is the CPU time given last, not the wall time.  Sizes are passed as unsigned values
     and written as signed ones, so a negative size arrives as itself.
     */
    method RenderStackEnd(memory: bool, cpu: bool, delta: nat)
      requires IsUInt64(delta) && IsUInt64(metric)
      modifies this`output
      ensures output == old(output)
        + Print(if memory then MetricMemory(AsInt64(delta)) else MetricTime(AsInt64(if cpu then metric else delta)))
    {
      if !memory {
        WriteMetricTime(AsInt64(if cpu then metric else delta));
      } else {
        WriteMetricMemory(AsInt64(delta));
      }
    }

    /** FrameStack::render: the outermost frame first; from 3.12 on, entry frames are shims and left out. */
    method RenderFrames(frames: seq<F.Frame>, skipShims: bool)
      requires forall i :: 0 <= i < |frames| ==> IsUInt64(frames[i].cacheKey)
      modifies this`output
      ensures output == old(output) + PrintAll(FrameRefs(frames, skipShims, 0))
    {
      var it: nat := |frames|;
      PrintNothing();
      while it > 0
        invariant it <= |frames| && output == old(output) + PrintAll(FrameRefs(frames, skipShims, it))
      {
        it := it - 1;
        ghost var before, e := FrameRefs(frames, skipShims, it + 1), FrameRef(frames[it].cacheKey);
        if skipShims && frames[it].isEntry {
          assert before + [] == before;
          continue;
        }
        PrintOneMore(before, e);
        ConcatAssociates(old(output), PrintAll(before), Print(e));
        WriteFrameRef(frames[it].cacheKey);
      }
    }

    /** ThreadInfo::sample, as far as rendering goes; `stacks` are those of the tasks, or the thread's own. */
    method RenderSample(sample: Sample, stacks: seq<seq<F.Frame>>)
      requires sample.InRange() && IsUInt64(metric)
      requires forall i, j :: 0 <= i < |stacks| && 0 <= j < |stacks[i]| ==> IsUInt64(stacks[i][j].cacheKey)
      modifies this
      ensures output == old(output) + PrintAll(sample.Rendered(stacks))
    {
      hide PrintAll;
      PrintNothing();
      if sample.cpu {
        if !sample.running && sample.onlyRunning {
          return;
        }
        RenderCpuTime(if sample.running then sample.spent else 0);
      }
      for i := 0 to |stacks|
        invariant IsUInt64(metric) && (sample.cpu ==> metric == if sample.running then sample.spent else 0)
        invariant output == old(output) + PrintAll(sample.EventsOf(stacks, i))
      {
        RenderOneStack(sample, stacks[i]);
        PrintConcat(sample.EventsOf(stacks, i), sample.StackEvents(stacks[i]));
        ConcatAssociates(old(output), PrintAll(sample.EventsOf(stacks, i)), PrintAll(sample.StackEvents(stacks[i])));
      }
    }

    method RenderOneStack(sample: Sample, frames: seq<F.Frame>)
      requires sample.InRange() && IsUInt64(metric)
      requires sample.cpu ==> metric == if sample.running then sample.spent else 0
      requires forall i :: 0 <= i < |frames| ==> IsUInt64(frames[i].cacheKey)
      modifies this`output
      ensures output == old(output) + PrintAll(sample.StackEvents(frames))
    {
      var first, last := Stack(sample.pid, sample.iid, sample.threadName), MetricTime(AsInt64(sample.Time()));
      WriteStack(sample.pid, sample.iid, sample.threadName);
      RenderFrames(frames, sample.skipShims);
      RenderStackEnd(false, sample.cpu, sample.delta);
      PrintAround(old(output), first, FrameRefs(frames, sample.skipShims, 0), last);
    }
  }

  /** References to the frames of a stack from position `i` on, the outermost first. */
  function FrameRefs(frames: seq<F.Frame>, skipShims: bool, i: nat): seq<Event>
    requires i <= |frames|
    decreases |frames| - i
  {
    if i == |frames| then []
    else
      FrameRefs(frames, skipShims, i + 1)
        + if skipShims && frames[i].isEntry then [] else [FrameRef(frames[i].cacheKey)]
  }

  /** One sample of a thread. */
  datatype Sample = Sample(cpu: bool, onlyRunning: bool, running: bool, spent: nat, delta: nat, skipShims: bool,
                           pid: int, iid: int, threadName: Text) {
    predicate InRange() {
      IsUInt64(spent) && IsUInt64(delta) && IsInt64(pid) && IsInt64(iid)
    }

    /** A thread that does not run has nothing to show in CPU mode, unless that wants it. */
    predicate Skipped() {
      cpu && !running && onlyRunning
    }

    /** The thread's own time. */
    function Time(): nat {
      if !cpu then delta else if running then spent else 0
    }

    /** Every stack starts with the thread and ends with its time. */
    function StackEvents(frames: seq<F.Frame>): seq<Event> {
      [Stack(pid, iid, threadName)] + FrameRefs(frames, skipShims, 0) + [MetricTime(AsInt64(Time()))]
    }

    function EventsOf(stacks: seq<seq<F.Frame>>, n: nat): seq<Event>
      requires n <= |stacks|
    {
      if n == 0 then [] else EventsOf(stacks, n - 1) + StackEvents(stacks[n - 1])
    }

    /** All that a sample writes. */
    function Rendered(stacks: seq<seq<F.Frame>>): seq<Event> {
      if Skipped() then [] else EventsOf(stacks, |stacks|)
    }
  }

  /** The positions from `i` on that a stack shows. */
  function ShownFrom(frames: seq<F.Frame>, skipShims: bool, i: nat): (shown: set<nat>)
    ensures forall j :: j in shown <==> i <= j < |frames| && !(skipShims && frames[j].isEntry)
  {
    set j: nat | i <= j < |frames| && !(skipShims && frames[j].isEntry)
  }

  lemma ShownFromNext(frames: seq<F.Frame>, skipShims: bool, i: nat)
    requires i < |frames|
    ensures |ShownFrom(frames, skipShims, i)|
      == |ShownFrom(frames, skipShims, i + 1)| + if skipShims && frames[i].isEntry then 0 else 1
  {
    assert ShownFrom(frames, skipShims, i)
      == ShownFrom(frames, skipShims, i + 1) + if skipShims && frames[i].isEntry then {} else {i};
  }

  /** Every frame shown is referred to once, behind exactly those that are outside it. */
  lemma {:induction false} OutermostFirst(frames: seq<F.Frame>, skipShims: bool, i: nat, j: nat)
    requires i <= j < |frames|
    ensures var refs := FrameRefs(frames, skipShims, i);
            && |refs| == |ShownFrom(frames, skipShims, i)|
            && (!(skipShims && frames[j].isEntry) ==>
                  && |ShownFrom(frames, skipShims, j + 1)| < |refs|
                  && refs[|ShownFrom(frames, skipShims, j + 1)|] == FrameRef(frames[j].cacheKey))
    decreases |frames| - i
  {
    hide ShownFrom;
    ShownFromNext(frames, skipShims, i);
    if i + 1 < |frames| {
      OutermostFirst(frames, skipShims, i + 1, if j > i then j else i + 1);
    } else {
      NothingBeyond(frames, skipShims);
    }
  }

  lemma NothingBeyond(frames: seq<F.Frame>, skipShims: bool)
    ensures FrameRefs(frames, skipShims, |frames|) == [] && ShownFrom(frames, skipShims, |frames|) == {}
  {
  }

  /**
   An ignored idle thread renders nothing.  Otherwise every stack is there in its order: its thread, its frames and the
   time, which is the wall time or, in CPU mode, what the thread itself ran.
   */
  lemma {:induction false} EveryStackIsRendered(sample: Sample, stacks: seq<seq<F.Frame>>, n: nat, i: nat)
    returns (after: seq<Event>)
    requires i < n <= |stacks|
    ensures sample.cpu && sample.onlyRunning && !sample.running ==> sample.Rendered(stacks) == []
    ensures !(sample.cpu && sample.onlyRunning && !sample.running) ==>
              sample.Rendered(stacks) == sample.EventsOf(stacks, |stacks|)
    ensures var time := if !sample.cpu then sample.delta else if sample.running then sample.spent else 0;
            sample.EventsOf(stacks, n)
              == sample.EventsOf(stacks, i)
                   + ([Stack(sample.pid, sample.iid, sample.threadName)]
                        + FrameRefs(stacks[i], sample.skipShims, 0) + [MetricTime(AsInt64(time))])
                   + after
    decreases n
  {
    hide FrameRefs;
    if i == n - 1 {
      after := [];
    } else {
      var before := EveryStackIsRendered(sample, stacks, n - 1, i);
      after := before + sample.StackEvents(stacks[n - 1]);
    }
  }

  lemma InvalidIsRefZero()
    ensures Print(FrameRef(0)) == Print(FrameInvalid)
  {
  }

  lemma PrintNothing()
    ensures PrintAll([]) == []
  {
  }

  lemma PrintOneMore(es: seq<Event>, e: Event)
    ensures PrintAll(es + [e]) == PrintAll(es) + Print(e)
  {
    assert (es + [e])[..|es|] == es;
  }

  lemma {:induction false} PrintConcat(es: seq<Event>, fs: seq<Event>)
    ensures PrintAll(es + fs) == PrintAll(es) + PrintAll(fs)
  {
    if fs == [] {
      assert es + fs == es;
    } else {
      var init, last := fs[..|fs| - 1], fs[|fs| - 1];
      assert es + fs == es + init + [last] && fs == init + [last];
      PrintConcat(es, init);
      PrintOneMore(es + init, last);
      PrintOneMore(init, last);
      ConcatAssociates(PrintAll(es), PrintAll(init), Print(last));
    }
  }

  lemma PrintAround(before: seq<byte>, first: Event, es: seq<Event>, last: Event)
    ensures before + Print(first) + PrintAll(es) + Print(last) == before + PrintAll([first] + es + [last])
  {
    PrintOneMore([], first);
    PrintConcat([first], es);
    PrintOneMore([first] + es, last);
    assert PrintAll([first]) == Print(first);
    ConcatAssociates(before, Print(first), PrintAll(es));
    ConcatAssociates(before, Print(first) + PrintAll(es), Print(last));
  }

  /** The types of the printers' parameters. */
  predicate InRange(e: Event) {
    match e
    case Stack(pid, iid, _) => IsInt64(pid) && IsInt64(iid)
    case FrameDef(frame, filename, name, line, lineEnd, column, columnEnd) =>
      && IsUInt64(frame) && IsUInt64(filename) && IsUInt64(name)
      && IsInt64(line) && IsInt64(lineEnd) && IsInt64(column) && IsInt64(columnEnd)
    case FrameRef(frame) => IsUInt64(frame)
    case MetricTime(time) => IsInt64(time)
    case MetricMemory(bytes) => IsInt64(bytes)
    case StringDef(str, _) => IsUInt64(str)
    case StringRef(str) => IsUInt64(str)
    case _ => true
  }

  // ---------------------------------------------------------------------
  // A decoder

  /** Digits of base 128, and what follows the last. */
  function ParseTail(b: seq<byte>): (r: Option<(nat, seq<byte>)>)
    ensures r.Some? ==> |r.value.1| < |b|
  {
    if b == [] then None
    else if b[0] < 128 then Some((b[0], b[1..]))
    else
      var rest := ParseTail(b[1..]);
      if rest.None? then None else Some((b[0] - 128 + 128 * rest.value.0, rest.value.1))
  }

  function ParseInteger(b: seq<byte>): (r: Option<(int, seq<byte>)>)
    ensures r.Some? ==> |r.value.1| < |b|
  {
    if b == [] then None
    else
      var more := if b[0] < 128 then Some((0, b[1..])) else ParseTail(b[1..]);
      if more.None? then None
      else
        var magnitude := b[0] % 64 + 64 * more.value.0;
        Some((if b[0] / 64 % 2 == 1 then -magnitude else magnitude, more.value.1))
  }

  function ParseString(b: seq<byte>): (r: Option<(Text, seq<byte>)>)
    ensures r.Some? ==> |r.value.1| < |b|
  {
    if b == [] then None
    else if b[0] == 0 then Some(([], b[1..]))
    else
      var rest := ParseString(b[1..]);
      if rest.None? then None else Some(([b[0]] + rest.value.0, rest.value.1))
  }

  function ParseIntegers(b: seq<byte>, n: nat): (r: Option<(seq<int>, seq<byte>)>)
    ensures r.Some? ==> |r.value.1| <= |b| && |r.value.0| == n
    decreases n
  {
    if n == 0 then Some(([], b))
    else
      var first := ParseInteger(b);
      if first.None? then None
      else
        var rest := ParseIntegers(first.value.1, n - 1);
        if rest.None? then None else Some(([first.value.0] + rest.value.0, rest.value.1))
  }

  function ParseStrings(b: seq<byte>, n: nat): (r: Option<(seq<Text>, seq<byte>)>)
    ensures r.Some? ==> |r.value.1| <= |b| && |r.value.0| == n
    decreases n
  {
    if n == 0 then Some(([], b))
    else
      var first := ParseString(b);
      if first.None? then None
      else
        var rest := ParseStrings(first.value.1, n - 1);
        if rest.None? then None else Some(([first.value.0] + rest.value.0, rest.value.1))
  }

  /** How many integers and how many strings follow the code of an event. */
  function Shape(code: byte): Option<(nat, nat)> {
    match code
    case 1 => Some((0, 2))
    case 2 => Some((2, 1))
    case 3 => Some((7, 0))
    case 4 => Some((0, 0))
    case 5 => Some((1, 0))
    case 6 => Some((0, 1))
    case 9 => Some((1, 0))
    case 10 => Some((1, 0))
    case 11 => Some((1, 1))
    case 12 => Some((1, 0))
    case _ => None
  }

  function Build(code: byte, ns: seq<int>, ts: seq<Text>): Event
    requires Shape(code).Some? && |ns| == Shape(code).value.0 && |ts| == Shape(code).value.1
  {
    match code
    case 1 => Metadata(ts[0], ts[1])
    case 2 => Stack(ns[0], ns[1], ts[0])
    case 3 => FrameDef(ns[0], ns[1], ns[2], ns[3], ns[4], ns[5], ns[6])
    case 4 => FrameInvalid
    case 5 => FrameRef(ns[0])
    case 6 => FrameKernel(ts[0])
    case 9 => MetricTime(ns[0])
    case 10 => MetricMemory(ns[0])
    case 11 => StringDef(ns[0], ts[0])
    case _ => StringRef(ns[0])
  }

  function ParseEvent(b: seq<byte>): (r: Option<(Event, seq<byte>)>)
    ensures r.Some? ==> |r.value.1| < |b|
  {
    if b == [] || Shape(b[0]).None? then None
    else
      var ns := ParseIntegers(b[1..], Shape(b[0]).value.0);
      if ns.None? then None
      else
        var ts := ParseStrings(ns.value.1, Shape(b[0]).value.1);
        if ts.None? then None else Some((Build(b[0], ns.value.0, ts.value.0), ts.value.1))
  }

  function ParseAll(b: seq<byte>): Option<seq<Event>>
    decreases |b|
  {
    if b == [] then Some([])
    else
      var first := ParseEvent(b);
      if first.None? then None
      else
        var rest := ParseAll(first.value.1);
        if rest.None? then None else Some([first.value.0] + rest.value)
  }

  /** The events of a whole stream. */
  function ParseStream(b: seq<byte>): Option<seq<Event>> {
    if |b| < 3 || b[..3] != MAGIC then None
    else
      var version := ParseInteger(b[3..]);
      if version.None? || version.value.0 != MOJO_VERSION then None else ParseAll(version.value.1)
  }

  // ---------------------------------------------------------------------
  // Integers

  lemma {:induction false} TailReads(n: nat, rest: seq<byte>)
    requires n > 0
    ensures ParseTail(Tail(n) + rest) == Some((n, rest))
  {
    var b := Tail(n) + rest;
    assert b[1..] == Tail(n / 128) + rest;
    if n / 128 == 0 {
    } else {
      TailReads(n / 128, rest);
    }
  }

  /** Every printed integer is read back, whatever follows it. */
  lemma IntegerReads(n: int, rest: seq<byte>)
    ensures ParseInteger(Integer(n) + rest) == Some((n, rest))
  {
    var m := Magnitude(n);
    assert (Integer(n) + rest)[1..] == Tail(m / 64) + rest;
    if m / 64 != 0 {
      TailReads(m / 64, rest);
    } else {
      assert Tail(0) + rest == rest;
    }
  }

  /** A reference is read back as itself exactly when it is below 2^63. */
  lemma RefReadsIff(n: int, rest: seq<byte>)
    requires IsUInt64(n)
    ensures ParseInteger(Ref(n) + rest) == Some((n, rest)) <==> n < TWO63
  {
    IntegerReads(AsInt64(n), rest);
  }

  lemma {:induction false} TailIsShortest(b: seq<byte>)
    requires ParseTail(b).Some? && ParseTail(b).value.1 == []
    ensures |Tail(ParseTail(b).value.0)| <= |b|
  {
    if b[0] < 128 {
    } else {
      TailIsShortest(b[1..]);
    }
  }

  /** No other encoding of an integer is shorter. */
  lemma IntegerIsShortest(n: int, b: seq<byte>)
    requires ParseInteger(b) == Some((n, []))
    ensures |Integer(n)| <= |b|
  {
    if b[0] >= 128 {
      TailIsShortest(b[1..]);
    }
  }

  lemma {:induction false} TailIsBounded(n: nat, k: nat)
    requires n < Power128(k)
    ensures |Tail(n)| <= k
  {
    if n == 0 {
    } else {
      TailIsBounded(n / 128, k - 1);
    }
  }

  function Power128(k: nat): nat {
    if k == 0 then 1 else 128 * Power128(k - 1)
  }

  /** An integer of 64 bits takes at most 10 bytes. */
  lemma IntegerTakesTenBytes(n: int)
    requires IsInt64(n)
    ensures |Integer(n)| <= 10
  {
    assert Power128(9) == 0x8000_0000_0000_0000;
    TailIsBounded(Magnitude(n) / 64, 9);
  }

  // ---------------------------------------------------------------------
  // Strings

  lemma {:induction false} StringReads(text: Text, rest: seq<byte>)
    requires 0 !in text
    ensures ParseString(String(text) + rest) == Some((text, rest))
  {
    var b := String(text) + rest;
    if text == [] {
      assert b[1..] == rest;
    } else {
      assert b[1..] == String(text[1..]) + rest;
      StringReads(text[1..], rest);
      assert [text[0]] + text[1..] == text;
    }
  }

  lemma {:induction false} ParsedTextHasNoNul(b: seq<byte>)
    requires ParseString(b).Some?
    ensures 0 !in ParseString(b).value.0
  {
    if b[0] == 0 {
    } else {
      ParsedTextHasNoNul(b[1..]);
    }
  }

  /** A string is read back exactly when it has no NUL byte in it. */
  lemma StringReadsIff(text: Text, rest: seq<byte>)
    ensures ParseString(String(text) + rest) == Some((text, rest)) <==> 0 !in text
  {
    if 0 !in text {
      StringReads(text, rest);
    } else if ParseString(String(text) + rest).Some? {
      ParsedTextHasNoNul(String(text) + rest);
    }
  }

  // ---------------------------------------------------------------------
  // Events and streams

  lemma {:induction false} IntegersRead(ns: seq<int>, rest: seq<byte>)
    ensures ParseIntegers(Integers(ns) + rest, |ns|) == Some((ns, rest))
  {
    if ns == [] {
      assert Integers(ns) + rest == rest;
    } else {
      var after := Integers(ns[1..]) + rest;
      assert Integers(ns) + rest == Integer(ns[0]) + after;
      IntegerReads(ns[0], after);
      IntegersRead(ns[1..], rest);
      assert [ns[0]] + ns[1..] == ns;
    }
  }

  lemma {:induction false} StringsRead(ts: seq<Text>, rest: seq<byte>)
    requires forall i :: 0 <= i < |ts| ==> 0 !in ts[i]
    ensures ParseStrings(Strings(ts) + rest, |ts|) == Some((ts, rest))
  {
    if ts == [] {
      assert Strings(ts) + rest == rest;
    } else {
      var after := Strings(ts[1..]) + rest;
      assert Strings(ts) + rest == String(ts[0]) + after;
      StringReads(ts[0], after);
      StringsRead(ts[1..], rest);
      assert [ts[0]] + ts[1..] == ts;
    }
  }

  /** The event as it is on the wire: references are signed, and one to frame 0 is the invalid frame. */
  function OnWire(e: Event): Event {
    match e
    case FrameDef(frame, filename, name, line, lineEnd, column, columnEnd) =>
      FrameDef(AsInt64(frame), AsInt64(filename), AsInt64(name), line, lineEnd, column, columnEnd)
    case FrameRef(frame) => if frame == 0 then FrameInvalid else FrameRef(AsInt64(frame))
    case StringDef(str, text) => StringDef(AsInt64(str), text)
    case StringRef(str) => StringRef(AsInt64(str))
    case _ => e
  }

  /** The event itself, but for a reference to frame 0. */
  function ReadBack(e: Event): Event {
    if e == FrameRef(0) then FrameInvalid else e
  }

  /** No string has a NUL, at which a reader would take it to end. */
  predicate NoNul(e: Event) {
    match e
    case Metadata(key, value) => 0 !in key && 0 !in value
    case Stack(_, _, threadName) => 0 !in threadName
    case FrameKernel(scope) => 0 !in scope
    case StringDef(_, text) => 0 !in text
    case _ => true
  }

  /** References are below 2^63. */
  predicate SmallRefs(e: Event) {
    match e
    case FrameDef(frame, filename, name, _, _, _, _) => frame < TWO63 && filename < TWO63 && name < TWO63
    case FrameRef(frame) => frame < TWO63
    case StringDef(str, _) => str < TWO63
    case StringRef(str) => str < TWO63
    case _ => true
  }

  lemma SmallRefsAreKept(e: Event)
    requires InRange(e)
    ensures OnWire(e) == ReadBack(e) <==> SmallRefs(e)
  {
  }

  lemma LayoutBuilds(e: Event)
    requires InRange(e) && NoNul(e)
    ensures var (code, ns, ts) := Layout(e);
            && Shape(code) == Some((|ns|, |ts|)) && Build(code, ns, ts) == OnWire(e)
            && forall i :: 0 <= i < |ts| ==> 0 !in ts[i]
  {
  }

  lemma PartsAreBuilt(code: byte, body: seq<byte>, ns: seq<int>, ts: seq<Text>, middle: seq<byte>, rest: seq<byte>)
    requires Shape(code) == Some((|ns|, |ts|))
    requires ParseIntegers(body, |ns|) == Some((ns, middle)) && ParseStrings(middle, |ts|) == Some((ts, rest))
    ensures ParseEvent([code] + body) == Some((Build(code, ns, ts), rest))
  {
    assert ([code] + body)[1..] == body;
  }

  lemma PartsRead(code: byte, ns: seq<int>, ts: seq<Text>, rest: seq<byte>)
    requires Shape(code) == Some((|ns|, |ts|))
    requires forall i :: 0 <= i < |ts| ==> 0 !in ts[i]
    ensures ParseEvent([code] + Integers(ns) + Strings(ts) + rest) == Some((Build(code, ns, ts), rest))
  {
    var middle := Strings(ts) + rest;
    IntegersRead(ns, middle);
    StringsRead(ts, rest);
    PartsAreBuilt(code, Integers(ns) + middle, ns, ts, middle, rest);
    ConcatAssociates([code], Integers(ns), middle);
    ConcatAssociates([code] + Integers(ns), Strings(ts), rest);
  }

  /** Every event is read back as it is on the wire, whatever follows it. */
  lemma EventReads(e: Event, rest: seq<byte>)
    requires InRange(e) && NoNul(e)
    ensures ParseEvent(Print(e) + rest) == Some((OnWire(e), rest))
  {
    var (code, ns, ts) := Layout(e);
    LayoutBuilds(e);
    PartsRead(code, ns, ts, rest);
  }

  lemma {:induction false} ParsedTextsHaveNoNul(b: seq<byte>, n: nat)
    requires ParseStrings(b, n).Some?
    ensures forall i :: 0 <= i < n ==> 0 !in ParseStrings(b, n).value.0[i]
    decreases n
  {
    if n == 0 {
    } else {
      ParsedTextHasNoNul(b);
      ParsedTextsHaveNoNul(ParseString(b).value.1, n - 1);
    }
  }

  /** An event is read back exactly when its strings have no NUL and its references are below 2^63. */
  lemma EventReadsIff(e: Event, rest: seq<byte>)
    requires InRange(e)
    ensures ParseEvent(Print(e) + rest) == Some((ReadBack(e), rest)) <==> NoNul(e) && SmallRefs(e)
  {
    SmallRefsAreKept(e);
    if NoNul(e) {
      EventReads(e, rest);
    } else {
      var (code, ns, ts) := Layout(e);
      var middle := Strings(ts) + rest;
      ConcatAssociates([code], Integers(ns), middle);
      ConcatAssociates([code] + Integers(ns), Strings(ts), rest);
      IntegersRead(ns, middle);
      NulIsNotRead(e, Integers(ns) + middle, middle);
    }
  }

  lemma NulIsNotBuilt(e: Event, ts: seq<Text>)
    requires InRange(e) && !NoNul(e)
    requires |ts| == |Layout(e).2| && forall i :: 0 <= i < |ts| ==> 0 !in ts[i]
    ensures Shape(Layout(e).0) == Some((|Layout(e).1|, |ts|)) && Build(Layout(e).0, Layout(e).1, ts) != ReadBack(e)
  {
  }

  lemma NulIsNotRead(e: Event, body: seq<byte>, middle: seq<byte>)
    requires InRange(e) && !NoNul(e)
    requires ParseIntegers(body, |Layout(e).1|) == Some((Layout(e).1, middle))
    ensures ParseEvent([Layout(e).0] + body).Some? ==> ParseEvent([Layout(e).0] + body).value.0 != ReadBack(e)
  {
    var (code, ns, ts) := Layout(e);
    assert ([code] + body)[1..] == body;
    if ParseStrings(middle, |ts|).Some? {
      var ts' := ParseStrings(middle, |ts|).value.0;
      ParsedTextsHaveNoNul(middle, |ts|);
      NulIsNotBuilt(e, ts');
      PartsAreBuilt(code, body, ns, ts', middle, ParseStrings(middle, |ts|).value.1);
    }
  }

  /** Events that a renderer can be given and that end their strings where a reader does. */
  ghost predicate Writable(es: seq<Event>) {
    forall i :: 0 <= i < |es| ==> InRange(es[i]) && NoNul(es[i])
  }

  function AllOnWire(es: seq<Event>): seq<Event> {
    if es == [] then [] else AllOnWire(es[..|es| - 1]) + [OnWire(es[|es| - 1])]
  }

  lemma ParseAllStep(e: Event, more: seq<byte>, es: seq<Event>)
    requires InRange(e) && NoNul(e) && ParseAll(more) == Some(es)
    ensures ParseAll(Print(e) + more) == Some([OnWire(e)] + es)
  {
    EventReads(e, more);
  }

  lemma {:induction false} EventsRead(es: seq<Event>, more: seq<byte>, after: seq<Event>)
    requires Writable(es) && ParseAll(more) == Some(after)
    ensures ParseAll(PrintAll(es) + more) == Some(AllOnWire(es) + after)
  {
    if es == [] {
      assert PrintAll(es) + more == more && AllOnWire(es) + after == after;
    } else {
      var init, last := es[..|es| - 1], es[|es| - 1];
      ParseAllStep(last, more, after);
      EventsRead(init, Print(last) + more, [OnWire(last)] + after);
      ConcatAssociates(PrintAll(init), Print(last), more);
      ConcatAssociates(AllOnWire(init), [OnWire(last)], after);
    }
  }

  lemma AfterMagic(b: seq<byte>)
    ensures (MAGIC + b)[..3] == MAGIC && (MAGIC + b)[3..] == b
  {
  }

  lemma HeaderReads(more: seq<byte>, es: seq<Event>)
    requires ParseAll(more) == Some(es)
    ensures ParseStream(Header() + more) == Some(es)
  {
    IntegerReads(MOJO_VERSION, more);
    ConcatAssociates(MAGIC, Integer(MOJO_VERSION), more);
    AfterMagic(Integer(MOJO_VERSION) + more);
  }

  /** Printing a stream and parsing it gives the events back as they are on the wire. */
  lemma StreamReads(es: seq<Event>)
    requires Writable(es)
    ensures ParseStream(Header() + PrintAll(es)) == Some(AllOnWire(es))
  {
    EventsRead(es, [], []);
    assert PrintAll(es) + [] == PrintAll(es) && AllOnWire(es) + [] == AllOnWire(es);
    HeaderReads(PrintAll(es), AllOnWire(es));
  }

  lemma {:induction false} AllOnWireLength(es: seq<Event>)
    ensures |AllOnWire(es)| == |es|
  {
    if es == [] {
    } else {
      AllOnWireLength(es[..|es| - 1]);
    }
  }

  /** The wire form of the events before some point is the wire form of all of them up to there. */
  lemma {:induction false} OnWireAt(es: seq<Event>, i: nat)
    requires i < |es|
    ensures |AllOnWire(es)| == |es|
    ensures AllOnWire(es)[i] == OnWire(es[i]) && AllOnWire(es)[..i] == AllOnWire(es[..i])
  {
    var n := |es| - 1;
    AllOnWireLength(es);
    AllOnWireLength(es[..n]);
    if i == n {
    } else {
      OnWireAt(es[..n], i);
      assert es[..n][..i] == es[..i];
    }
  }

  /** No two references are the same on the wire. */
  lemma OnWireIsInjective(e: Event, f: Event)
    requires InRange(e) && InRange(f) && OnWire(e) == OnWire(f)
    ensures ReadBack(e) == ReadBack(f)
  {
  }

  /** Decoding is unique: streams of the same bytes are of the same events, but for references to frame 0. */
  lemma StreamIsUnique(es: seq<Event>, fs: seq<Event>)
    requires Writable(es) && Writable(fs)
    requires Header() + PrintAll(es) == Header() + PrintAll(fs)
    ensures |es| == |fs| && forall i :: 0 <= i < |es| ==> ReadBack(es[i]) == ReadBack(fs[i])
  {
    hide AllOnWire, OnWire, ReadBack, PrintAll, ParseStream;
    StreamReads(es);
    StreamReads(fs);
    AllOnWireLength(es);
    AllOnWireLength(fs);
    forall i | 0 <= i < |es|
      ensures ReadBack(es[i]) == ReadBack(fs[i])
    {
      OnWireAt(es, i);
      OnWireAt(fs, i);
      OnWireIsInjective(es[i], fs[i]);
    }
  }
}
