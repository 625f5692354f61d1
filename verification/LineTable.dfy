/**
 The three line-table decoders of Frame::infer_location (echion/frame.cc:8-29, 127-259),
 against encoders for CPython's formats: co_lnotab (up to 3.9), the 3.10 line table
 (PEP 626) and the location table of 3.11 and later (PEP 657).

 The tail of the function overwrites the columns, so only the line is modelled.
 */
module LineTable {
  import opened Wrappers
  import opened Bytes
  import opened Seqs

  // ---------------------------------------------------------------------
  // Decoders, as functions of the bytes that are left; lines do not wrap here

  function LnotabLine(rest: seq<byte>, bc: int, lineno: int, lasti: int): int {
    if |rest| < 2 || bc + rest[0] > lasti then lineno
    else LnotabLine(rest[2..], bc + rest[0], lineno + Signed(rest[1]), lasti)
  }

  function LinetableLine(rest: seq<byte>, bc: int, lineno: int, lasti: int): int {
    if |rest| < 2 || rest[0] == 0xff then lineno
    else
      var lineno' := if rest[1] == 0x80 then lineno else lineno + Signed(rest[1]);
      if bc + rest[0] > lasti then lineno'
      else LinetableLine(rest[2..], bc + rest[0], lineno', lasti)
  }

  // ---------------------------------------------------------------------
  // Both of these take a byte after every one that starts a pair, and there is none after the last of an odd number

  /** Every byte taken is one of those left. */
  predicate LnotabInside(rest: seq<byte>, bc: int, lasti: int) {
    rest == [] || bc + rest[0] > lasti || (|rest| >= 2 && LnotabInside(rest[2..], bc + rest[0], lasti))
  }

  predicate LinetableInside(rest: seq<byte>, bc: int, lasti: int) {
    || rest == [] || rest[0] == 0xff
    || (|rest| >= 2 && (bc + rest[0] > lasti || LinetableInside(rest[2..], bc + rest[0], lasti)))
  }

  /** The sum of the first bytes of the pairs. */
  function PairedCode(rest: seq<byte>): nat {
    if |rest| < 2 then 0 else rest[0] + PairedCode(rest[2..])
  }

  /** Some pair, or the byte left over, starts with 0xff. */
  predicate HasEnd(rest: seq<byte>) {
    exists k :: 0 <= k < |rest| && k % 2 == 0 && rest[k] == 0xff
  }

  lemma NextPairHasEnd(rest: seq<byte>)
    requires |rest| >= 2 && rest[0] != 0xff
    ensures HasEnd(rest) <==> HasEnd(rest[2..])
  {
    var rest' := rest[2..];
    if HasEnd(rest) {
      var k :| 0 <= k < |rest| && k % 2 == 0 && rest[k] == 0xff;
      assert rest'[k - 2] == 0xff;
    }
    if HasEnd(rest') {
      var k :| 0 <= k < |rest'| && k % 2 == 0 && rest'[k] == 0xff;
      assert rest[k + 2] == 0xff;
    }
  }

  /** The older decoder stays inside a table iff its bytes are even in number or its code goes beyond the offset. */
  lemma {:induction false} LnotabInsideIff(rest: seq<byte>, bc: int, lasti: int)
    ensures LnotabInside(rest, bc, lasti)
      <==> |rest| % 2 == 0 || bc + PairedCode(rest) + rest[|rest| - 1] > lasti
  {
    if |rest| >= 2 {
      LnotabInsideIff(rest[2..], bc + rest[0], lasti);
    }
  }

  /**
   The 3.10 one stays inside iff they are even in number, the code of the whole pairs, if there is one, goes beyond
   the offset, or an end mark stands where a pair starts.
   */
  lemma {:induction false} LinetableInsideIff(rest: seq<byte>, bc: int, lasti: int)
    ensures LinetableInside(rest, bc, lasti)
      <==> |rest| % 2 == 0 || (|rest| > 1 && bc + PairedCode(rest) > lasti) || HasEnd(rest)
  {
    if rest == [] {
    } else if rest[0] == 0xff {
      assert HasEnd(rest);
    } else if |rest| >= 2 {
      NextPairHasEnd(rest);
      LinetableInsideIff(rest[2..], bc + rest[0], lasti);
    }
  }

  // ---------------------------------------------------------------------
  // The parts of the location table

  /** A varint whose first byte is `rest[0]`; what follows it. */
  function VarintBytes(rest: seq<byte>): (r: (nat, seq<byte>))
    requires rest != []
    ensures |r.1| < |rest|
  {
    if rest[0] / 64 % 2 == 1 && |rest| > 1 then
      var (value, after) := VarintBytes(rest[1..]);
      (rest[0] % 64 + 64 * value, after)
    else
      (rest[0] % 64, rest[1..])
  }

  /** It is read into an int. */
  function ReadVarint(rest: seq<byte>): (r: (int, seq<byte>))
    ensures |r.1| <= |rest|
  {
    if rest == [] then (0, rest) else (Int32(VarintBytes(rest).0), VarintBytes(rest).1)
  }

  /** The low bit is the sign; the others are shifted down, which rounds down a negative int. */
  function FromZigZag(n: int): int {
    if n % 2 == 1 then -(n / 2) else n / 2
  }

  function ReadSignedVarint(rest: seq<byte>): (r: (int, seq<byte>))
    ensures |r.1| <= |rest|
  {
    var (value, after) := ReadVarint(rest);
    (FromZigZag(value), after)
  }

  /** One entry of the location table: the line it leaves and the bytes after it. */
  function LocationEntry(rest: seq<byte>, lineno: int): (r: Option<(int, seq<byte>)>)
    requires rest != []
    ensures r.Some? ==> |r.value.1| < |rest|
  {
    var code := rest[0] / 8 % 16;
    if code == 15 then Some((lineno, rest[1..]))
    else if code == 14 then
      var (delta, r1) := ReadSignedVarint(rest[1..]);
      var (endDelta, r2) := ReadVarint(r1);
      var (column, r3) := ReadVarint(r2);
      var (endColumn, r4) := ReadVarint(r3);
      Some((lineno + delta, r4))
    else if code == 13 then
      var (delta, r1) := ReadSignedVarint(rest[1..]);
      Some((lineno + delta, r1))
    else if code >= 10 then
      if |rest| <= 2 then None else Some((lineno + code - 10, rest[3..]))
    else
      if |rest| <= 1 then None else Some((lineno, rest[2..]))
  }

  function LocationLine(rest: seq<byte>, bc: int, lineno: int, lasti: int): Option<int>
    decreases |rest|
  {
    if rest == [] then Some(lineno)
    else
      var bc' := bc + rest[0] % 8 + 1;
      var entry := LocationEntry(rest, lineno);
      if entry.None? then None
      else if bc' > lasti then Some(entry.value.0)
      else LocationLine(entry.value.1, bc', entry.value.0, lasti)
  }

  // ---------------------------------------------------------------------
  // The decoders themselves

  method InferLnotab(table: seq<byte>, firstLine: int, lasti: int) returns (line: int)
    requires LnotabInside(table, 0, lasti)
    ensures line == ToInt32(U32(LnotabLine(table, 0, firstLine, lasti)))
  {
    hide U32, ToInt32;
    var lineno := U32(firstLine);
    ghost var exact := firstLine;
    var i, bc := 0, 0;
    assert table[0..] == table;
    while i < |table|
      invariant 0 <= i <= |table| && lineno == U32(exact) && LnotabInside(table[i..], bc, lasti)
      invariant LnotabLine(table, 0, firstLine, lasti) == LnotabLine(table[i..], bc, exact, lasti)
    {
      ghost var rest := table[i..];
      bc := bc + table[i];
      i := i + 1;
      if bc > lasti {
        break;
      }
      assert rest[1] == table[i] && rest[2..] == table[i + 1..];
      if table[i] >= 0x80 {
        lineno := U32(lineno - 0x100);
        U32Adds(exact, -0x100);
        exact := exact - 0x100;
      }
      lineno := U32(lineno + table[i]);
      U32Adds(exact, table[i]);
      exact := exact + table[i];
      i := i + 1;
    }
    line := ToInt32(lineno);
  }

  method InferLinetable(table: seq<byte>, firstLine: int, lasti: int) returns (line: int)
    requires LinetableInside(table, 0, 2 * lasti)
    ensures line == ToInt32(U32(LinetableLine(table, 0, firstLine, 2 * lasti)))
  {
    hide U32, ToInt32;
    var lineno := U32(firstLine);
    ghost var exact := firstLine;
    var lasti2 := 2 * lasti;
    var i, bc := 0, 0;
    assert table[0..] == table;
    while i < |table|
      invariant 0 <= i <= |table| && lineno == U32(exact) && LinetableInside(table[i..], bc, lasti2)
      invariant LinetableLine(table, 0, firstLine, lasti2) == LinetableLine(table[i..], bc, exact, lasti2)
    {
      ghost var rest := table[i..];
      var sdelta := table[i];
      i := i + 1;
      if sdelta == 0xff {
        break;
      }
      bc := bc + sdelta;
      assert rest[1] == table[i] && rest[2..] == table[i + 1..];
      var ldelta: int := table[i];
      if ldelta == 0x80 {
        ldelta := 0;
      } else if ldelta > 0x80 {
        lineno := U32(lineno - 0x100);
        U32Adds(exact, -0x100);
        exact := exact - 0x100;
      }
      lineno := U32(lineno + ldelta);
      U32Adds(exact, ldelta);
      exact := exact + ldelta;
      if bc > lasti2 {
        break;
      }
      i := i + 1;
    }
    line := ToInt32(lineno);
  }

  /** _read_varint: `i` is the position last read; no read is past the end, whatever the bytes. */
  method ReadVarintAt(table: seq<byte>, start: nat) returns (val: int, i: nat)
    requires start < |table|
    ensures start <= i < |table|
    ensures (val, table[i + 1..]) == ReadVarint(table[start + 1..])
  {
    hide VarintBytes, VarintSoFar, Int32;
    var guard := |table| - 1;
    i := start;
    if i >= guard {
      return 0, i;
    }
    i := i + 1;
    val := table[i] % 64;
    var unit: nat := 1;
    ghost var exact: nat := table[i] % 64;
    ghost var read := VarintBytes(table[i..]);
    VarintStarts(table, i);
    while table[i] / 64 % 2 == 1 && i < guard
      invariant start < i < |table|
      invariant VarintSoFar(table, i, unit, exact, read) && val == Int32(exact)
      decreases |table| - i
    {
      VarintNext(table, i, unit, exact, read);
      unit := unit * 64;
      i := i + 1;
      var digit: nat := table[i] % 64;
      val := Int32(val + digit * unit);
      Int32Adds(exact, digit * unit);
      exact := exact + digit * unit;
    }
    VarintDone(table, i, unit, exact, read);
  }

  /** What is read in the end, given what has been read up to `i` with `unit` the weight of its digit. */
  ghost predicate VarintSoFar(table: seq<byte>, i: nat, unit: int, val: int, read: (nat, seq<byte>))
    requires i < |table|
  {
    && read.0 == val + unit * (VarintBytes(table[i..]).0 - table[i] % 64)
    && read.1 == VarintBytes(table[i..]).1
  }

  lemma VarintStarts(table: seq<byte>, i: nat)
    requires i < |table|
    ensures VarintSoFar(table, i, 1, table[i] % 64, VarintBytes(table[i..])) && Int32(table[i] % 64) == table[i] % 64
  {
  }

  lemma VarintNext(table: seq<byte>, i: nat, unit: int, val: int, read: (nat, seq<byte>))
    requires i + 1 < |table| && table[i] / 64 % 2 == 1 && VarintSoFar(table, i, unit, val, read)
    ensures VarintSoFar(table, i + 1, unit * 64, val + table[i + 1] % 64 * (unit * 64), read)
  {
    assert table[i..][1..] == table[i + 1..];
    var value, digit := VarintBytes(table[i + 1..]).0, table[i + 1] % 64;
    assert VarintBytes(table[i..]).0 - table[i] % 64 == 64 * value;
    assert unit * (64 * value) == digit * (unit * 64) + unit * 64 * (value - digit);
  }

  lemma VarintDone(table: seq<byte>, i: nat, unit: int, val: int, read: (nat, seq<byte>))
    requires i < |table| && !(table[i] / 64 % 2 == 1 && i < |table| - 1) && VarintSoFar(table, i, unit, val, read)
    ensures read == (val, table[i + 1..])
  {
    assert table[i..][1..] == table[i + 1..];
    assert VarintBytes(table[i..]) == (table[i] % 64, table[i + 1..]);
  }

  method ReadSignedVarintAt(table: seq<byte>, start: nat) returns (val: int, i: nat)
    requires start < |table|
    ensures start <= i < |table|
    ensures (val, table[i + 1..]) == ReadSignedVarint(table[start + 1..])
  {
    val, i := ReadVarintAt(table, start);
    val := FromZigZag(val);
  }

  /** The end line and the two columns of the long form, which are overwritten in the end. */
  method SkipColumns(table: seq<byte>, start: nat) returns (i: nat)
    requires start < |table|
    ensures start <= i < |table|
    ensures table[i + 1..] == ReadVarint(ReadVarint(ReadVarint(table[start + 1..]).1).1).1
  {
    var unused;
    unused, i := ReadVarintAt(table, start);
    unused, i := ReadVarintAt(table, i);
    unused, i := ReadVarintAt(table, i);
  }

  /** What an entry does, code by code. */
  lemma EntryCases(rest: seq<byte>, lineno: int)
    requires rest != []
    ensures var code, signed := rest[0] / 8 % 16, ReadSignedVarint(rest[1..]);
            LocationEntry(rest, lineno)
              == if code == 15 then Some((lineno, rest[1..]))
                 else if code == 14 then
                   Some((lineno + signed.0, ReadVarint(ReadVarint(ReadVarint(signed.1).1).1).1))
                 else if code == 13 then Some((lineno + signed.0, signed.1))
                 else if code >= 10 then (if |rest| <= 2 then None else Some((lineno + code - 10, rest[3..])))
                 else if |rest| <= 1 then None else Some((lineno, rest[2..]))
  {
  }

  /** The switch over the entry at `start`; `i` is the position last read. */
  method InferEntry(table: seq<byte>, start: nat, firstLine: int, ghost exact: int)
    returns (lineno: int, i: nat, ok: bool)
    requires start < |table| && firstLine == U32(exact)
    ensures start <= i < |table|
    ensures var e := LocationEntry(table[start..], exact);
            ok == e.Some? && (ok ==> table[i + 1..] == e.value.1 && lineno == U32(e.value.0))
  {
    hide U32, ReadVarint, ReadSignedVarint, LocationEntry;
    EntryCases(table[start..], exact);
    lineno, i, ok := firstLine, start, true;
    assert table[start..][1..] == table[start + 1..];
    var code := table[i] / 8 % 16;
    if code == 15 {
    } else if code == 14 {
      var delta;
      delta, i := ReadSignedVarintAt(table, i);
      lineno := U32(lineno + delta);
      U32Adds(exact, delta);
      i := SkipColumns(table, i);
    } else if code == 13 {
      var delta;
      delta, i := ReadSignedVarintAt(table, i);
      lineno := U32(lineno + delta);
      U32Adds(exact, delta);
    } else if code >= 10 {
      if i >= |table| - 2 {
        return lineno, i, false;
      }
      lineno := U32(lineno + code - 10);
      U32Adds(exact, code - 10);
      i := i + 2;
      assert table[start..][3..] == table[i + 1..];
    } else {
      if i >= |table| - 1 {
        return lineno, i, false;
      }
      i := i + 1;
      assert table[start..][2..] == table[i + 1..];
    }
  }

  /** Every byte string is decoded, or refused, without a read past its end. */
  method InferLocation(table: seq<byte>, firstLine: int, lasti: int) returns (line: Option<int>)
    ensures var l := LocationLine(table, 0, firstLine, lasti);
            line == if l.Some? then Some(ToInt32(U32(l.value))) else None
  {
    var lineno := U32(firstLine);
    ghost var exact := firstLine;
    hide LocationEntry, U32, ToInt32;
    ghost var whole := LocationLine(table, 0, firstLine, lasti);
    var i, bc := 0, 0;
    assert table[0..] == table;
    while i < |table|
      invariant 0 <= i <= |table| && lineno == U32(exact)
      invariant whole == LocationLine(table[i..], bc, exact, lasti)
    {
      ghost var rest := table[i..];
      LocationLineStep(rest, bc, exact, lasti);
      assert table[i] == rest[0];
      bc := bc + table[i] % 8 + 1;
      var ok;
      lineno, i, ok := InferEntry(table, i, lineno, exact);
      if !ok {
        return None;
      }
      exact := LocationEntry(rest, exact).value.0;
      if bc > lasti {
        break;
      }
      i := i + 1;
    }
    line := Some(ToInt32(lineno));
  }

  lemma LocationLineStep(rest: seq<byte>, bc: int, lineno: int, lasti: int)
    requires rest != []
    ensures var entry, bc' := LocationEntry(rest, lineno), bc + rest[0] % 8 + 1;
            LocationLine(rest, bc, lineno, lasti)
              == if entry.None? then None
                 else if bc' > lasti then Some(entry.value.0)
                 else LocationLine(entry.value.1, bc', entry.value.0, lasti)
  {
  }

  // ---------------------------------------------------------------------
  // Tables of ranges, and what CPython makes of them

  datatype Position = NoLine | At(line: int, endLine: int, column: int, endColumn: int)

  /** A range of instructions, in code units. */
  datatype Range = Range(length: nat, pos: Position)

  /** A position does not end before it starts, and an absent column is -1. */
  predicate GoodPosition(pos: Position) {
    pos.At? ==> pos.line <= pos.endLine && -1 <= pos.column && -1 <= pos.endColumn
  }

  /** No range is empty. */
  predicate WellFormed(ranges: seq<Range>) {
    forall i :: 0 <= i < |ranges| ==> ranges[i].length > 0 && GoodPosition(ranges[i].pos)
  }

  function Total(ranges: seq<Range>): nat {
    if ranges == [] then 0 else ranges[0].length + Total(ranges[1..])
  }

  function LineAfter(line: int, pos: Position): int {
    if pos.NoLine? then line else pos.line
  }

  /** The running line at an offset: that of the range it is in or, if that has none, of the last one that had. */
  function LineAt(line: int, ranges: seq<Range>, offset: nat): int
    requires offset < Total(ranges)
    decreases |ranges|
  {
    if offset < ranges[0].length then LineAfter(line, ranges[0].pos)
    else LineAt(LineAfter(line, ranges[0].pos), ranges[1..], offset - ranges[0].length)
  }

  /** The range that an offset is in. */
  function RangeAt(ranges: seq<Range>, offset: nat): (i: nat)
    requires offset < Total(ranges)
    ensures i < |ranges|
    decreases |ranges|
  {
    if offset < ranges[0].length then 0 else 1 + RangeAt(ranges[1..], offset - ranges[0].length)
  }

  /** When every range has a line, it is the line of the range that contains the offset. */
  lemma {:induction false} LineAtIsTheRangesLine(line: int, ranges: seq<Range>, offset: nat)
    requires offset < Total(ranges) && forall i :: 0 <= i < |ranges| ==> ranges[i].pos.At?
    ensures LineAt(line, ranges, offset) == ranges[RangeAt(ranges, offset)].pos.line
    decreases |ranges|
  {
    if offset < ranges[0].length {
    } else {
      LineAtIsTheRangesLine(ranges[0].pos.line, ranges[1..], offset - ranges[0].length);
    }
  }

  /** co_lnotab: `d` bytes of code, then `l` lines, split where either does not fit. */
  function LnotabEntry(d: nat, l: int): seq<byte>
    decreases d, if l < 0 then -l else l
  {
    if d > 255 then [255, 0] + LnotabEntry(d - 255, l)
    else if l > 127 then [d, 127] + LnotabEntry(0, l - 127)
    else if l < -128 then [d, 0x80] + LnotabEntry(0, l + 128)
    else [d, ToByte(l)]
  }

  /** `pending` bytes of code precede the first of the ranges. */
  function EncodeLnotab(line: int, pending: nat, ranges: seq<Range>): seq<byte>
    decreases |ranges|
  {
    if ranges == [] then []
    else
      var line' := LineAfter(line, ranges[0].pos);
      LnotabEntry(pending, line' - line) + EncodeLnotab(line', 2 * ranges[0].length, ranges[1..])
  }

  function LinetableRun(b: nat, l: byte, later: byte): seq<byte> {
    if b > 254 then [254, l] + LinetableRun(b - 254, later, later) else [b, l]
  }

  /** The 3.10 line table: the line change comes first, and a range without a line is marked. */
  function LinetableEntry(b: nat, l: int): seq<byte>
    decreases if l < 0 then -l else l
  {
    if l > 127 then [0, 127] + LinetableEntry(b, l - 127)
    else if l < -127 then [0, ToByte(-127)] + LinetableEntry(b, l + 127)
    else LinetableRun(b, ToByte(l), 0)
  }

  function EncodeLinetable(line: int, ranges: seq<Range>): seq<byte>
    decreases |ranges|
  {
    if ranges == [] then []
    else
      var pos, b := ranges[0].pos, 2 * ranges[0].length;
      (if pos.NoLine? then LinetableRun(b, 0x80, 0x80) else LinetableEntry(b, pos.line - line))
        + EncodeLinetable(LineAfter(line, pos), ranges[1..])
  }

  function Varint(n: nat): (r: seq<byte>)
    ensures r != []
  {
    if n < 64 then [n] else [64 + n % 64] + Varint(n / 64)
  }

  function Varints(ns: seq<nat>): seq<byte> {
    if ns == [] then [] else Varint(ns[0]) + Varints(ns[1..])
  }

  function ZigZag(n: int): nat {
    if n < 0 then 2 * -n + 1 else 2 * n
  }

  /** The first byte of an entry. */
  function EntryHeader(code: nat, units: nat): (b: byte)
    requires code < 16 && 1 <= units <= 8
    ensures b / 8 % 16 == code && b % 8 + 1 == units
  {
    0x80 + 8 * code + units - 1
  }

  predicate WithoutColumns(pos: Position) {
    pos.At? && (pos.column < 0 || pos.endColumn < 0) && pos.endLine == pos.line
  }

  predicate IsShort(delta: int, pos: Position) {
    pos.At? && pos.endLine == pos.line && delta == 0 && 0 <= pos.column < 80 && 0 <= pos.endColumn - pos.column < 16
  }

  predicate IsOneLine(delta: int, pos: Position) {
    pos.At? && pos.endLine == pos.line && 0 <= delta < 3 && 0 <= pos.column < 128 && 0 <= pos.endColumn < 128
  }

  /** One entry of the location table for 1 to 8 code units, in the shortest form that holds it. */
  function LocationForm(units: nat, delta: int, pos: Position): (form: seq<byte>)
    requires 1 <= units <= 8
    requires GoodPosition(pos)
    ensures form != [] && form[0] % 8 + 1 == units
  {
    if pos.NoLine? then
      [EntryHeader(15, units)]
    else if WithoutColumns(pos) then
      [EntryHeader(13, units)] + Varint(ZigZag(delta))
    else if IsShort(delta, pos) then
      [EntryHeader(pos.column / 8, units), pos.column % 8 * 16 + pos.endColumn - pos.column]
    else if IsOneLine(delta, pos) then
      [EntryHeader(10 + delta, units), pos.column, pos.endColumn]
    else
      [EntryHeader(14, units)] + Varints([ZigZag(delta), pos.endLine - pos.line, pos.column + 1, pos.endColumn + 1])
  }

  /** An entry to be encoded. */
  datatype Form = Form(units: nat, delta: int, pos: Position)

  predicate GoodForm(f: Form) {
    1 <= f.units <= 8 && GoodPosition(f.pos) && (f.pos.NoLine? ==> f.delta == 0)
  }

  ghost predicate GoodForms(forms: seq<Form>) {
    forall i :: 0 <= i < |forms| ==> GoodForm(forms[i])
  }

  /** A range longer than 8 code units takes several entries. */
  function FormsOfRange(length: nat, delta: int, pos: Position): seq<Form> {
    if length > 8 then [Form(8, delta, pos)] + FormsOfRange(length - 8, 0, pos) else [Form(length, delta, pos)]
  }

  function FormsOf(line: int, ranges: seq<Range>): seq<Form>
    decreases |ranges|
  {
    if ranges == [] then []
    else
      var line' := LineAfter(line, ranges[0].pos);
      FormsOfRange(ranges[0].length, line' - line, ranges[0].pos) + FormsOf(line', ranges[1..])
  }

  function EncodeForms(forms: seq<Form>): seq<byte>
    requires GoodForms(forms)
  {
    if forms == [] then []
    else LocationForm(forms[0].units, forms[0].delta, forms[0].pos) + EncodeForms(forms[1..])
  }

  /** The location table of 3.11 and later. */
  function EncodeLocations(line: int, ranges: seq<Range>): seq<byte>
    requires WellFormed(ranges)
  {
    FormsAreGood(line, ranges);
    EncodeForms(FormsOf(line, ranges))
  }

  lemma {:induction false} RangeFormsAreGood(length: nat, delta: int, pos: Position)
    requires length > 0 && GoodPosition(pos) && (pos.NoLine? ==> delta == 0)
    ensures GoodForms(FormsOfRange(length, delta, pos))
  {
    if length <= 8 {
    } else {
      RangeFormsAreGood(length - 8, 0, pos);
    }
  }

  lemma {:induction false} FormsAreGood(line: int, ranges: seq<Range>)
    requires WellFormed(ranges)
    ensures GoodForms(FormsOf(line, ranges))
    decreases |ranges|
  {
    if ranges == [] {
    } else {
      var line' := LineAfter(line, ranges[0].pos);
      RangeFormsAreGood(ranges[0].length, line' - line, ranges[0].pos);
      FormsAreGood(line', ranges[1..]);
    }
  }

  // ---------------------------------------------------------------------
  // co_lnotab

  /** Both byte-pair formats come in pairs. */
  lemma {:induction false} LnotabEntryEven(d: nat, l: int)
    ensures |LnotabEntry(d, l)| % 2 == 0
    decreases d, if l < 0 then -l else l
  {
    if d > 255 { LnotabEntryEven(d - 255, l); }
    else if l > 127 { LnotabEntryEven(0, l - 127); }
    else if l < -128 { LnotabEntryEven(0, l + 128); }
  }

  lemma {:induction false} LnotabEven(line: int, pending: nat, ranges: seq<Range>)
    ensures |EncodeLnotab(line, pending, ranges)| % 2 == 0
    decreases |ranges|
  {
    if ranges == [] {
    } else {
      var line' := LineAfter(line, ranges[0].pos);
      LnotabEntryEven(pending, line' - line);
      LnotabEven(line', 2 * ranges[0].length, ranges[1..]);
    }
  }

  lemma {:induction false} LinetableRunEven(b: nat, l: byte, later: byte)
    ensures |LinetableRun(b, l, later)| % 2 == 0
    decreases b
  {
    if b <= 254 {
    } else {
      LinetableRunEven(b - 254, later, later);
    }
  }

  lemma {:induction false} LinetableEntryEven(b: nat, l: int)
    ensures |LinetableEntry(b, l)| % 2 == 0
    decreases if l < 0 then -l else l
  {
    if l > 127 { LinetableEntryEven(b, l - 127); }
    else if l < -127 { LinetableEntryEven(b, l + 127); }
    else { LinetableRunEven(b, ToByte(l), 0); }
  }

  lemma {:induction false} LinetableEven(line: int, ranges: seq<Range>)
    ensures |EncodeLinetable(line, ranges)| % 2 == 0
    decreases |ranges|
  {
    if ranges == [] {
    } else {
      var pos, b := ranges[0].pos, 2 * ranges[0].length;
      LinetableEven(LineAfter(line, pos), ranges[1..]);
      LinetableRunEven(b, 0x80, 0x80);
      if pos.At? { LinetableEntryEven(b, pos.line - line); }
    }
  }

  lemma {:induction false} LnotabReadsEntry(d: nat, l: int, rest: seq<byte>, bc: int, line: int, lasti: int,
                                            bc': int, line': int)
    requires bc' == bc + d && line' == line + l
    ensures LnotabLine(LnotabEntry(d, l) + rest, bc, line, lasti)
      == if bc' > lasti then line else LnotabLine(rest, bc', line', lasti)
    decreases d, if l < 0 then -l else l
  {
    var e := LnotabEntry(d, l) + rest;
    if d > 255 {
      assert e[2..] == LnotabEntry(d - 255, l) + rest;
      LnotabReadsEntry(d - 255, l, rest, bc + 255, line, lasti, bc', line');
    } else if l > 127 {
      assert e[2..] == LnotabEntry(0, l - 127) + rest;
      LnotabReadsEntry(0, l - 127, rest, bc', line + 127, lasti, bc', line');
    } else if l < -128 {
      assert e[2..] == LnotabEntry(0, l + 128) + rest;
      LnotabReadsEntry(0, l + 128, rest, bc', line - 128, lasti, bc', line');
    } else {
      assert e[2..] == rest;
    }
  }

  lemma {:induction false} LnotabReads(line: int, pending: nat, ranges: seq<Range>, bc: int, offset: nat, lasti: int)
    requires offset < Total(ranges) && lasti == bc + pending + 2 * offset
    ensures LnotabLine(EncodeLnotab(line, pending, ranges), bc, line, lasti) == LineAt(line, ranges, offset)
    decreases |ranges|
  {
    var length, line' := ranges[0].length, LineAfter(line, ranges[0].pos);
    var rest := EncodeLnotab(line', 2 * length, ranges[1..]);
    LnotabReadsEntry(pending, line' - line, rest, bc, line, lasti, bc + pending, line');
    if offset >= length {
      LnotabReads(line', 2 * length, ranges[1..], bc + pending, offset - length, lasti);
    } else if ranges[1..] != [] {
      LnotabStopsEarly(line', 2 * length, ranges[1..], bc + pending, lasti);
    }
  }

  lemma LnotabStopsEarly(line: int, pending: nat, ranges: seq<Range>, bc: int, lasti: int)
    requires ranges != [] && bc + pending > lasti
    ensures LnotabLine(EncodeLnotab(line, pending, ranges), bc, line, lasti) == line
  {
    var line' := LineAfter(line, ranges[0].pos);
    var rest := EncodeLnotab(line', 2 * ranges[0].length, ranges[1..]);
    LnotabReadsEntry(pending, line' - line, rest, bc, line, lasti, bc + pending, line');
  }

  // ---------------------------------------------------------------------
  // The 3.10 line table

  /** What a signed line byte adds; 0x80 adds nothing. */
  function LineByte(l: byte): int {
    if l == 0x80 then 0 else Signed(l)
  }

  lemma {:induction false} LinetableReadsRun(b: nat, l: byte, later: byte, rest: seq<byte>,
                                             bc: int, line: int, lasti: int, bc': int, line': int)
    requires LineByte(later) == 0 && bc' == bc + b && line' == line + LineByte(l)
    ensures LinetableLine(LinetableRun(b, l, later) + rest, bc, line, lasti)
      == if bc' > lasti then line' else LinetableLine(rest, bc', line', lasti)
    decreases b
  {
    var e := LinetableRun(b, l, later) + rest;
    if b > 254 {
      LinetableReadsRun(b - 254, later, later, rest, bc + 254, line', lasti, bc', line');
      assert e[2..] == LinetableRun(b - 254, later, later) + rest;
    } else {
      assert e[2..] == rest;
    }
  }

  lemma {:induction false} LinetableReadsEntry(b: nat, l: int, rest: seq<byte>, bc: int, line: int, lasti: int,
                                               bc': int, line': int)
    requires bc <= lasti && bc' == bc + b && line' == line + l
    ensures LinetableLine(LinetableEntry(b, l) + rest, bc, line, lasti)
      == if bc' > lasti then line' else LinetableLine(rest, bc', line', lasti)
    decreases if l < 0 then -l else l
  {
    var e := LinetableEntry(b, l) + rest;
    if l > 127 {
      LinetableReadsEntry(b, l - 127, rest, bc, line + 127, lasti, bc', line');
      assert e[2..] == LinetableEntry(b, l - 127) + rest;
    } else if l < -127 {
      LinetableReadsEntry(b, l + 127, rest, bc, line - 127, lasti, bc', line');
      assert e[2..] == LinetableEntry(b, l + 127) + rest;
    } else {
      LinetableReadsRun(b, ToByte(l), 0, rest, bc, line, lasti, bc', line');
    }
  }

  lemma {:induction false} LinetableReads(line: int, ranges: seq<Range>, bc: int, offset: nat, lasti: int)
    requires offset < Total(ranges) && lasti == bc + 2 * offset
    ensures LinetableLine(EncodeLinetable(line, ranges), bc, line, lasti) == LineAt(line, ranges, offset)
    decreases |ranges|
  {
    var pos, length := ranges[0].pos, ranges[0].length;
    var line' := LineAfter(line, pos);
    var rest := EncodeLinetable(line', ranges[1..]);
    if pos.NoLine? {
      LinetableReadsRun(2 * length, 0x80, 0x80, rest, bc, line, lasti, bc + 2 * length, line');
    } else {
      LinetableReadsEntry(2 * length, pos.line - line, rest, bc, line, lasti, bc + 2 * length, line');
    }
    if offset < length {
    } else {
      LinetableReads(line', ranges[1..], bc + 2 * length, offset - length, lasti);
    }
  }

  /** Nothing after an end mark counts. */
  lemma {:induction false} EndMarkEnds(table: seq<byte>, after: seq<byte>, bc: int, line: int, lasti: int)
    requires |table| % 2 == 0
    ensures LinetableLine(table + [0xff] + after, bc, line, lasti) == LinetableLine(table, bc, line, lasti)
  {
    var whole := table + [0xff] + after;
    if table == [] {
    } else if table[0] != 0xff {
      var line' := if table[1] == 0x80 then line else line + Signed(table[1]);
      EndMarkEnds(table[2..], after, bc + table[0], line', lasti);
      assert whole[2..] == table[2..] + [0xff] + after;
    }
  }

  // ---------------------------------------------------------------------
  // The location table

  lemma {:induction false} VarintBytesRead(n: nat, rest: seq<byte>)
    ensures VarintBytes(Varint(n) + rest) == (n, rest)
  {
    var e := Varint(n) + rest;
    if n < 64 {
      assert e[1..] == rest;
    } else {
      VarintBytesRead(n / 64, rest);
      assert e[1..] == Varint(n / 64) + rest;
      assert e[0] == 64 + n % 64;
    }
  }

  /** The number that 6-bit digits make, the lowest first. */
  function Digits(bytes: seq<byte>): nat {
    if bytes == [] then 0 else bytes[0] % 64 + 64 * Digits(bytes[1..])
  }

  lemma {:induction false} CutOffDigits(rest: seq<byte>)
    requires rest != [] && forall i :: 0 <= i < |rest| ==> rest[i] / 64 % 2 == 1
    ensures VarintBytes(rest) == (Digits(rest), [])
  {
    if |rest| == 1 {
      assert rest[1..] == [];
    } else {
      CutOffDigits(rest[1..]);
    }
  }

  /** A varint that the end of the table cuts off is made of the digits there are; without any it is 0. */
  lemma CutOffVarint(rest: seq<byte>)
    requires forall i :: 0 <= i < |rest| ==> rest[i] / 64 % 2 == 1
    ensures ReadVarint(rest) == (Int32(Digits(rest)), [])
  {
    if rest != [] {
      CutOffDigits(rest);
    }
  }

  /** A varint is read back as an int holds it. */
  lemma VarintReads(n: nat, rest: seq<byte>)
    ensures ReadVarint(Varint(n) + rest) == (Int32(n), rest)
  {
    VarintBytesRead(n, rest);
  }

  /** A line change as it is read back. */
  function Seen(delta: int): int {
    FromZigZag(Int32(ZigZag(delta)))
  }

  const TWO30: int := 0x4000_0000
  const TWO31: int := 0x8000_0000

  /** A line change that does not fit the int, since one bit of that is the sign. */
  predicate IsBig(delta: int) {
    delta <= -TWO30 || delta >= TWO30
  }

  /** Between lines that are ints, a big change is off by 2^31, and every other one is read back. */
  lemma SeenIffNotBig(delta: int)
    ensures !IsBig(delta) ==> Seen(delta) == delta
    ensures IsBig(delta) && -TWO31 < delta < TWO31 ==> Seen(delta) == if delta > 0 then delta - TWO31 else delta + TWO31
  {
  }

  lemma SignedVarintReads(n: int, rest: seq<byte>)
    ensures ReadSignedVarint(Varint(ZigZag(n)) + rest) == (Seen(n), rest)
  {
    VarintReads(ZigZag(n), rest);
  }

  lemma VarintsRead(n: nat, ns: seq<nat>, rest: seq<byte>)
    ensures ReadVarint(Varints([n] + ns) + rest) == (Int32(n), Varints(ns) + rest)
  {
    assert ([n] + ns)[1..] == ns;
    assert Varints([n] + ns) + rest == Varint(n) + (Varints(ns) + rest);
    VarintReads(n, Varints(ns) + rest);
  }

  lemma LongFormReads(header: byte, body: seq<byte>, z: int, r1: seq<byte>, r2: seq<byte>, r3: seq<byte>,
                      r4: seq<byte>, line: int)
    requires header / 8 % 16 == 14
    requires ReadVarint(body) == (z, r1) && ReadVarint(r1).1 == r2 && ReadVarint(r2).1 == r3 && ReadVarint(r3).1 == r4
    ensures LocationEntry([header] + body, line) == Some((line + FromZigZag(z), r4))
  {
    assert ([header] + body)[1..] == body;
  }

  lemma LongFormIsRead(header: byte, delta: int, a: nat, b: nat, c: nat, rest: seq<byte>, line: int)
    requires header / 8 % 16 == 14
    ensures LocationEntry([header] + (Varints([ZigZag(delta), a, b, c]) + rest), line)
      == Some((line + Seen(delta), rest))
  {
    var z := ZigZag(delta);
    assert [z] + [a, b, c] == [z, a, b, c] && [a] + [b, c] == [a, b, c] && [b] + [c] == [b, c];
    VarintsRead(z, [a, b, c], rest);
    VarintsRead(a, [b, c], rest);
    VarintsRead(b, [c], rest);
    VarintsRead(c, [], rest);
    LongFormReads(header, Varints([z, a, b, c]) + rest, Int32(z), Varints([a, b, c]) + rest, Varints([b, c]) + rest,
                  Varints([c]) + rest, Varints([]) + rest, line);
    assert Varints([]) + rest == rest;
  }

  lemma NoLineFormReads(units: nat, pos: Position, rest: seq<byte>, line: int)
    requires 1 <= units <= 8 && GoodPosition(pos) && pos.NoLine?
    ensures LocationEntry(LocationForm(units, 0, pos) + rest, line) == Some((line, rest))
  {
    assert (LocationForm(units, 0, pos) + rest)[1..] == rest;
  }

  lemma ShortFormReads(units: nat, pos: Position, rest: seq<byte>, line: int)
    requires 1 <= units <= 8 && GoodPosition(pos) && IsShort(0, pos)
    ensures LocationEntry(LocationForm(units, 0, pos) + rest, line) == Some((line, rest))
  {
    assert (LocationForm(units, 0, pos) + rest)[2..] == rest;
  }

  lemma OneLineFormReads(units: nat, delta: int, pos: Position, rest: seq<byte>, line: int)
    requires 1 <= units <= 8 && GoodPosition(pos) && IsOneLine(delta, pos) && !IsShort(delta, pos)
    ensures LocationEntry(LocationForm(units, delta, pos) + rest, line) == Some((line + delta, rest))
  {
    assert (LocationForm(units, delta, pos) + rest)[3..] == rest;
  }

  lemma NoColumnFormReads(units: nat, delta: int, pos: Position, rest: seq<byte>, line: int)
    requires 1 <= units <= 8 && GoodPosition(pos) && WithoutColumns(pos)
    ensures LocationEntry(LocationForm(units, delta, pos) + rest, line) == Some((line + Seen(delta), rest))
  {
    assert (LocationForm(units, delta, pos) + rest)[1..] == Varint(ZigZag(delta)) + rest;
    SignedVarintReads(delta, rest);
  }

  /** Every form is read back: its length, the line it changes to, and the bytes after it. */
  lemma FormReads(units: nat, delta: int, pos: Position, rest: seq<byte>, line: int)
    requires 1 <= units <= 8 && GoodPosition(pos) && (pos.NoLine? ==> delta == 0)
    ensures LocationEntry(LocationForm(units, delta, pos) + rest, line) == Some((line + Seen(delta), rest))
  {
    hide Seen, LocationEntry, Varint, Varints, ZigZag;
    SeenIffNotBig(delta);
    if pos.NoLine? {
      NoLineFormReads(units, pos, rest, line);
    } else if WithoutColumns(pos) {
      NoColumnFormReads(units, delta, pos, rest, line);
    } else if IsShort(delta, pos) {
      ShortFormReads(units, pos, rest, line);
    } else if IsOneLine(delta, pos) {
      OneLineFormReads(units, delta, pos, rest, line);
    } else {
      var header, a, b, c := EntryHeader(14, units), pos.endLine - pos.line, pos.column + 1, pos.endColumn + 1;
      LongFormIsRead(header, delta, a, b, c, rest, line);
      ConcatAssociates([header], Varints([ZigZag(delta), a, b, c]), rest);
    }
  }

  lemma FormLine(f: Form, rest: seq<byte>, bc: int, line: int, lasti: int, after: int)
    requires GoodForm(f) && LocationLine(rest, bc + f.units, line + Seen(f.delta), lasti) == Some(after)
    ensures LocationLine(LocationForm(f.units, f.delta, f.pos) + rest, bc, line, lasti)
      == Some(if bc + f.units > lasti then line + Seen(f.delta) else after)
  {
    hide LocationForm, LocationEntry;
    FormReads(f.units, f.delta, f.pos, rest, line);
    LocationLineStep(LocationForm(f.units, f.delta, f.pos) + rest, bc, line, lasti);
  }

  /** The line that a list of entries gives an offset. */
  function FormsLine(forms: seq<Form>, bc: int, line: int, lasti: int): int {
    if forms == [] then line
    else if bc + forms[0].units > lasti then line + Seen(forms[0].delta)
    else FormsLine(forms[1..], bc + forms[0].units, line + Seen(forms[0].delta), lasti)
  }

  lemma {:induction false} FormsRead(forms: seq<Form>, bc: int, line: int, lasti: int)
    requires GoodForms(forms)
    ensures LocationLine(EncodeForms(forms), bc, line, lasti) == Some(FormsLine(forms, bc, line, lasti))
  {
    hide LocationForm, Seen;
    if forms == [] {
    } else {
      var f, rest := forms[0], EncodeForms(forms[1..]);
      FormsRead(forms[1..], bc + f.units, line + Seen(f.delta), lasti);
      FormLine(f, rest, bc, line, lasti, FormsLine(forms[1..], bc + f.units, line + Seen(f.delta), lasti));
    }
  }

  lemma {:induction false} RangeFormsLine(length: nat, delta: int, pos: Position, rest: seq<Form>,
                                          bc: int, line: int, lasti: int)
    ensures FormsLine(FormsOfRange(length, delta, pos) + rest, bc, line, lasti)
      == if bc + length > lasti then line + Seen(delta) else FormsLine(rest, bc + length, line + Seen(delta), lasti)
    decreases length
  {
    var forms := FormsOfRange(length, delta, pos) + rest;
    if length > 8 {
      assert forms[1..] == FormsOfRange(length - 8, 0, pos) + rest;
      RangeFormsLine(length - 8, 0, pos, rest, bc + 8, line + Seen(delta), lasti);
    } else {
      assert forms[1..] == rest;
    }
  }

  /** The running line as the changes to it are read back; `seen` is what it is before the first range. */
  function SeenLineAt(seen: int, line: int, ranges: seq<Range>, offset: nat): int
    requires offset < Total(ranges)
    decreases |ranges|
  {
    var line' := LineAfter(line, ranges[0].pos);
    var seen' := seen + Seen(line' - line);
    if offset < ranges[0].length then seen' else SeenLineAt(seen', line', ranges[1..], offset - ranges[0].length)
  }

  /** How many changes of the running line up to an offset are big. */
  function BigChanges(line: int, ranges: seq<Range>, offset: nat): nat
    requires offset < Total(ranges)
    decreases |ranges|
  {
    var line' := LineAfter(line, ranges[0].pos);
    (if IsBig(line' - line) then 1 else 0)
      + if offset < ranges[0].length then 0 else BigChanges(line', ranges[1..], offset - ranges[0].length)
  }

  /** All lines are ints, as CPython's are. */
  predicate IntLines(line: int, ranges: seq<Range>) {
    && 0 <= line < TWO31
    && forall i :: 0 <= i < |ranges| ==> ranges[i].pos.At? ==> 0 <= ranges[i].pos.line < TWO31
  }

  lemma {:induction false} FormsLineIsSeen(seen: int, line: int, ranges: seq<Range>, bc: int, offset: nat, lasti: int)
    requires offset < Total(ranges) && lasti == bc + offset
    ensures FormsLine(FormsOf(line, ranges), bc, seen, lasti) == SeenLineAt(seen, line, ranges, offset)
    decreases |ranges|
  {
    hide Seen;
    var length, line' := ranges[0].length, LineAfter(line, ranges[0].pos);
    var seen' := seen + Seen(line' - line);
    RangeFormsLine(length, line' - line, ranges[0].pos, FormsOf(line', ranges[1..]), bc, seen, lasti);
    if offset < length {
    } else {
      FormsLineIsSeen(seen', line', ranges[1..], bc + length, offset - length, lasti);
    }
  }

  /** A location table gives an offset the running line as its changes are read back. */
  lemma LocationsRead(line: int, ranges: seq<Range>, offset: nat)
    requires WellFormed(ranges) && offset < Total(ranges)
    ensures LocationLine(EncodeLocations(line, ranges), 0, line, offset) == Some(SeenLineAt(line, line, ranges, offset))
  {
    FormsAreGood(line, ranges);
    FormsRead(FormsOf(line, ranges), 0, line, offset);
    FormsLineIsSeen(line, line, ranges, 0, offset, offset);
  }

  /** Every big change puts it off by 2^31, up to multiples of 2^32. */
  lemma {:induction false} SeenLineIsOff(seen: int, line: int, ranges: seq<Range>, offset: nat) returns (wraps: int)
    requires offset < Total(ranges) && IntLines(line, ranges)
    ensures SeenLineAt(seen, line, ranges, offset)
      == LineAt(line, ranges, offset) + seen - line + TWO31 * BigChanges(line, ranges, offset) + TWO32 * wraps
    decreases |ranges|
  {
    hide Seen;
    var length, line' := ranges[0].length, LineAfter(line, ranges[0].pos);
    var delta := line' - line;
    SeenIffNotBig(delta);
    wraps := if IsBig(delta) && delta > 0 then -1 else 0;
    if offset < length {
    } else {
      var more := SeenLineIsOff(seen + Seen(delta), line', ranges[1..], offset - length);
      wraps := wraps + more;
    }
  }

  lemma {:induction false} SeenIfNoneIsBig(seen: int, line: int, ranges: seq<Range>, offset: nat)
    requires offset < Total(ranges) && BigChanges(line, ranges, offset) == 0
    ensures SeenLineAt(seen, line, ranges, offset) == LineAt(line, ranges, offset) + seen - line
    decreases |ranges|
  {
    hide Seen;
    var length, line' := ranges[0].length, LineAfter(line, ranges[0].pos);
    SeenIffNotBig(line' - line);
    if offset < length {
    } else {
      SeenIfNoneIsBig(seen + Seen(line' - line), line', ranges[1..], offset - length);
    }
  }

  lemma OffByHalf(line: int, n: nat, wraps: int)
    ensures U32(line + TWO31 * n + TWO32 * wraps) == U32(line) <==> n % 2 == 0
  {
    assert TWO31 * n == TWO32 * (n / 2) + TWO31 * (n % 2);
    WholeTurns(line, n / 2 + wraps);
    WholeTurns(line + TWO31, n / 2 + wraps);
  }

  lemma {:induction false} WholeTurns(line: int, k: int)
    ensures U32(line + TWO32 * k) == U32(line)
    decreases if k < 0 then -k else k
  {
    if k == 0 {
    } else if k > 0 {
      WholeTurns(line, k - 1);
    } else {
      WholeTurns(line, k + 1);
    }
  }

  // ---------------------------------------------------------------------
  // The three together

  /**
   For every table of ranges and every offset inside it, the decoders for the two older formats, each given the
   table in its own, find the running line of the range that contains the offset.  So does the third when no change
   of the line up to there is big; in general it does iff the number of big ones is even.
   */
  lemma DecodersAgree(firstLine: int, ranges: seq<Range>, offset: nat)
    requires WellFormed(ranges) && offset < Total(ranges)
    ensures var line := LineAt(firstLine, ranges, offset);
            var located := LocationLine(EncodeLocations(firstLine, ranges), 0, firstLine, offset);
            && |EncodeLnotab(firstLine, 0, ranges)| % 2 == 0
            && LnotabLine(EncodeLnotab(firstLine, 0, ranges), 0, firstLine, 2 * offset) == line
            && |EncodeLinetable(firstLine, ranges)| % 2 == 0
            && LinetableLine(EncodeLinetable(firstLine, ranges), 0, firstLine, 2 * offset) == line
            && located.Some?
            && (BigChanges(firstLine, ranges, offset) == 0 ==> located.value == line)
            && (IntLines(firstLine, ranges) ==>
                  (U32(located.value) == U32(line) <==> BigChanges(firstLine, ranges, offset) % 2 == 0))
  {
    LnotabEven(firstLine, 0, ranges);
    LnotabReads(firstLine, 0, ranges, 0, offset, 2 * offset);
    LinetableEven(firstLine, ranges);
    LinetableReads(firstLine, ranges, 0, offset, 2 * offset);
    LocationsAgree(firstLine, ranges, offset);
  }

  lemma LocationsAgree(firstLine: int, ranges: seq<Range>, offset: nat)
    requires WellFormed(ranges) && offset < Total(ranges)
    ensures var line := LineAt(firstLine, ranges, offset);
            var located := LocationLine(EncodeLocations(firstLine, ranges), 0, firstLine, offset);
            && located.Some?
            && (BigChanges(firstLine, ranges, offset) == 0 ==> located.value == line)
            && (IntLines(firstLine, ranges) ==>
                  (U32(located.value) == U32(line) <==> BigChanges(firstLine, ranges, offset) % 2 == 0))
  {
    hide EncodeLocations, LocationLine, LineAt, SeenLineAt, BigChanges, U32;
    LocationsRead(firstLine, ranges, offset);
    if BigChanges(firstLine, ranges, offset) == 0 {
      SeenIfNoneIsBig(firstLine, firstLine, ranges, offset);
    }
    if IntLines(firstLine, ranges) {
      var wraps := SeenLineIsOff(firstLine, firstLine, ranges, offset);
      OffByHalf(LineAt(firstLine, ranges, offset), BigChanges(firstLine, ranges, offset), wraps);
    }
  }

  /** One range 2^30 lines below the first line: the location table puts it 2^31 lines too high. */
  lemma BigChangeIsMisread()
    ensures var ranges := [Range(1, At(1 + TWO30, 1 + TWO30, -1, -1))];
            && IntLines(1, ranges) && LineAt(1, ranges, 0) == 1 + TWO30
            && LocationLine(EncodeLocations(1, ranges), 0, 1, 0) == Some(1 - TWO30)
  {
    var ranges := [Range(1, At(1 + TWO30, 1 + TWO30, -1, -1))];
    LocationsRead(1, ranges, 0);
    SeenIffNotBig(TWO30);
  }
}
