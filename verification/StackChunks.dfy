/**
 Local copies of the chunks of a thread's data stack (echion/stack_chunk.h).  The
 target's memory is a partial map from addresses to bytes.
 */
module StackChunks {
  import opened Bytes
  import opened Target
  import opened Wrappers

  type Memory = map<Addr, byte>

  const MAX_CHUNK_SIZE: nat := 256 * 1024

  /** The size of the header; the address of the previous chunk comes first in it, then the chunk's size. */
  const HEADER_SIZE: nat := 32

  function LittleEndian(b: seq<byte>): nat {
    if b == [] then 0 else b[0] + 256 * LittleEndian(b[1..])
  }

  function PreviousOf(header: seq<byte>): Addr
    requires |header| >= HEADER_SIZE
  {
    LittleEndian(header[..8])
  }

  function SizeOf(header: seq<byte>): nat
    requires |header| >= HEADER_SIZE
  {
    LittleEndian(header[8..16])
  }

  predicate CanRead(m: Memory, a: Addr, n: nat) {
    forall i :: a <= i < a + n ==> i in m
  }

  function Read(m: Memory, a: Addr, n: nat): (b: seq<byte>)
    requires CanRead(m, a, n)
    ensures |b| == n && forall i :: 0 <= i < n ==> b[i] == m[a + i]
  {
    seq(n, i requires 0 <= i < n => m[a + i])
  }

  // ---------------------------------------------------------------------
  // Specification

  /** A chunk that can be copied: its header can be read, its size is plausible, and all of it can be read. */
  predicate IsGood(m: Memory, a: Addr) {
    && CanRead(m, a, HEADER_SIZE)
    && var size := SizeOf(Read(m, a, HEADER_SIZE));
       size <= MAX_CHUNK_SIZE && CanRead(m, a, size)
  }

  /** That is: 32 bytes can be read, and as many as the second word of them says, which are 256 KiB at most. */
  lemma GoodChunks(m: Memory, a: Addr)
    ensures IsGood(m, a) <==>
              CanRead(m, a, 32) && var size := LittleEndian(Read(m, a, 32)[8..16]);
                                   size <= 262144 && CanRead(m, a, size)
  {
  }

  function ChunkSize(m: Memory, a: Addr): nat
    requires IsGood(m, a)
  {
    SizeOf(Read(m, a, HEADER_SIZE))
  }

  function ChunkPrevious(m: Memory, a: Addr): Addr
    requires IsGood(m, a)
  {
    PreviousOf(Read(m, a, HEADER_SIZE))
  }

  /** The good chunks from `a` on, up to the end of the list or the first that is not good. */
  predicate IsChain(m: Memory, a: Addr, chain: seq<Addr>)
    decreases |chain|
  {
    if !IsGood(m, a) then chain == []
    else
      && chain != [] && chain[0] == a
      && if ChunkPrevious(m, a) == NULL then chain == [a] else IsChain(m, ChunkPrevious(m, a), chain[1..])
  }

  datatype Copy = Copy(origin: Addr, data: seq<byte>, previous: Option<Copy>)

  const EMPTY: Copy := Copy(NULL, [], None)

  /** Copying never shrinks the buffer: what is beyond the chunk stays from before. */
  function Overwritten(data: seq<byte>, bytes: seq<byte>): (r: seq<byte>)
    ensures |bytes| <= |r| && r[..|bytes|] == bytes
  {
    if |bytes| > |data| then bytes else bytes + data[|bytes|..]
  }

  /** The copy after an update; an older copy is left where the list ends. */
  function Refreshed(c: Copy, m: Memory, a: Addr, chain: seq<Addr>): Copy
    requires IsChain(m, a, chain) && chain != []
    decreases |chain|
  {
    var data := Overwritten(c.data, Read(m, a, ChunkSize(m, a)));
    var previous :=
      if ChunkPrevious(m, a) == NULL then c.previous
      else if chain[1..] == [] then None
      else Some(Refreshed(c.previous.GetOr(EMPTY), m, ChunkPrevious(m, a), chain[1..]));
    Copy(a, data, previous)
  }

  /** An offset into the copy at some depth, or the address itself. */
  datatype Resolved = Local(depth: nat, offset: nat) | Remote(address: Addr)

  predicate IsValidCopy(c: Copy) {
    |c.data| > 0 && |c.data| >= HEADER_SIZE && c.origin != NULL
  }

  function ResolveIn(c: Copy, address: Addr): Resolved {
    if !IsValidCopy(c) then Remote(address)
    else if c.origin <= address < c.origin + SizeOf(c.data) then Local(0, address - c.origin)
    else if c.previous.Some? then Deeper(ResolveIn(c.previous.value, address))
    else Remote(address)
  }

  function Deeper(r: Resolved): Resolved {
    match r
    case Local(depth, offset) => Local(depth + 1, offset)
    case Remote(_) => r
  }

  function Depth(c: Copy, depth: nat): Option<Copy> {
    if depth == 0 then Some(c) else if c.previous.Some? then Depth(c.previous.value, depth - 1) else None
  }

  // ---------------------------------------------------------------------
  // StackChunk

  class StackChunk {
    var origin: Addr
    var data: seq<byte>
    var dataCapacity: nat
    var previous: StackChunk?
    ghost var Repr: set<StackChunk>

    ghost predicate Valid()
      reads this, Repr
      decreases Repr
    {
      && this in Repr && |data| == dataCapacity
      && (previous != null ==>
            previous in Repr && previous.Repr < Repr && this !in previous.Repr && previous.Valid())
    }

    ghost function Model(): Copy
      requires Valid()
      reads this, Repr
      decreases Repr
    {
      Copy(origin, data, if previous == null then None else Some(previous.Model()))
    }

    constructor ()
      ensures Valid() && fresh(Repr) && Model() == EMPTY
    {
      origin, data, dataCapacity, previous := NULL, [], 0, null;
      Repr := {this};
    }

    predicate IsValid()
      reads this
    {
      dataCapacity > 0 && |data| > 0 && |data| >= HEADER_SIZE && origin != NULL
    }

    function Resolve(address: Addr): (r: Resolved)
      requires Valid()
      reads this, Repr
      ensures r == ResolveIn(Model(), address)
      decreases Repr
    {
      if !IsValid() then Remote(address)
      else if origin <= address < origin + SizeOf(data) then Local(0, address - origin)
      else if previous != null then Deeper(previous.Resolve(address))
      else Remote(address)
    }

    /** Copies one chunk; the buffer grows when it has to. */
    method CopyChunk(m: Memory, chunkAddr: Addr) returns (ok: bool)
      requires |data| == dataCapacity
      modifies this`origin, this`data, this`dataCapacity
      ensures |data| == dataCapacity && ok == IsGood(m, chunkAddr)
      ensures ok ==> origin == chunkAddr && data == Overwritten(old(data), Read(m, chunkAddr, ChunkSize(m, chunkAddr)))
    {
      if !CanRead(m, chunkAddr, HEADER_SIZE) {
        return false;
      }
      var size := SizeOf(Read(m, chunkAddr, HEADER_SIZE));
      if size > MAX_CHUNK_SIZE {
        return false;
      }
      origin := chunkAddr;
      if size > dataCapacity {
        dataCapacity := size;
        data := data + seq(size - |data|, _ => 0);
      }
      if !CanRead(m, chunkAddr, size) {
        return false;
      }
      data := Read(m, chunkAddr, size) + data[size..];
      return true;
    }

    method Update(m: Memory, chunkAddr: Addr, ghost chain: seq<Addr>) returns (ok: bool)
      requires Valid() && IsChain(m, chunkAddr, chain)
      modifies Repr
      ensures Valid() && fresh(Repr - old(Repr))
      ensures ok <==> chain != []
      ensures ok ==> Model() == Refreshed(old(Model()), m, chunkAddr, chain)
      decreases |chain|
    {
      hide IsGood, Overwritten, PreviousOf, SizeOf;
      ok := CopyChunk(m, chunkAddr);
      if !ok {
        return;
      }
      var previousAddr := ChunkPrevious(m, chunkAddr);
      if previousAddr == NULL {
        return;
      }
      if previous == null {
        previous := new StackChunk();
        Repr := Repr + previous.Repr;
      }
      ghost var copy := previous.Model();
      var success := previous.Update(m, previousAddr, chain[1..]);
      Repr := Repr + previous.Repr;
      if !success {
        previous := null;
      } else {
        assert previous.Model() == Refreshed(copy, m, previousAddr, chain[1..]);
      }
    }
  }

  // ---------------------------------------------------------------------
  // When an update ends

  /** The `n`-th chunk that an update gets to copy, if it gets there. */
  function ChunkAt(m: Memory, a: Addr, n: nat): (r: Option<Addr>)
    ensures r.Some? ==> IsGood(m, r.value)
  {
    if n == 0 then (if IsGood(m, a) then Some(a) else None)
    else
      var before := ChunkAt(m, a, n - 1);
      if before.None? || ChunkPrevious(m, before.value) == NULL || !IsGood(m, ChunkPrevious(m, before.value)) then None
      else Some(ChunkPrevious(m, before.value))
  }

  /** No good chunk is met twice on the way along the previous ones. */
  ghost predicate MeetsNoneTwice(m: Memory, a: Addr) {
    forall i: nat, j: nat :: i < j && ChunkAt(m, a, i).Some? ==> ChunkAt(m, a, i) != ChunkAt(m, a, j)
  }

  lemma {:induction false} ChunkAfterFirst(m: Memory, a: Addr, n: nat)
    ensures ChunkAt(m, a, n + 1)
      == if IsGood(m, a) && ChunkPrevious(m, a) != NULL then ChunkAt(m, ChunkPrevious(m, a), n) else None
  {
    hide IsGood;
    if n == 0 {
    } else {
      ChunkAfterFirst(m, a, n - 1);
    }
  }

  lemma {:induction false} ChainHasTheChunks(m: Memory, a: Addr, chain: seq<Addr>, n: nat)
    requires IsChain(m, a, chain)
    ensures ChunkAt(m, a, n) == if n < |chain| then Some(chain[n]) else None
    decreases n
  {
    hide IsGood;
    if n == 0 {
    } else {
      ChunkAfterFirst(m, a, n - 1);
      if IsGood(m, a) && ChunkPrevious(m, a) != NULL {
        ChainHasTheChunks(m, ChunkPrevious(m, a), chain[1..], n - 1);
      }
    }
  }

  lemma {:induction false} SameChunksGoOn(m: Memory, a: Addr, i: nat, j: nat, n: nat)
    requires ChunkAt(m, a, i) == ChunkAt(m, a, j)
    ensures ChunkAt(m, a, i + n) == ChunkAt(m, a, j + n)
  {
    hide IsGood;
    if n == 0 {
    } else {
      SameChunksGoOn(m, a, i, j, n - 1);
    }
  }

  /** The first `n` chunks. */
  ghost predicate Met(m: Memory, a: Addr, n: nat, met: set<Addr>) {
    forall c :: c in met ==> exists i: nat :: i < n && ChunkAt(m, a, i) == Some(c)
  }

  lemma MeetOne(m: Memory, a: Addr, n: nat, met: set<Addr>, c: Addr)
    requires Met(m, a, n, met) && ChunkAt(m, a, n) == Some(c)
    ensures Met(m, a, n + 1, met + {c})
    ensures MeetsNoneTwice(m, a) ==> c !in met
  {
    hide ChunkAt;
    forall d | d in met + {c}
      ensures exists i: nat :: i < n + 1 && ChunkAt(m, a, i) == Some(d)
    {
      if d in met {
        var i: nat :| i < n && ChunkAt(m, a, i) == Some(d);
      } else {
        assert ChunkAt(m, a, n) == Some(d);
      }
    }
  }

  /** The chunks from the `n`-th on, which come to an end as there are no more addresses than memory has. */
  lemma {:induction false} ChunksFrom(m: Memory, a: Addr, n: nat, c: Addr, met: set<Addr>) returns (chain: seq<Addr>)
    requires MeetsNoneTwice(m, a) && ChunkAt(m, a, n) == Some(c) && Met(m, a, n, met)
    ensures IsChain(m, c, chain)
    decreases m.Keys - met
  {
    hide IsGood, MeetsNoneTwice, Met;
    ChunkIsInMemory(m, c);
    MeetOne(m, a, n, met, c);
    assert c in m.Keys - met && c !in m.Keys - (met + {c});
    if ChunkAt(m, a, n + 1).None? {
      chain := [c];
    } else {
      var rest := ChunksFrom(m, a, n + 1, ChunkPrevious(m, c), met + {c});
      chain := [c] + rest;
      assert chain[1..] == rest;
    }
  }

  lemma ChunkIsInMemory(m: Memory, a: Addr)
    requires IsGood(m, a)
    ensures a in m
  {
  }

  lemma ChunksDiffer(m: Memory, a: Addr, chain: seq<Addr>, i: nat, j: nat)
    requires IsChain(m, a, chain) && i < j && ChunkAt(m, a, i).Some?
    ensures ChunkAt(m, a, i) != ChunkAt(m, a, j)
  {
    hide IsGood, IsChain;
    ChainHasTheChunks(m, a, chain, i);
    ChainHasTheChunks(m, a, chain, j);
    if ChunkAt(m, a, i) == ChunkAt(m, a, j) {
      SameChunksGoOn(m, a, i, j, |chain| - j);
      ChainHasTheChunks(m, a, chain, |chain|);
      ChainHasTheChunks(m, a, chain, i + |chain| - j);
    }
  }

  lemma ChainMeetsNoneTwice(m: Memory, a: Addr, chain: seq<Addr>)
    requires IsChain(m, a, chain)
    ensures MeetsNoneTwice(m, a)
  {
    hide IsChain, ChunkAt;
    forall i: nat, j: nat | i < j && ChunkAt(m, a, i).Some?
      ensures ChunkAt(m, a, i) != ChunkAt(m, a, j)
    {
      ChunksDiffer(m, a, chain, i, j);
    }
  }

  /** An update comes to an end iff the list of chunks does not lead back to a good chunk. */
  lemma UpdateEndsIff(m: Memory, a: Addr)
    ensures (exists chain :: IsChain(m, a, chain)) <==> MeetsNoneTwice(m, a)
  {
    hide IsGood;
    hide MeetsNoneTwice;
    if chain :| IsChain(m, a, chain) {
      ChainMeetsNoneTwice(m, a, chain);
    }
    if MeetsNoneTwice(m, a) {
      var chain := [];
      if IsGood(m, a) {
        assert ChunkAt(m, a, 0) == Some(a);
        chain := ChunksFrom(m, a, 0, a, {});
      }
      assert IsChain(m, a, chain);
    }
  }

  lemma {:induction false} ZerosAreZero(b: seq<byte>)
    requires forall i :: 0 <= i < |b| ==> b[i] == 0
    ensures LittleEndian(b) == 0
  {
    if b == [] {
    } else {
      ZerosAreZero(b[1..]);
    }
  }

  lemma OneByteNumber(b: seq<byte>)
    requires b != [] && forall i :: 0 < i < |b| ==> b[i] == 0
    ensures LittleEndian(b) == b[0]
  {
    ZerosAreZero(b[1..]);
  }

  /** Two chunks at 16 and 64 that name each other as the previous one. */
  const LOOP: Memory := map i | 16 <= i < 96 ::
    if i == 16 then 64 else if i == 64 then 16 else if i == 24 || i == 72 then 32 else 0

  lemma LoopNeverEnds()
    ensures IsGood(LOOP, 16) && IsGood(LOOP, 64) && ChunkPrevious(LOOP, 16) == 64 && ChunkPrevious(LOOP, 64) == 16
    ensures !exists chain :: IsChain(LOOP, 16, chain)
  {
    OneByteNumber(Read(LOOP, 16, HEADER_SIZE)[..8]);
    OneByteNumber(Read(LOOP, 16, HEADER_SIZE)[8..16]);
    OneByteNumber(Read(LOOP, 64, HEADER_SIZE)[..8]);
    OneByteNumber(Read(LOOP, 64, HEADER_SIZE)[8..16]);
    assert ChunkAt(LOOP, 16, 0) == Some(16);
    assert ChunkAt(LOOP, 16, 1) == Some(64);
    assert ChunkAt(LOOP, 16, 2) == Some(16);
    UpdateEndsIff(LOOP, 16);
  }

  // ---------------------------------------------------------------------
  // Copies agree with memory

  /** Every chunk of the chain has room for its header. */
  ghost predicate Sized(m: Memory, chain: seq<Addr>) {
    forall i :: 0 <= i < |chain| ==> IsGood(m, chain[i]) && HEADER_SIZE <= ChunkSize(m, chain[i])
  }

  predicate InChunk(m: Memory, a: Addr, address: Addr)
    requires IsGood(m, a)
  {
    a <= address < a + ChunkSize(m, a)
  }

  /** No address is in two chunks of the chain. */
  ghost predicate Disjoint(m: Memory, chain: seq<Addr>)
    requires Sized(m, chain)
  {
    forall i, j, address :: 0 <= i < j < |chain| && InChunk(m, chain[i], address) ==> !InChunk(m, chain[j], address)
  }

  /** The copy of a chunk has the size of the chunk in its header, whatever it held before. */
  lemma HeaderIsCopied(m: Memory, a: Addr, data: seq<byte>)
    requires IsGood(m, a) && HEADER_SIZE <= ChunkSize(m, a)
    ensures SizeOf(Overwritten(data, Read(m, a, ChunkSize(m, a)))) == ChunkSize(m, a)
  {
    var bytes := Read(m, a, ChunkSize(m, a));
    assert Overwritten(data, bytes)[8..16] == bytes[8..16] == Read(m, a, HEADER_SIZE)[8..16];
  }

  lemma RestOfChain(m: Memory, chain: seq<Addr>)
    requires Sized(m, chain) && Disjoint(m, chain) && chain != []
    ensures Sized(m, chain[1..]) && Disjoint(m, chain[1..])
  {
  }

  lemma NotInFirst(m: Memory, chain: seq<Addr>, i: nat, address: Addr)
    requires Sized(m, chain) && Disjoint(m, chain) && 0 < i < |chain| && InChunk(m, chain[i], address)
    ensures !InChunk(m, chain[0], address)
  {
  }

  /** The first copy after an update, and what it makes of an address. */
  lemma FirstOfRefreshed(c: Copy, m: Memory, a: Addr, chain: seq<Addr>, address: Addr)
    requires NULL !in m && IsChain(m, a, chain) && chain != [] && Sized(m, chain)
    ensures var c' := Refreshed(c, m, a, chain);
            && (InChunk(m, a, address) ==>
                  && ResolveIn(c', address) == Local(0, address - a) && address - a < |c'.data|
                  && address in m && c'.data[address - a] == m[address])
            && (!InChunk(m, a, address) && c'.previous.Some? ==>
                  ResolveIn(c', address) == Deeper(ResolveIn(c'.previous.value, address)))
            && (|chain| > 1 ==>
                  && IsChain(m, ChunkPrevious(m, a), chain[1..])
                  && c'.previous == Some(Refreshed(c.previous.GetOr(EMPTY), m, ChunkPrevious(m, a), chain[1..])))
  {
    hide SizeOf, PreviousOf;
    var bytes := Read(m, a, ChunkSize(m, a));
    HeaderIsCopied(m, a, c.data);
    if InChunk(m, a, address) {
      assert Overwritten(c.data, bytes)[address - a] == bytes[address - a];
    }
  }

  /**
   After an update, whatever the copy held before, every address of every chunk of the chain resolves to a
   position inside the copy of that chunk, and the byte there is the byte memory had.
   */
  lemma {:induction false} ResolveFindsTheByte(c: Copy, m: Memory, a: Addr, chain: seq<Addr>, i: nat, address: Addr)
    requires NULL !in m && IsChain(m, a, chain) && Sized(m, chain) && Disjoint(m, chain)
    requires i < |chain| && InChunk(m, chain[i], address)
    ensures var c' := Refreshed(c, m, a, chain);
            && ResolveIn(c', address) == Local(i, address - chain[i])
            && Depth(c', i).Some? && address - chain[i] < |Depth(c', i).value.data|
            && address in m && Depth(c', i).value.data[address - chain[i]] == m[address]
    decreases i
  {
    hide Refreshed, ResolveIn, Overwritten, IsGood, Disjoint, ChunkSize, ChunkPrevious;
    FirstOfRefreshed(c, m, a, chain, address);
    if i == 0 {
    } else {
      RestOfChain(m, chain);
      NotInFirst(m, chain, i, address);
      ResolveFindsTheByte(c.previous.GetOr(EMPTY), m, ChunkPrevious(m, a), chain[1..], i - 1, address);
    }
  }

  /** If the structure was fresh, an address outside every chunk of the chain resolves to itself. */
  lemma {:induction false} OutsideStaysRemote(m: Memory, a: Addr, chain: seq<Addr>, address: Addr)
    requires IsChain(m, a, chain) && chain != [] && Sized(m, chain)
    requires forall i :: 0 <= i < |chain| ==> !InChunk(m, chain[i], address)
    ensures ResolveIn(Refreshed(EMPTY, m, a, chain), address) == Remote(address)
    decreases |chain|
  {
    HeaderIsCopied(m, a, []);
    if ChunkPrevious(m, a) == NULL || chain[1..] == [] {
    } else {
      assert forall i :: 0 <= i < |chain[1..]| ==> chain[1..][i] == chain[i + 1];
      OutsideStaysRemote(m, ChunkPrevious(m, a), chain[1..], address);
    }
  }

  /** What was there below the length of the chain: a list that ends properly leaves older copies in place. */
  function Stale(c: Copy, m: Memory, a: Addr, chain: seq<Addr>): Option<Copy>
    requires IsChain(m, a, chain) && chain != []
    decreases |chain|
  {
    if ChunkPrevious(m, a) == NULL then c.previous
    else if chain[1..] == [] then None
    else Stale(c.previous.GetOr(EMPTY), m, ChunkPrevious(m, a), chain[1..])
  }

  /**
   An older copy at the tail still answers for its addresses after the list has ended properly, and does not after the
   next chunk could not be copied.
   */
  lemma StaleAnswers(c: Copy, m: Memory, a: Addr, address: Addr, stale: Copy)
    requires NULL !in m && IsGood(m, a) && HEADER_SIZE <= ChunkSize(m, a) && !InChunk(m, a, address)
    requires c.previous == Some(stale) && IsValidCopy(stale)
    requires stale.origin <= address < stale.origin + SizeOf(stale.data)
    ensures ChunkPrevious(m, a) == NULL ==>
              && IsChain(m, a, [a])
              && ResolveIn(Refreshed(c, m, a, [a]), address) == Local(1, address - stale.origin)
    ensures ChunkPrevious(m, a) != NULL && !IsGood(m, ChunkPrevious(m, a)) ==>
              && IsChain(m, a, [a])
              && ResolveIn(Refreshed(c, m, a, [a]), address) == Remote(address)
  {
    hide SizeOf, PreviousOf, Overwritten;
    assert [a][1..] == [];
    HeaderIsCopied(m, a, c.data);
  }

  function DeeperBy(r: Resolved, n: nat): Resolved {
    match r
    case Local(depth, offset) => Local(depth + n, offset)
    case Remote(_) => r
  }

  /** In general such an address resolves as the stale copies at the tail have it. */
  lemma {:induction false} OutsideFallsThrough(c: Copy, m: Memory, a: Addr, chain: seq<Addr>, address: Addr)
    requires NULL !in m && IsChain(m, a, chain) && chain != [] && Sized(m, chain)
    requires forall i :: 0 <= i < |chain| ==> !InChunk(m, chain[i], address)
    ensures var stale := Stale(c, m, a, chain);
            ResolveIn(Refreshed(c, m, a, chain), address)
              == if stale.Some? then DeeperBy(ResolveIn(stale.value, address), |chain|) else Remote(address)
    decreases |chain|
  {
    HeaderIsCopied(m, a, c.data);
    if ChunkPrevious(m, a) == NULL || chain[1..] == [] {
    } else {
      assert forall i :: 0 <= i < |chain[1..]| ==> chain[1..][i] == chain[i + 1];
      OutsideFallsThrough(c.previous.GetOr(EMPTY), m, ChunkPrevious(m, a), chain[1..], address);
    }
  }
}
