/**
 The page-bounded copy (echion/danger.cc:92-139).  Source memory has a byte at every
 address, but only some of its pages can be read; the destination buffer can be written.
 */
module SafeCopy {
  import opened Bytes

  /** The page an address is on; `p` is the page size. */
  function Page(a: nat, p: nat): nat
    requires p > 0
  {
    if a < p then 0 else 1 + Page(a - p, p)
  }

  /** Its offset in the page: the low bits of the address when `p` is a power of two. */
  function Offset(a: nat, p: nat): (o: nat)
    requires p > 0
    ensures o < p
  {
    if a < p then a else Offset(a - p, p)
  }

  datatype Source = Source(content: int -> byte, readable: set<nat>, pageSize: nat) {
    predicate CanRead(a: nat)
      requires pageSize > 0
    {
      Page(a, pageSize) in readable
    }

    /** The first of the `n` addresses from `src` that cannot be read; `src + n` if all can. */
    function FirstFault(src: nat, n: nat): (m: nat)
      requires pageSize > 0
      ensures src <= m <= src + n && (m < src + n ==> !CanRead(m))
      ensures forall a :: src <= a < m ==> CanRead(a)
      decreases n
    {
      if n == 0 || !CanRead(src) then src else FirstFault(src + 1, n - 1)
    }
  }

  datatype Chunk = Chunk(src: nat, dst: nat, size: nat)

  predicate OnOnePage(start: nat, size: nat, p: nat)
    requires p > 0
  {
    size > 0 && Page(start, p) == Page(start + size - 1, p)
  }

  /** The number of pages that `n` bytes at `start` lie on. */
  function PagesTouched(start: nat, n: nat, p: nat): int
    requires p > 0
  {
    if n == 0 then 0 else Page(start + n - 1, p) - Page(start, p) + 1
  }

  /** Page and offset, against the arithmetic they stand for. */
  lemma {:induction false} PageAndOffset(a: nat, p: nat)
    requires p > 0
    ensures a == Page(a, p) * p + Offset(a, p)
  {
    if a < p {
    } else {
      PageAndOffset(a - p, p);
    }
  }

  lemma {:induction false} SamePage(a: nat, b: nat, p: nat)
    requires p > 0 && a <= b < a + (p - Offset(a, p))
    ensures Page(b, p) == Page(a, p)
  {
    if a < p {
    } else {
      SamePage(a - p, b - p, p);
    }
  }

  lemma {:induction false} NextPage(a: nat, p: nat)
    requires p > 0
    ensures Page(a + (p - Offset(a, p)), p) == Page(a, p) + 1
  {
    if a < p {
    } else {
      NextPage(a - p, p);
    }
  }

  lemma {:induction false} PagesIncrease(a: nat, b: nat, p: nat)
    requires p > 0 && a <= b
    ensures Page(a, p) <= Page(b, p)
  {
    if a < p {
    } else {
      PagesIncrease(a - p, b - p, p);
    }
  }

  /** A chunk that stays within the page of its start. */
  lemma ChunkStays(start: nat, size: nat, p: nat)
    requires p > 0 && 0 < size <= p - Offset(start, p)
    ensures OnOnePage(start, size, p)
    ensures Page(start, p) <= Page(start + size, p)
    ensures size == p - Offset(start, p) ==> Page(start + size, p) == Page(start, p) + 1
  {
    SamePage(start, start + size - 1, p);
    PagesIncrease(start, start + size, p);
    NextPage(start, p);
  }

  /** If the first byte of a page-bounded chunk can be read, the fault is not in the chunk. */
  lemma ChunkDoesNotFault(s: Source, src: nat, n: nat, at: nat, size: nat)
    requires s.pageSize > 0 && src <= at <= s.FirstFault(src, n) && at + size <= src + n
    requires 0 < size <= s.pageSize - Offset(at, s.pageSize) && s.CanRead(at)
    ensures at + size <= s.FirstFault(src, n)
  {
    var m := s.FirstFault(src, n);
    if m < at + size {
      SamePage(at, m, s.pageSize);
    }
  }

  /** The most chunks that the first `done` of `n` bytes can take. */
  function ChunkLimit(src: nat, dst: nat, n: nat, done: nat, p: nat): int
    requires p > 0 && done <= n
  {
    if n == 0 then 0
    else if done < n then Page(src + done, p) - Page(src, p) + Page(dst + done, p) - Page(dst, p)
    else PagesTouched(src, n, p) + PagesTouched(dst, n, p) - 1
  }

  lemma ChunkLimitGrows(src: nat, dst: nat, n: nat, done: nat, size: nat, p: nat)
    requires p > 0 && done + size <= n && 0 < size
    requires size <= p - Offset(src + done, p) && size <= p - Offset(dst + done, p)
    requires size == n - done || size == p - Offset(src + done, p) || size == p - Offset(dst + done, p)
    ensures ChunkLimit(src, dst, n, done, p) + 1 <= ChunkLimit(src, dst, n, done + size, p)
  {
    ChunkStays(src + done, size, p);
    ChunkStays(dst + done, size, p);
    PagesIncrease(src + done, src + n - 1, p);
    PagesIncrease(dst + done, dst + n - 1, p);
  }

  lemma ChunkLimitIsLargestAtTheEnd(src: nat, dst: nat, n: nat, done: nat, p: nat)
    requires p > 0 && done <= n
    ensures ChunkLimit(src, dst, n, done, p) <= ChunkLimit(src, dst, n, n, p)
  {
    if done < n {
      PagesIncrease(src + done, src + n - 1, p);
      PagesIncrease(dst + done, dst + n - 1, p);
    }
  }

  lemma NoChunksYet(src: nat, dst: nat, n: nat, p: nat)
    requires p > 0
    ensures 0 <= ChunkLimit(src, dst, n, 0, p)
  {
  }

  /** `after` is `before` with its first `m` bytes copied from `src`. */
  ghost predicate CopiedUpTo(s: Source, src: nat, m: int, before: seq<byte>, after: seq<byte>) {
    && |after| == |before|
    && forall i :: 0 <= i < |after| ==> after[i] == if i < m then s.content(src + i) else before[i]
  }

  ghost predicate EachOnOnePage(chunks: seq<Chunk>, p: nat)
    requires p > 0
  {
    forall k :: 0 <= k < |chunks| ==>
      OnOnePage(chunks[k].src, chunks[k].size, p) && OnOnePage(chunks[k].dst, chunks[k].size, p)
  }

  /** Copies the bytes at `src + at` to the same place of the destination. */
  method Memcpy(s: Source, src: nat, dst: array<byte>, at: nat, size: nat, ghost before: seq<byte>)
    requires at + size <= dst.Length && CopiedUpTo(s, src, at, before, dst[..])
    modifies dst
    ensures CopiedUpTo(s, src, at + size, before, dst[..])
  {
    forall i | at <= i < at + size {
      dst[i] := s.content(src + i);
    }
  }

  method SafeMemcpy(s: Source, src: nat, dstAddr: nat, dst: array<byte>, n: nat, altStackInstalled: bool)
    returns (copied: int, ghost chunks: seq<Chunk>)
    requires s.pageSize > 0 && n <= dst.Length
    modifies dst
    ensures !altStackInstalled ==> copied == -1 && dst[..] == old(dst[..])
    ensures altStackInstalled ==> copied == if s.FirstFault(src, n) == src + n then n else -1
    ensures altStackInstalled ==> CopiedUpTo(s, src, s.FirstFault(src, n) - src, old(dst[..]), dst[..])
    ensures EachOnOnePage(chunks, s.pageSize)
    ensures |chunks| <= ChunkLimit(src, dstAddr, n, n, s.pageSize)
  {
    hide Page, Offset, ChunkLimit, OnOnePage;
    chunks := [];
    var p := s.pageSize;
    NoChunksYet(src, dstAddr, n, p);
    ChunkLimitIsLargestAtTheEnd(src, dstAddr, n, 0, p);
    if !altStackInstalled {
      return -1, chunks;
    }
    var done := 0;
    var rem := n;
    ghost var before := dst[..];
    while rem > 0
      invariant done + rem == n && src + done <= s.FirstFault(src, n)
      invariant CopiedUpTo(s, src, done, before, dst[..])
      invariant EachOnOnePage(chunks, p)
      invariant |chunks| <= ChunkLimit(src, dstAddr, n, done, p)
    {
      var toSrcPg := p - Offset(src + done, p);
      var toDstPg := p - Offset(dstAddr + done, p);
      var toPg := if toDstPg < toSrcPg then toDstPg else toSrcPg;
      var chunk := if toPg < rem then toPg else rem;
      ChunkLimitIsLargestAtTheEnd(src, dstAddr, n, done, p);
      if !s.CanRead(src + done) {
        return -1, chunks;
      }
      ChunkDoesNotFault(s, src, n, src + done, chunk);
      Memcpy(s, src, dst, done, chunk, before);
      ChunkStays(src + done, chunk, p);
      ChunkStays(dstAddr + done, chunk, p);
      ChunkLimitGrows(src, dstAddr, n, done, chunk, p);
      chunks := chunks + [Chunk(src + done, dstAddr + done, chunk)];
      done := done + chunk;
      rem := rem - chunk;
    }
    return n, chunks;
  }
}
