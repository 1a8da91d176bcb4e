/** The best-fit allocator over real chunk nodes. */
module Allocator {
  import opened Base
  import opened Bits
  import opened Chunks
  import opened LinkedLists

  const K_MEMORY_ALIGN: nat := 32

  /** The nodes hold the chunks cs, in order. */
  ghost predicate Holds(ns: seq<ChunkNode>, cs: seq<Chunk>)
    reads ns`start, ns`size, ns`free
  {
    |ns| == |cs| && forall i {:trigger ns[i]} :: 0 <= i < |ns| ==> ns[i].Value() == cs[i]
  }

  /** s is where best fit places n units: past the padding of the first of the smallest chunks that fit. */
  ghost predicate BestFit(cs: seq<Chunk>, n: nat, page: nat, s: nat)
    requires page > 0
  {
    exists i :: 0 <= i < |cs| && BestIndex(cs, |cs|, n, page, i) && s == cs[i].start + Padding(cs[i].start, page)
  }

  /** Chunk i is the first of the smallest among the fitting chunks before position m. */
  ghost predicate BestIndex(cs: seq<Chunk>, m: nat, n: nat, page: nat, i: nat)
    requires page > 0
  {
    && i < m <= |cs| && Fits(cs[i], n, page)
    && forall j :: 0 <= j < m && Fits(cs[j], n, page) ==>
         cs[i].size <= cs[j].size && (j < i ==> cs[i].size < cs[j].size)
  }

  /** The units that hold so many bytes. */
  function UnitsOf(size: nat): nat {
    (size + K_MEMORY_ALIGN - 1) / K_MEMORY_ALIGN
  }

  /** What size_t arithmetic makes of them. */
  function WordUnits(size: U32): nat {
    ToU32(size + K_MEMORY_ALIGN - 1) / K_MEMORY_ALIGN
  }

  /** The rounding wraps to no units exactly within 31 bytes of 2^32. */
  lemma WrapsIff(size: U32)
    requires size > 0
    ensures WordUnits(size) == UnitsOf(size) <==> size + K_MEMORY_ALIGN - 1 < WORD32
    ensures WordUnits(size) == 0 <==> size + K_MEMORY_ALIGN - 1 >= WORD32
  {}

  lemma UnitsPerPage(k: nat)
    requires k >= 5
    ensures Pow2(k) == K_MEMORY_ALIGN * Pow2(k - 5) && Pow2(k) / K_MEMORY_ALIGN == Pow2(k - 5)
  {
    assert Pow2(5) == K_MEMORY_ALIGN;
    Pow2Sum(5, k - 5);
  }

  /** A start on a unit page boundary is a byte offset on a page boundary. */
  lemma PageOffset(s: nat, k: nat)
    requires k >= 5 && s % Pow2(k - 5) == 0
    ensures (s * K_MEMORY_ALIGN) % Pow2(k) == 0
  {
    UnitsPerPage(k);
    var p := Pow2(k - 5);
    assert s == p * (s / p);
    DivModUnique(s * K_MEMORY_ALIGN, K_MEMORY_ALIGN * p, s / p, 0);
  }

  lemma HoldsInserted(ns: seq<ChunkNode>, cs: seq<Chunk>, k: nat, x: ChunkNode, c: Chunk)
    requires Holds(ns, cs) && k <= |ns| && x.Value() == c
    ensures Holds(Inserted(ns, k, x), Inserted(cs, k, c))
  {}

  lemma HoldsRemoved(ns: seq<ChunkNode>, cs: seq<Chunk>, k: nat)
    requires Holds(ns, cs) && k < |ns|
    ensures Holds(Removed(ns, k), Removed(cs, k))
  {}

  /** The chunk sequence of a heap of `bytes` bytes with pages of 2^bits bytes. */
  ghost predicate HeapForm(cs: seq<Chunk>, bytes: nat, bits: nat) {
    && 5 <= bits < 31
    && bytes < INT_LIMIT && bytes % Pow2(bits) == 0
    && (bytes == 0 ==> cs == [])
    && (bytes > 0 ==> Canonical(cs, 0, bytes / K_MEMORY_ALIGN, Pow2(bits - 5)))
  }

  /** (size + pagesize - 1) & ~(pagesize - 1): the least multiple of the page size holding size, or zero
      when the sum wraps. */
  method RoundUpToPage(size: U32, k: nat) returns (h: U32)
    requires k < 31
    ensures h % Pow2(k) == 0
    ensures size + Pow2(k) - 1 < WORD32 ==> size <= h < size + Pow2(k)
    ensures size + Pow2(k) - 1 >= WORD32 ==> h == 0
  {
    var a := ToU32(size + Pow2(k) - 1);
    MaskRounds(a, k);
    h := And(a, Not(Pow2(k) - 1));
    Rounded(size, Pow2(k), a, h);
  }

  lemma MaskRounds(a: U32, k: nat)
    requires k < 31
    ensures 0 < Pow2(k) <= WORD32 && And(a, Not(Pow2(k) - 1)) == a - a % Pow2(k)
  {
    WordIsPow2();
    AndHighMask(a, k, WORD_BITS);
  }

  lemma Rounded(size: U32, p: nat, a: U32, h: int)
    requires 0 < p <= WORD32 && a == ToU32(size + p - 1) && h == a - a % p
    ensures h % p == 0 && if size + p - 1 < WORD32 then size <= h < size + p else h == 0
  {
    MultipleBelow(a, p);
    if size + p - 1 >= WORD32 { SmallSum(size + p - 1, p); }
  }

  lemma SmallSum(sum: nat, p: nat)
    requires 0 < p <= WORD32 <= sum < WORD32 + p - 1
    ensures ToU32(sum) == sum - WORD32 && ToU32(sum) % p == ToU32(sum)
  {
    DivModUnique(sum, WORD32, 1, sum - WORD32);
    DivModUnique(sum - WORD32, p, 0, sum - WORD32);
  }

  lemma MultipleBelow(a: nat, p: nat)
    requires p > 0
    ensures a - p < a - a % p <= a && (a - a % p) % p == 0
  {
    assert a - a % p == p * (a / p);
    DivModUnique(a - a % p, p, a / p, 0);
  }

  /** -start & (pagesize/32 - 1) */
  method PagePadding(start: nat, bits: nat) returns (extra: nat)
    requires 5 <= bits < 31 && start < WORD32
    ensures extra == Padding(start, Pow2(bits - 5))
  {
    UnitsPerPage(bits);
    PaddingMask(start, bits - 5);
    extra := And(Neg(start), Pow2(bits) / K_MEMORY_ALIGN - 1);
  }

  /** What an allocation promises of the chunks before and after it. */
  ghost predicate AllocateSpec(before: seq<Chunk>, after: seq<Chunk>, bytes: nat, bits: nat, size: nat, r: int)
    requires bits >= 5
  {
    var heap, page, n := bytes / K_MEMORY_ALIGN, Pow2(bits - 5), UnitsOf(size);
    if bytes == 0 then r == -EINVAL && after == before
    else if size == 0 then r == 0 && after == before
    else
      && (r == -ENOMEM <==> !SomeFreeRun(before, heap, page, n))
      && (r == -ENOMEM ==> after == before)
      && (r != -ENOMEM ==>
            && r >= 0 && r % Pow2(bits) == 0
            && Allocated(before, after, heap, page, n, r / K_MEMORY_ALIGN)
            && BestFit(before, n, page, r / K_MEMORY_ALIGN))
  }

  /** What a release promises. */
  ghost predicate DeallocateSpec(before: seq<Chunk>, after: seq<Chunk>, bytes: nat, bits: nat, offset: nat, r: int)
    requires bits >= 5
  {
    if bytes == 0 then r == -EINVAL && after == before
    else
      && r == (if StartsChunk(before, offset / K_MEMORY_ALIGN) then 0 else -ENOENT)
      && (r == -ENOENT ==> after == before)
      && Released(before, after, bytes / K_MEMORY_ALIGN, Pow2(bits - 5), offset / K_MEMORY_ALIGN)
  }

  // ---- In bytes ----

  /** As few units as hold so many bytes. */
  lemma UnitsHoldBytes(size: nat)
    ensures UnitsOf(size) * K_MEMORY_ALIGN - K_MEMORY_ALIGN < size <= UnitsOf(size) * K_MEMORY_ALIGN
  {}

  /** [o, o + size) lies on a page boundary inside a heap of `bytes` bytes and touches no byte of a live block. */
  ghost predicate BytesFree(live: set<Block>, bytes: nat, pageBytes: nat, size: nat, o: nat)
    requires pageBytes > 0
  {
    && o % pageBytes == 0 && o + size <= bytes
    && forall b :: b in live ==>
         (b.start + b.size) * K_MEMORY_ALIGN <= o || o + size <= b.start * K_MEMORY_ALIGN
  }

  /** Rounding up to whole units costs nothing: every border is a multiple of a unit. */
  lemma FitsInUnits(o: nat, size: nat, units: nat)
    requires o % K_MEMORY_ALIGN == 0
    ensures o + size <= units * K_MEMORY_ALIGN <==> o / K_MEMORY_ALIGN + UnitsOf(size) <= units
    ensures units * K_MEMORY_ALIGN <= o <==> units <= o / K_MEMORY_ALIGN
  {}

  lemma PageIsUnits(o: nat, bits: nat)
    requires bits >= 5
    ensures o % Pow2(bits) == 0 <==> o % K_MEMORY_ALIGN == 0 && o / K_MEMORY_ALIGN % Pow2(bits - 5) == 0
  {
    UnitsPerPage(bits);
    var p, s, r := Pow2(bits - 5), o / K_MEMORY_ALIGN, o % K_MEMORY_ALIGN;
    assert s == p * (s / p) + s % p;
    Distribute(p * (s / p), s % p, K_MEMORY_ALIGN);
    Associate(K_MEMORY_ALIGN, p, s / p);
    DivModUnique(o, K_MEMORY_ALIGN * p, s / p, (s % p) * K_MEMORY_ALIGN + r);
  }

  lemma FreeInUnits(live: set<Block>, bytes: nat, bits: nat, size: nat, o: nat)
    requires bits >= 5 && bytes % K_MEMORY_ALIGN == 0
    ensures BytesFree(live, bytes, Pow2(bits), size, o)
       <==> o % K_MEMORY_ALIGN == 0
            && FreeRun(live, bytes / K_MEMORY_ALIGN, Pow2(bits - 5), UnitsOf(size), o / K_MEMORY_ALIGN)
  {
    PageIsUnits(o, bits);
    if o % K_MEMORY_ALIGN == 0 {
      FitsInUnits(o, size, bytes / K_MEMORY_ALIGN);
      forall b | b in live
        ensures (b.start + b.size) * K_MEMORY_ALIGN <= o <==> b.start + b.size <= o / K_MEMORY_ALIGN
        ensures o + size <= b.start * K_MEMORY_ALIGN <==> o / K_MEMORY_ALIGN + UnitsOf(size) <= b.start
      {
        FitsInUnits(o, size, b.start + b.size);
        FitsInUnits(o, size, b.start);
      }
    }
  }

  /** What an allocation says in bytes: it is refused exactly when no page-aligned range of that many bytes is
      free, and otherwise the client gets such a range. */
  ghost predicate BytesSpec(before: seq<Chunk>, after: seq<Chunk>, bytes: nat, bits: nat, size: nat, r: int) {
    && (r == -ENOMEM <==> !exists o :: BytesFree(Live(before), bytes, Pow2(bits), size, o))
    && (r != -ENOMEM ==>
          && r >= 0 && BytesFree(Live(before), bytes, Pow2(bits), size, r)
          && exists b :: Live(after) == Live(before) + {b} && Covers(b, r, size))
  }

  /** b is the smallest block that holds the bytes [o, o + size). */
  predicate Covers(b: Block, o: nat, size: nat) {
    b.start * K_MEMORY_ALIGN == o && b.size * K_MEMORY_ALIGN - K_MEMORY_ALIGN < size <= b.size * K_MEMORY_ALIGN
  }

  lemma AllocatesBytes(before: seq<Chunk>, after: seq<Chunk>, bytes: nat, bits: nat, size: nat, r: int)
    requires HeapForm(before, bytes, bits) && bytes > 0 && size > 0
    requires AllocateSpec(before, after, bytes, bits, size, r)
    ensures BytesSpec(before, after, bytes, bits, size, r)
  {
    var live, heap, page, n := Live(before), bytes / K_MEMORY_ALIGN, Pow2(bits - 5), UnitsOf(size);
    PageIsUnits(bytes, bits);
    if o :| BytesFree(live, bytes, Pow2(bits), size, o) {
      FreeInUnits(live, bytes, bits, size, o);
      assert SomeFreeRun(before, heap, page, n);
    }
    if s: nat :| FreeRun(live, heap, page, n, s) {
      assert s * K_MEMORY_ALIGN / K_MEMORY_ALIGN == s;
      FreeInUnits(live, bytes, bits, size, s * K_MEMORY_ALIGN);
    }
    if r != -ENOMEM {
      PageIsUnits(r, bits);
      FreeInUnits(live, bytes, bits, size, r);
      assert Covers(Block(r / K_MEMORY_ALIGN, n), r, size) by { UnitsHoldBytes(size); }
    }
  }

  ghost predicate NoneFits(cs: seq<Chunk>, m: nat, n: nat, page: nat)
    requires page > 0 && m <= |cs|
  {
    forall j :: 0 <= j < m ==> !Fits(cs[j], n, page)
  }

  lemma InsertedBetween<T>(a: seq<T>, b: seq<T>, x: T)
    ensures Inserted(a + b, |a|, x) == a + [x] + b
  {}

  /** The chunk in use, behind its padding if there is any. */
  function Front(c: Chunk, n: nat, pad: nat): seq<Chunk> {
    (if pad > 0 then [Chunk(c.start, pad, true)] else []) + [Chunk(c.start + pad, n, false)]
  }

  lemma PaddedIsFront(cs: seq<Chunk>, f: nat, n: nat, pad: nat)
    requires f < |cs|
    ensures Padded(cs, f, n, pad) == cs[..f] + Front(cs[f], n, pad) + cs[f + 1..]
  {
    var used, before, behind := Chunk(cs[f].start + pad, n, false), cs[..f], cs[f + 1..];
    UpdateIsConcat(cs, f, used);
    if pad > 0 {
      InsertedBetween(before, [used] + behind, Chunk(cs[f].start, pad, true));
      Regroup(before, Chunk(cs[f].start, pad, true), used, behind);
    }
  }

  lemma UpdateIsConcat<T>(s: seq<T>, f: nat, x: T)
    requires f < |s|
    ensures s[f := x] == s[..f] + ([x] + s[f + 1..]) == s[..f] + ([] + [x]) + s[f + 1..]
  {}

  lemma Regroup<T>(a: seq<T>, x: T, y: T, b: seq<T>)
    ensures a + [x] + ([y] + b) == a + ([x] + [y]) + b
  {}

  /** The chunk in use stands behind its padding. */
  lemma UsedAt(cs: seq<Chunk>, f: nat, n: nat, pad: nat)
    requires f < |cs|
    ensures var p, k := Padded(cs, f, n, pad), if pad > 0 then f + 1 else f;
      k < |p| && p[k] == Chunk(cs[f].start + pad, n, false)
  {}

  /** Carving is updating the chunk, then inserting the padding before it and the rest behind it. */
  lemma CarvedInSteps(cs: seq<Chunk>, f: nat, n: nat, pad: nat)
    requires f < |cs| && cs[f].size >= n + pad
    ensures Carved(cs, f, n, pad) == WithRest(cs, f, n, pad)
  {
    UsedAt(cs, f, n, pad);
    PaddedIsFront(cs, f, n, pad);
    var tail := cs[f].size - (n + pad);
    var rest := if tail > 0 then [Chunk(cs[f].start + pad + n, tail, true)] else [];
    assert Pieces(cs[f], n, pad) == Front(cs[f], n, pad) + rest;
    Behind(cs[..f], Front(cs[f], n, pad), cs[f + 1..], rest);
  }

  /** What is inserted behind the front stands between it and the rest of the list. */
  lemma Behind(before: seq<Chunk>, front: seq<Chunk>, behind: seq<Chunk>, rest: seq<Chunk>)
    ensures before + (front + rest) + behind == before + front + rest + behind
    ensures |rest| == 0 ==> before + front + rest + behind == before + front + behind
    ensures |rest| == 1 ==>
              before + front + rest + behind == Inserted(before + front + behind, |before + front|, rest[0])
  {
    if |rest| == 1 {
      InsertedBetween(before + front, behind, rest[0]);
      assert rest == [rest[0]];
    }
  }

  function Padded(cs: seq<Chunk>, f: nat, n: nat, pad: nat): seq<Chunk>
    requires f < |cs|
  {
    var c := cs[f];
    if pad > 0 then Inserted(cs[f := Chunk(c.start + pad, n, false)], f, Chunk(c.start, pad, true))
    else cs[f := Chunk(c.start, n, false)]
  }

  /** Chunk f starts later. */
  function Shifted(cs: seq<Chunk>, f: nat, extra: nat): seq<Chunk>
    requires f < |cs|
  {
    cs[f := cs[f].(start := cs[f].start + extra)]
  }

  /** The list with a free chunk of `tail` units, if there are any, behind chunk k. */
  function Tailed(cs: seq<Chunk>, k: nat, tail: nat): seq<Chunk>
    requires k < |cs|
  {
    if tail > 0 then Inserted(cs, k + 1, Chunk(cs[k].End(), tail, true)) else cs
  }

  function WithRest(cs: seq<Chunk>, f: nat, n: nat, pad: nat): seq<Chunk>
    requires f < |cs| && cs[f].size >= n + pad
  {
    Tailed(Padded(cs, f, n, pad), if pad > 0 then f + 1 else f, cs[f].size - (n + pad))
  }

  /** Every call of the allocator is a step of a heap history. */
  lemma AllocateIsStep(before: seq<Chunk>, after: seq<Chunk>, bytes: nat, bits: nat, size: nat, r: int)
    requires HeapForm(before, bytes, bits) && bytes > 0 && AllocateSpec(before, after, bytes, bits, size, r)
    ensures Step(before, Op.Alloc(UnitsOf(size)), after, Pow2(bits - 5))
  {
    var heap, page, n := bytes / K_MEMORY_ALIGN, Pow2(bits - 5), UnitsOf(size);
    if size > 0 {
      assert n > 0;
      FitIffFreeRun(before, heap, page, n);
      if r != -ENOMEM {
        var s := r / K_MEMORY_ALIGN;
        var f :| 0 <= f < |before| && BestIndex(before, |before|, n, page, f)
              && s == before[f].start + Padding(before[f].start, page);
        AllocatedIsCarved(before, after, heap, page, n, f);
      }
    }
  }

  lemma DeallocateIsStep(before: seq<Chunk>, after: seq<Chunk>, bytes: nat, bits: nat, offset: nat, r: int)
    requires HeapForm(before, bytes, bits) && bytes > 0 && DeallocateSpec(before, after, bytes, bits, offset, r)
    ensures Step(before, Op.Release(offset / K_MEMORY_ALIGN), after, Pow2(bits - 5))
  {
    ReleaseStepIff(before, offset / K_MEMORY_ALIGN, after, bytes / K_MEMORY_ALIGN, Pow2(bits - 5));
  }

  /** Deallocating what was just allocated restores the heap chunk for chunk. */
  lemma DeallocateUndoesAllocate(before: seq<Chunk>, mid: seq<Chunk>, after: seq<Chunk>, bytes: nat, bits: nat,
                                 size: nat, r: int, d: int)
    requires HeapForm(before, bytes, bits) && bytes > 0 && size > 0 && r >= 0
    requires AllocateSpec(before, mid, bytes, bits, size, r) && DeallocateSpec(mid, after, bytes, bits, r, d)
    ensures after == before && d == 0
  {
    var heap, page, s := bytes / K_MEMORY_ALIGN, Pow2(bits - 5), r / K_MEMORY_ALIGN;
    ReleaseUndoesAllocation(before, mid, after, heap, page, UnitsOf(size), s);
    var i := LiveIndex(mid, Block(s, UnitsOf(size)));
  }

  /** Of the chunks before position m, f is the best that fits, or none does. */
  ghost predicate Scanned(cs: seq<Chunk>, m: nat, n: nat, page: nat, found: bool, f: nat)
    requires page > 0
  {
    m <= |cs| && if found then BestIndex(cs, m, n, page, f) else NoneFits(cs, m, n, page)
  }

  /** The next chunk is taken if it fits and is smaller than the best so far. */
  lemma ScannedNext(cs: seq<Chunk>, m: nat, n: nat, page: nat, found: bool, f: nat)
    requires page > 0 && m < |cs| && Scanned(cs, m, n, page, found, f)
    ensures if Fits(cs[m], n, page) && (!found || cs[m].size < cs[f].size) then Scanned(cs, m + 1, n, page, true, m)
            else Scanned(cs, m + 1, n, page, found, f)
  {}

  /** An exact fit cannot be bettered further down the list. */
  lemma StopEarly(cs: seq<Chunk>, m: nat, n: nat, page: nat, f: nat)
    requires page > 0 && m <= |cs| && BestIndex(cs, m, n, page, f) && cs[f].size <= n
    ensures BestIndex(cs, |cs|, n, page, f)
  {}

  lemma NoFit(cs: seq<Chunk>, bytes: nat, bits: nat, size: nat)
    requires HeapForm(cs, bytes, bits) && bytes > 0 && size > 0
    requires !SomeChunkFits(cs, UnitsOf(size), Pow2(bits - 5))
    ensures AllocateSpec(cs, cs, bytes, bits, size, -ENOMEM)
  {
    FitIffFreeRun(cs, bytes / K_MEMORY_ALIGN, Pow2(bits - 5), UnitsOf(size));
  }

  lemma CarveFits(cs: seq<Chunk>, after: seq<Chunk>, bytes: nat, bits: nat, f: nat, size: nat, s: nat)
    requires HeapForm(cs, bytes, bits) && bytes > 0 && size > 0
    requires BestIndex(cs, |cs|, UnitsOf(size), Pow2(bits - 5), f)
    requires s == cs[f].start + Padding(cs[f].start, Pow2(bits - 5))
    requires after == Carved(cs, f, UnitsOf(size), Padding(cs[f].start, Pow2(bits - 5)))
    ensures HeapForm(after, bytes, bits) && AllocateSpec(cs, after, bytes, bits, size, s * K_MEMORY_ALIGN)
  {
    var heap, page, n := bytes / K_MEMORY_ALIGN, Pow2(bits - 5), UnitsOf(size);
    InRange(cs, 0, heap, f);
    CarveIsAllocation(cs, heap, page, f, n);
    FitIffFreeRun(cs, heap, page, n);
    PaddingIsLeast(cs[f].start, page);
    PageOffset(s, bits);
    assert (s * K_MEMORY_ALIGN) / K_MEMORY_ALIGN == s;
  }

  /** n units were carved out of the best-fitting chunk f, at byte offset r. */
  ghost predicate Placed(before: seq<Chunk>, after: seq<Chunk>, page: nat, n: nat, f: nat, r: int)
    requires page > 0
  {
    && BestIndex(before, |before|, n, page, f)
    && after == WithRest(before, f, n, Padding(before[f].start, page))
    && r == (before[f].start + Padding(before[f].start, page)) * K_MEMORY_ALIGN
  }

  lemma PlacedFits(before: seq<Chunk>, after: seq<Chunk>, bytes: nat, bits: nat, f: nat, size: nat, r: int)
    requires HeapForm(before, bytes, bits) && bytes > 0 && size > 0
    requires Placed(before, after, Pow2(bits - 5), UnitsOf(size), f, r)
    ensures HeapForm(after, bytes, bits) && AllocateSpec(before, after, bytes, bits, size, r)
  {
    var pad := Padding(before[f].start, Pow2(bits - 5));
    CarvedInSteps(before, f, UnitsOf(size), pad);
    CarveFits(before, after, bytes, bits, f, size, before[f].start + pad);
  }

  /** Carving no units leaves a chunk in use that has none. */
  lemma NothingPlaced(before: seq<Chunk>, after: seq<Chunk>, bytes: nat, bits: nat, f: nat, r: int)
    requires HeapForm(before, bytes, bits) && bytes > 0 && Placed(before, after, Pow2(bits - 5), 0, f, r)
    ensures !HeapForm(after, bytes, bits)
  {
    UsedAt(before, f, 0, Padding(before[f].start, Pow2(bits - 5)));
    var k := if Padding(before[f].start, Pow2(bits - 5)) > 0 then f + 1 else f;
    assert after[k].size == 0;
  }

  /** What alloc does to the list: nothing, or a carving of the best-fitting chunk f. */
  ghost predicate Tried(before: seq<Chunk>, after: seq<Chunk>, page: nat, size: U32, f: nat, r: int)
    requires page > 0
  {
    if size == 0 then r == 0 && after == before
    else if r == -ENOMEM then after == before && !SomeChunkFits(before, WordUnits(size), page)
    else Placed(before, after, page, WordUnits(size), f, r)
  }

  /** That meets the contract of an allocation, unless the request wraps to no units and is granted. */
  lemma Settled(before: seq<Chunk>, after: seq<Chunk>, bytes: nat, bits: nat, size: U32, f: nat, r: int)
    requires HeapForm(before, bytes, bits) && bytes > 0 && Tried(before, after, Pow2(bits - 5), size, f, r)
    ensures size + K_MEMORY_ALIGN - 1 < WORD32 ==> AllocateSpec(before, after, bytes, bits, size, r)
    ensures HeapForm(after, bytes, bits)
       <==> size + K_MEMORY_ALIGN - 1 < WORD32 || !SomeChunkFits(before, 0, Pow2(bits - 5))
  {
    if size > 0 {
      WrapsIff(size);
      if size + K_MEMORY_ALIGN - 1 >= WORD32 {
        if r != -ENOMEM { NothingPlaced(before, after, bytes, bits, f, r); }
      } else if r == -ENOMEM {
        NoFit(before, bytes, bits, size);
      } else {
        PlacedFits(before, after, bytes, bits, f, size, r);
      }
    }
  }

  /** It happens: the largest request, on a free heap of one page of 4096 bytes. */
  lemma WrappedRequestBreaksHeap()
    ensures var cs, broken := [Chunk(0, 128, true)], [Chunk(0, 0, false), Chunk(0, 128, true)];
      HeapForm(cs, 4096, 12) && Tried(cs, broken, Pow2(7), WORD32 - 1, 0, 0) && !HeapForm(broken, 4096, 12)
  {
    var cs, broken := [Chunk(0, 128, true)], [Chunk(0, 0, false), Chunk(0, 128, true)];
    assert Pow2(12) == 4096 && Pow2(7) == 128;
    assert Fits(cs[0], 0, 128) && WordUnits(WORD32 - 1) == 0;
    assert Padded(cs, 0, 0, 0) == [Chunk(0, 0, false)] && WithRest(cs, 0, 0, 0) == broken;
    assert broken[0].size == 0;
  }

  lemma StartInWord(cs: seq<Chunk>, bytes: nat, bits: nat, i: nat)
    requires HeapForm(cs, bytes, bits) && bytes > 0 && i < |cs|
    ensures cs[i].start < WORD32 && cs[i].End() < SIZE_FIELD
  {
    InRange(cs, 0, bytes / K_MEMORY_ALIGN, i);
  }

  lemma HeapBound(cs: seq<Chunk>, bytes: nat, bits: nat)
    requires HeapForm(cs, bytes, bits) && bytes > 0
    ensures bytes / K_MEMORY_ALIGN < SIZE_FIELD
  {}

  lemma SmallMultiple(a: nat, p: nat)
    requires p > 0 && a > 0 && a % p == 0
    ensures a >= p
  {
    if a < p { DivModUnique(a, p, 0, a); }
  }

  lemma WholeHeap(bytes: nat, bits: nat)
    requires 5 <= bits < 31 && 0 < bytes < INT_LIMIT && bytes % Pow2(bits) == 0
    ensures bytes / K_MEMORY_ALIGN < SIZE_FIELD
    ensures HeapForm([Chunk(0, bytes / K_MEMORY_ALIGN, true)], bytes, bits)
  {
    UnitsPerPage(bits);
    SmallMultiple(bytes, Pow2(bits));
  }

  /** ms is cs with chunks lo..hi melted around chunk k, so far. */
  ghost predicate Melting(cs: seq<Chunk>, ms: seq<Chunk>, lo: nat, k: nat, hi: nat) {
    MeltsBelow(cs, lo, k, hi) && ms == Melt(cs, lo, hi)
  }

  /** What stands at and behind the melted chunk. */
  ghost predicate MeltedFits(cs: seq<Chunk>, ms: seq<Chunk>, lo: nat, hi: nat) {
    && lo < |ms| && ms[lo].free
    && (lo + 1 < |ms| <==> hi < |cs|)
    && (lo + 1 < |ms| && hi < |cs| ==> ms[lo + 1] == cs[hi])
  }

  lemma MeltedAt(cs: seq<Chunk>, ms: seq<Chunk>, heap: nat, lo: nat, k: nat, hi: nat)
    requires Tiling(cs, 0, heap) && Melting(cs, ms, lo, k, hi)
    ensures MeltedFits(cs, ms, lo, hi)
  {
    MeltAt(cs, heap, lo, hi);
  }

  /** The first turn melts the freed chunk into a free predecessor. */
  lemma MeltBegins(cs: seq<Chunk>, heap: nat, k: nat)
    requires Tiling(cs, 0, heap) && k < |cs|
    ensures var ms := cs[k := cs[k].(free := true)];
      && ms[k].size > 0
      && if k > 0 && cs[k - 1].free then
           ms[k - 1].free && ms[k - 1].size + ms[k].size <= heap && Melting(cs, Absorbed(ms, k - 1), k - 1, k, k + 1)
         else (k > 0 ==> !ms[k - 1].free) && Melting(cs, ms, k, k, k + 1)
  {
    assert cs[k := cs[k].(free := true)] == Melt(cs, k, k + 1);
    if k > 0 {
      assert cs[k - 1].End() == cs[k].start;
      if cs[k - 1].free {
        MeltUp(cs, heap, k, k + 1);
        if k > 1 { assert cs[k - 2].End() == cs[k - 1].start; }
      }
    }
  }

  /** Every further turn melts the next free chunk into it. */
  lemma MeltGoesOn(cs: seq<Chunk>, ms: seq<Chunk>, heap: nat, lo: nat, k: nat, hi: nat)
    requires Tiling(cs, 0, heap) && Melting(cs, ms, lo, k, hi) && hi < |cs| && cs[hi].free
    ensures lo + 1 < |ms| && ms[lo].free && ms[lo + 1].size > 0 && ms[lo].size + ms[lo + 1].size <= heap
    ensures Melting(cs, Absorbed(ms, lo), lo, k, hi + 1) && MeltedFits(cs, Absorbed(ms, lo), lo, hi + 1)
  {
    MeltAt(cs, heap, lo, hi);
    MeltDown(cs, heap, lo, hi);
    MeltedAt(cs, Absorbed(ms, lo), heap, lo, k, hi + 1);
  }

  class SimpleBestFitAllocator {
    const pageBits: nat
    const mList: LinkedList
    var mHeapSize: nat
    /** The chunks of the heap, in address order. */
    ghost var cells: seq<Chunk>
    /** Every node that is or was linked: the footprint of the list. */
    ghost var pool: set<ChunkNode>

    /** Units per page. */
    ghost function Page(): (p: nat)
      ensures p > 0
    {
      Pow2(if pageBits >= 5 then pageBits - 5 else 0)
    }

    ghost function Heap(): nat
      reads this
    {
      mHeapSize / K_MEMORY_ALIGN
    }

    /** The list is well linked and its nodes hold the chunks. */
    ghost predicate Linked()
      reads this, mList, pool, mList.nodes
    {
      && mList.Valid() && Holds(mList.nodes, cells)
      && forall i :: 0 <= i < |mList.nodes| ==> mList.nodes[i] in pool
    }

    ghost predicate Valid()
      reads this, mList, pool, mList.nodes
    {
      Linked() && HeapForm(cells, mHeapSize, pageBits)
    }

    constructor (pageBits: nat)
      requires 5 <= pageBits < 31
      ensures Valid() && mHeapSize == 0 && this.pageBits == pageBits && fresh(mList) && pool == {}
    {
      this.pageBits := pageBits;
      mHeapSize := 0;
      mList := new LinkedList();
      cells := [];
      pool := {};
    }

    /** Sizes the heap once. A size of zero, or one that wraps when rounded, leaves the heap unsized with
        a chunk of no units in its list; from 2^31 bytes on, offsets could come back negative. */
    method SetSize(size: U32) returns (r: int)
      requires Valid()
      modifies this, mList, pool
      ensures fresh(pool - old(pool))
      ensures Valid() <==> old(mHeapSize) != 0 || 0 < mHeapSize < INT_LIMIT
      ensures old(mHeapSize) != 0 ==> r == -EINVAL && mHeapSize == old(mHeapSize) && cells == old(cells)
      ensures old(mHeapSize) == 0 ==>
                && r == ToInt(size) && cells == [Chunk(0, Heap(), true)] && mHeapSize % Pow2(pageBits) == 0
                && (size + Pow2(pageBits) - 1 < WORD32 ==> size <= mHeapSize < size + Pow2(pageBits))
                && (size + Pow2(pageBits) - 1 >= WORD32 ==> mHeapSize == 0)
    {
      if mHeapSize != 0 { return -EINVAL; }
      mHeapSize := RoundUpToPage(size, pageBits);
      FirstChunk(mHeapSize / K_MEMORY_ALIGN);
      if 0 < mHeapSize < INT_LIMIT {
        WholeHeap(mHeapSize, pageBits);
        assert HeapForm(cells, mHeapSize, pageBits);
      }
      return ToInt(size);
    }

    method FirstChunk(units: nat)
      requires Linked() && cells == [] && units < SIZE_FIELD
      modifies this`cells, this`pool, mList
      ensures Linked() && fresh(pool - old(pool)) && cells == [Chunk(0, units, true)]
    {
      var node := new ChunkNode(0, units);
      mList.InsertHead(node);
      cells := [Chunk(0, units, true)];
      assert node.Value() == cells[0];
      pool := pool + {node};
    }

    /** A request within 31 bytes of 2^32 wraps to no units; if a chunk takes it, the list is left with
        a chunk in use that has no units. */
    method Allocate(size: U32, flags: nat) returns (r: int)
      requires Valid()
      modifies this`cells, this`pool, mList, pool
      ensures fresh(pool - old(pool))
      ensures size + K_MEMORY_ALIGN - 1 < WORD32 ==>
                Valid() && AllocateSpec(old(cells), cells, mHeapSize, pageBits, size, r)
      ensures 0 < size && size + K_MEMORY_ALIGN - 1 < WORD32 && mHeapSize > 0 ==>
                BytesSpec(old(cells), cells, mHeapSize, pageBits, size, r)
      ensures Valid()
         <==> size + K_MEMORY_ALIGN - 1 < WORD32 || mHeapSize == 0 || !SomeChunkFits(old(cells), 0, Page())
    {
      if mHeapSize == 0 { return -EINVAL; }
      ghost var before, f := cells, 0;
      r, f := Alloc(size, flags);
      Settled(before, cells, mHeapSize, pageBits, size, f, r);
      if 0 < size && size + K_MEMORY_ALIGN - 1 < WORD32 {
        AllocatesBytes(before, cells, mHeapSize, pageBits, size, r);
      }
    }

    method Deallocate(offset: nat) returns (r: int)
      requires Valid()
      modifies this`cells, this`pool, mList, pool
      ensures Valid()
      ensures fresh(pool - old(pool))
      ensures DeallocateSpec(old(cells), cells, mHeapSize, pageBits, offset, r)
    {
      if mHeapSize == 0 { return -EINVAL; }
      var freed := Dealloc(offset);
      if freed != null { return 0; }
      return -ENOENT;
    }

    /** Carves the request out of the best-fitting chunk f, if any chunk fits. */
    method Alloc(size: U32, flags: nat) returns (r: int, ghost f: nat)
      requires Valid() && mHeapSize > 0
      modifies this`cells, this`pool, mList, pool
      ensures Linked() && fresh(pool - old(pool))
      ensures Tried(old(cells), cells, Page(), size, f, r)
    {
      f := 0;
      if size == 0 { return 0, f; }
      var n := ToU32(size + K_MEMORY_ALIGN - 1) / K_MEMORY_ALIGN;
      var free_chunk;
      free_chunk, f := Scan(n);
      if free_chunk == null { return -ENOMEM, f; }
      StartInWord(cells, mHeapSize, pageBits, f);
      var extra := PagePadding(free_chunk.start, pageBits);
      Carve(free_chunk, f, n, extra);
      return free_chunk.start * K_MEMORY_ALIGN, f;
    }

    /** The scanning loop of alloc. */
    method Scan(n: nat) returns (free_chunk: ChunkNode?, ghost f: nat)
      requires Valid() && mHeapSize > 0
      ensures free_chunk == null ==> !SomeChunkFits(cells, n, Page())
      ensures free_chunk != null ==> BestIndex(cells, |cells|, n, Page(), f) && free_chunk == mList.nodes[f]
    {
      free_chunk, f := null, 0;
      var cur := mList.mFirst;
      ghost var i := 0;
      while cur != null
        invariant i <= |cells| && cur == At(mList.nodes, i)
        invariant Scanned(cells, i, n, Page(), free_chunk != null, f)
        invariant free_chunk != null ==> free_chunk == mList.nodes[f]
        decreases |cells| - i
      {
        StartInWord(cells, mHeapSize, pageBits, i);
        var extra := PagePadding(cur.start, pageBits);
        ScannedNext(cells, i, n, Page(), free_chunk != null, f);
        if cur.free && cur.size >= n + extra {
          if free_chunk == null || cur.size < free_chunk.size {
            free_chunk, f := cur, i;
          }
          if cur.size == n {
            StopEarly(cells, i + 1, n, Page(), f);
            break;
          }
        }
        cur := cur.next;
        i := i + 1;
      }
    }

    /** The splitting step of alloc. */
    method Carve(free_chunk: ChunkNode, ghost f: nat, n: nat, extra: nat)
      requires Linked() && f < |cells| && free_chunk == mList.nodes[f]
      requires cells[f].size >= n + extra && cells[f].End() < SIZE_FIELD
      modifies this`cells, this`pool, mList, pool
      ensures Linked()
      ensures fresh(pool - old(pool))
      ensures cells == WithRest(old(cells), f, n, extra)
      ensures free_chunk.start == old(cells)[f].start + extra
    {
      var free_size := free_chunk.size;
      ghost var k := TakeFront(free_chunk, f, n, extra);
      CutRest(free_chunk, k, free_size, n, extra);
    }

    method CutRest(node: ChunkNode, ghost k: nat, free_size: nat, n: nat, extra: nat)
      requires Linked() && k < |cells| && node == mList.nodes[k] && n + extra <= free_size < SIZE_FIELD
      modifies this`cells, this`pool, mList, pool
      ensures Linked() && fresh(pool - old(pool)) && node.start == old(node.start)
      ensures cells == Tailed(old(cells), k, free_size - (n + extra))
    {
      if free_size > n {
        var tail_free := free_size - (n + extra);
        if tail_free > 0 { SplitTail(node, k, tail_free); }
      }
    }

    /** Marks the chunk used with n units, after a free chunk holding the padding, if any. */
    method TakeFront(free_chunk: ChunkNode, ghost f: nat, n: nat, extra: nat) returns (ghost k: nat)
      requires Linked() && f < |cells| && free_chunk == mList.nodes[f]
      requires cells[f].size >= n + extra && cells[f].End() < SIZE_FIELD
      modifies this`cells, this`pool, mList, pool
      ensures Linked()
      ensures fresh(pool - old(pool))
      ensures cells == Padded(old(cells), f, n, extra)
      ensures k == (if extra > 0 then f + 1 else f) && k < |cells| && mList.nodes[k] == free_chunk
      ensures free_chunk.start == old(cells)[f].start + extra
    {
      ghost var cs := cells;
      k := f;
      var free_size := free_chunk.size;
      MarkUsed(free_chunk, f, n);
      if free_size > n && extra != 0 {
        SplitHead(free_chunk, f, extra);
        k := f + 1;
        assert cs[f := Chunk(cs[f].start, n, false)][f := Chunk(cs[f].start + extra, n, false)]
            == cs[f := Chunk(cs[f].start + extra, n, false)];
      }
    }

    method MarkUsed(node: ChunkNode, ghost f: nat, n: nat)
      requires Linked() && f < |cells| && node == mList.nodes[f] && n < SIZE_FIELD
      modifies this`cells, node`free, node`size
      ensures Linked() && cells == old(cells)[f := Chunk(old(cells)[f].start, n, false)]
    {
      ghost var used := cells[f := Chunk(cells[f].start, n, false)];
      node.free := false;
      node.size := n % SIZE_FIELD;
      cells := used;
      assert Holds(mList.nodes, used);
    }

    /** A free chunk of `extra` units in front of node, which starts that much later. */
    method SplitHead(node: ChunkNode, ghost f: nat, extra: nat)
      requires Linked() && f < |cells| && node == mList.nodes[f] && extra < SIZE_FIELD
      modifies this`cells, this`pool, mList, pool
      ensures Linked()
      ensures fresh(pool - old(pool))
      ensures f + 1 < |cells| && mList.nodes[f + 1] == node && node.start == old(node.start) + extra
      ensures cells == Inserted(Shifted(old(cells), f, extra), f, Chunk(old(cells)[f].start, extra, true))
    {
      ghost var c, ns := Chunk(cells[f].start, extra, true), mList.nodes;
      var split := new ChunkNode(node.start, extra);
      MoveStart(node, f, extra);
      LinkBefore(node, f, split, c);
      InsertedAt(ns, f, split, f + 1);
    }

    method MoveStart(node: ChunkNode, ghost f: nat, extra: nat)
      requires Linked() && f < |cells| && node == mList.nodes[f]
      modifies this`cells, node`start
      ensures Linked() && node.start == old(node.start) + extra
      ensures cells == Shifted(old(cells), f, extra)
    {
      ghost var moved := Shifted(cells, f, extra);
      node.start := node.start + extra;
      cells := moved;
      assert Holds(mList.nodes, moved);
    }

    method LinkBefore(node: ChunkNode, ghost f: nat, split: ChunkNode, ghost c: Chunk)
      requires Linked() && f < |cells| && node == mList.nodes[f] && split !in mList.nodes && split.Value() == c
      modifies this`cells, this`pool, mList, pool`prev, pool`next, split`prev, split`next
      ensures Linked() && mList.nodes == Inserted(old(mList.nodes), f, split)
      ensures cells == Inserted(old(cells), f, c)
      ensures pool == old(pool) + {split}
    {
      ghost var ns := mList.nodes;
      mList.InsertBefore(node, split, f);
      HoldsInserted(ns, cells, f, split, c);
      cells := Inserted(cells, f, c);
      pool := pool + {split};
    }

    /** A free chunk of `tail` units behind node. */
    method SplitTail(node: ChunkNode, ghost f: nat, tail: nat)
      requires Linked() && f < |cells| && node == mList.nodes[f] && tail < SIZE_FIELD
      modifies this`cells, this`pool, mList, pool`prev, pool`next
      ensures Linked()
      ensures fresh(pool - old(pool))
      ensures cells == Inserted(old(cells), f + 1, Chunk(old(cells)[f].End(), tail, true))
    {
      ghost var c := Chunk(cells[f].End(), tail, true);
      var split := new ChunkNode(node.start + node.size, tail);
      LinkAfter(node, f, split, c);
    }

    method LinkAfter(node: ChunkNode, ghost f: nat, split: ChunkNode, ghost c: Chunk)
      requires Linked() && f < |cells| && node == mList.nodes[f] && split !in mList.nodes && split.Value() == c
      modifies this`cells, this`pool, mList, pool`prev, pool`next, split`prev, split`next
      ensures Linked() && mList.nodes == Inserted(old(mList.nodes), f + 1, split)
      ensures cells == Inserted(old(cells), f + 1, c)
      ensures pool == old(pool) + {split}
    {
      ghost var ns := mList.nodes;
      mList.InsertAfter(node, split, f);
      HoldsInserted(ns, cells, f + 1, split, c);
      cells := Inserted(cells, f + 1, c);
      pool := pool + {split};
    }

    method Dealloc(offset: nat) returns (freed: ChunkNode?)
      requires Valid() && mHeapSize > 0
      modifies this`cells, this`pool, mList, pool
      ensures Valid()
      ensures fresh(pool - old(pool))
      ensures freed != null <==> StartsChunk(old(cells), offset / K_MEMORY_ALIGN)
      ensures freed == null ==> cells == old(cells)
      ensures freed != null ==> freed.free && freed in mList.nodes
      ensures Released(old(cells), cells, Heap(), Page(), offset / K_MEMORY_ALIGN)
    {
      var start := offset / K_MEMORY_ALIGN;
      var cur := mList.mFirst;
      ghost var i := 0;
      while cur != null
        invariant i <= |cells| && cur == At(mList.nodes, i)
        invariant forall j :: 0 <= j < i ==> cells[j].start != start
        decreases |cells| - i
      {
        if cur.start == start {
          assert cells[i].start == start;
          ghost var cs := cells;
          HeapBound(cs, mHeapSize, pageBits);
          ghost var lo, hi;
          freed, lo, hi := Merge(cur, i, Heap());
          MeltIsRelease(cs, Heap(), Page(), lo, i, hi);
          return;
        }
        cur := cur.next;
        i := i + 1;
      }
      NothingReleased(cells, start);
      return null;
    }

    /** The merging loop of dealloc: frees chunk k and melts it with the free chunks around it,
        unlinking nodes while walking. */
    method Merge(node: ChunkNode, ghost k: nat, ghost heap: nat)
      returns (freed: ChunkNode, ghost lo: nat, ghost hi: nat)
      requires Linked() && Tiling(cells, 0, heap) && heap < SIZE_FIELD
      requires k < |cells| && mList.nodes[k] == node
      modifies this`cells, mList, pool
      ensures Linked() && lo < |cells| && freed == mList.nodes[lo] && cells[lo].free
      ensures MeltsAround(old(cells), lo, k, hi) && cells == Melt(old(cells), lo, hi)
    {
      var cur;
      ghost var cs, h := cells, 0;
      freed, cur, lo, h := MergeFirst(node, k, heap);
      freed, cur, hi := MergeRest(cs, freed, cur, heap, lo, k, h);
      Merged(cs, freed, cur, lo, k, hi);
    }

    /** The loop's other turns, for as long as a free chunk stands behind the freed one. */
    method MergeRest(ghost cs: seq<Chunk>, first: ChunkNode, behind: ChunkNode?, ghost heap: nat,
                     ghost lo: nat, ghost k: nat, ghost h: nat)
      returns (freed: ChunkNode, cur: ChunkNode?, ghost hi: nat)
      requires Tiling(cs, 0, heap) && heap < SIZE_FIELD && Merging(cs, first, behind, lo, k, h)
      modifies this`cells, mList, pool
      ensures Merging(cs, freed, cur, lo, k, hi) && (cur == null || !cur.free)
    {
      freed, cur, hi := first, behind, h;
      while cur != null && cur.free
        invariant Merging(cs, freed, cur, lo, k, hi)
        decreases |cs| - hi
      {
        freed, cur := MergeNext(cs, cur, freed, heap, lo, k, hi);
        hi := hi + 1;
      }
    }

    /** The merging loop has melted chunks lo..hi of cs into the node freed; cur is behind it. */
    ghost predicate Merging(cs: seq<Chunk>, freed: ChunkNode, cur: ChunkNode?, lo: nat, k: nat, hi: nat)
      reads this, mList, pool, mList.nodes
    {
      && Linked() && Melting(cs, cells, lo, k, hi) && MeltedFits(cs, cells, lo, hi)
      && freed == mList.nodes[lo] && cur == At(mList.nodes, lo + 1)
    }

    lemma Merged(cs: seq<Chunk>, freed: ChunkNode, cur: ChunkNode?, lo: nat, k: nat, hi: nat)
      requires Merging(cs, freed, cur, lo, k, hi)
      ensures cur != null ==> hi < |cs| && cur.free == cs[hi].free
      ensures cur == null || !cur.free ==> MeltsAround(cs, lo, k, hi)
      ensures Linked() && lo < |cells| && freed == mList.nodes[lo] && cells[lo].free && cells == Melt(cs, lo, hi)
    {
      if cur != null { assert cur.Value() == cells[lo + 1]; }
    }

    /** The loop's first turn, on the freed chunk itself. */
    method MergeFirst(node: ChunkNode, ghost k: nat, ghost heap: nat)
      returns (freed: ChunkNode, cur: ChunkNode?, ghost lo: nat, ghost hi: nat)
      requires Linked() && Tiling(cells, 0, heap) && heap < SIZE_FIELD
      requires k < |cells| && mList.nodes[k] == node
      modifies this`cells, mList, pool
      ensures Merging(old(cells), freed, cur, lo, k, hi)
    {
      ghost var cs := cells;
      MarkFree(node, k);
      MeltBegins(cs, heap, k);
      freed, cur := MergeStep(node, node, k);
      lo, hi := if k > 0 && cs[k - 1].free then k - 1 else k, k + 1;
      MeltedAt(cs, cells, heap, lo, k, hi);
    }

    /** A later turn, on the free chunk behind the freed one. */
    method MergeNext(ghost cs: seq<Chunk>, cur: ChunkNode, freed: ChunkNode, ghost heap: nat,
                     ghost lo: nat, ghost k: nat, ghost hi: nat)
      returns (freed': ChunkNode, next: ChunkNode?)
      requires Tiling(cs, 0, heap) && heap < SIZE_FIELD
      requires Merging(cs, freed, cur, lo, k, hi) && cur.free
      modifies this`cells, mList, pool
      ensures hi < |cs| && Merging(cs, freed', next, lo, k, hi + 1)
    {
      MeltGoesOn(cs, cells, heap, lo, k, hi);
      freed', next := MergeStep(cur, freed, lo + 1);
    }

    method MarkFree(node: ChunkNode, ghost k: nat)
      requires Linked() && k < |cells| && mList.nodes[k] == node
      modifies this`cells, node`free
      ensures Linked() && cells == old(cells)[k := old(cells)[k].(free := true)]
    {
      ghost var after := cells[k := cells[k].(free := true)];
      node.free := true;
      cells := after;
      assert Holds(mList.nodes, after);
    }

    /** One turn of the merging loop: cur melts into its predecessor if that one is free. */
    method MergeStep(cur: ChunkNode, freed: ChunkNode, ghost i: nat) returns (freed': ChunkNode, next: ChunkNode?)
      requires Linked() && i < |cells| && mList.nodes[i] == cur
      requires i > 0 && cells[i - 1].free ==> cells[i - 1].size + cells[i].size < SIZE_FIELD
      requires cells[i].size > 0
      modifies this`cells, mList, pool
      ensures Linked()
      ensures if i > 0 && old(cells)[i - 1].free then
                cells == Absorbed(old(cells), i - 1) && freed' == At(mList.nodes, i - 1) && next == At(mList.nodes, i)
              else
                && cells == old(cells) && mList.nodes == old(mList.nodes)
                && freed' == freed && next == At(mList.nodes, i + 1)
    {
      freed' := freed;
      assert cur.Value() == cells[i];
      var p := cur.prev;
      next := cur.next;
      assert i > 0 ==> p.Value() == cells[i - 1];
      if p != null && (p.free || cur.size == 0) {
        freed' := p;
        ghost var ns := mList.nodes;
        Absorb(p, cur, i);
        RemovedAt(ns, i, i - 1);
        RemovedAt(ns, i, i);
      }
    }

    /** p takes over the units of cur, its successor, which leaves the list. */
    method Absorb(p: ChunkNode, cur: ChunkNode, ghost i: nat)
      requires Linked() && 0 < i < |cells| && mList.nodes[i] == cur && mList.nodes[i - 1] == p
      requires cells[i - 1].size + cells[i].size < SIZE_FIELD
      modifies this`cells, mList, pool
      ensures Linked() && mList.nodes == Removed(old(mList.nodes), i)
      ensures cells == Absorbed(old(cells), i - 1)
    {
      TakeOver(p, cur, i);
      Unlink(cur, i);
    }

    method TakeOver(p: ChunkNode, cur: ChunkNode, ghost i: nat)
      requires Linked() && 0 < i < |cells| && mList.nodes[i] == cur && mList.nodes[i - 1] == p
      requires cells[i - 1].size + cells[i].size < SIZE_FIELD
      modifies this`cells, p`size
      ensures Linked()
      ensures cells == old(cells)[i - 1 := old(cells)[i - 1].(size := old(cells)[i - 1].size + old(cells)[i].size)]
    {
      ghost var grown := cells[i - 1 := cells[i - 1].(size := cells[i - 1].size + cells[i].size)];
      p.size := (p.size + cur.size) % SIZE_FIELD;
      cells := grown;
      assert Holds(mList.nodes, grown);
    }

    method Unlink(cur: ChunkNode, ghost i: nat)
      requires Linked() && i < |cells| && mList.nodes[i] == cur
      modifies this`cells, mList, pool`prev, pool`next
      ensures Linked() && mList.nodes == Removed(old(mList.nodes), i) && cells == Removed(old(cells), i)
    {
      ghost var ns := mList.nodes;
      var _ := mList.Remove(cur, i);
      HoldsRemoved(ns, cells, i);
      cells := Removed(cells, i);
    }
  }
}
