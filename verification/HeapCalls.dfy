/** The heap as its clients see it: the byte ranges they were granted and have not given back, over any
    run of allocate and deallocate calls. */
module HeapCalls {
  import opened Base
  import opened Bits
  import opened Chunks
  import opened Allocator

  /** A call and what it returned. */
  datatype Call = Allocating(size: nat, r: int) | Deallocating(offset: nat, r: int)

  datatype Grant = Grant(offset: nat, size: nat)

  function Without(gs: set<Grant>, offset: nat): set<Grant> {
    set g | g in gs && g.offset / K_MEMORY_ALIGN != offset / K_MEMORY_ALIGN
  }

  function After(gs: set<Grant>, c: Call): set<Grant> {
    match c
    case Allocating(size, r) => if size > 0 && r >= 0 then gs + {Grant(r, size)} else gs
    case Deallocating(offset, r) => if r == 0 then Without(gs, offset) else gs
  }

  /** What the calls granted and did not take back, by their arguments and results alone. Offsets within one
      unit of 32 bytes name the same buffer. */
  function Granted(calls: seq<Call>): set<Grant> {
    if calls == [] then {} else After(Granted(calls[..|calls| - 1]), calls[|calls| - 1])
  }

  /** Each call keeps its contract on the heap it meets. */
  ghost predicate Kept(cs: seq<Chunk>, c: Call, cs': seq<Chunk>, bytes: nat, bits: nat)
    requires bits >= 5
  {
    match c
    case Allocating(size, r) => AllocateSpec(cs, cs', bytes, bits, size, r)
    case Deallocating(offset, r) => DeallocateSpec(cs, cs', bytes, bits, offset, r)
  }

  /** heaps is what a newly sized heap goes through under the calls. */
  ghost predicate CallRun(heaps: seq<seq<Chunk>>, calls: seq<Call>, bytes: nat, bits: nat) {
    && 5 <= bits < 31 && 0 < bytes < INT_LIMIT && bytes % Pow2(bits) == 0
    && |heaps| == |calls| + 1 && heaps[0] == [Chunk(0, bytes / K_MEMORY_ALIGN, true)]
    && forall k {:trigger calls[k]} :: 0 <= k < |calls| ==> Kept(heaps[k], calls[k], heaps[k + 1], bytes, bits)
  }

  function Behind(g: Grant): Block {
    Block(g.offset / K_MEMORY_ALIGN, UnitsOf(g.size))
  }

  /** Every grant has a live block of its own, and every live block is behind a grant. */
  ghost predicate Backed(gs: set<Grant>, cs: seq<Chunk>) {
    && (forall g :: g in gs ==> g.size > 0 && g.offset % K_MEMORY_ALIGN == 0 && Behind(g) in Live(cs))
    && (forall b :: b in Live(cs) ==> exists g :: g in gs && b == Behind(g))
    && (forall g, h :: g in gs && h in gs && g.offset == h.offset ==> g == h)
  }

  lemma GrantBacked(gs: set<Grant>, cs: seq<Chunk>, cs': seq<Chunk>, bytes: nat, bits: nat, size: nat, r: int)
    requires HeapForm(cs, bytes, bits) && bytes > 0 && size > 0 && r >= 0 && Backed(gs, cs)
    requires AllocateSpec(cs, cs', bytes, bits, size, r)
    ensures Backed(gs + {Grant(r, size)}, cs')
  {
    PageIsUnits(r, bits);
    forall g | g in gs ensures g.offset != r { NewOffset(g, cs, bytes, bits, size, r); }
    OneMoreBacked(gs, cs, cs', Grant(r, size));
  }

  /** A granted range starts where no other does. */
  lemma NewOffset(g: Grant, cs: seq<Chunk>, bytes: nat, bits: nat, size: nat, r: int)
    requires HeapForm(cs, bytes, bits) && bytes > 0 && size > 0 && r >= 0 && Behind(g) in Live(cs)
    requires FreeRun(Live(cs), bytes / K_MEMORY_ALIGN, Pow2(bits - 5), UnitsOf(size), r / K_MEMORY_ALIGN)
    ensures g.offset != r
  {
    LiveBlocksDisjoint(cs, bytes / K_MEMORY_ALIGN, Pow2(bits - 5), Behind(g), Behind(g));
  }

  lemma OneMoreBacked(gs: set<Grant>, cs: seq<Chunk>, cs': seq<Chunk>, n: Grant)
    requires Backed(gs, cs) && Live(cs') == Live(cs) + {Behind(n)}
    requires n.size > 0 && n.offset % K_MEMORY_ALIGN == 0 && forall g :: g in gs ==> g.offset != n.offset
    ensures Backed(gs + {n}, cs')
  {
    var more := gs + {n};
    forall x | x in Live(cs') ensures exists g :: g in more && x == Behind(g) {
      if x in Live(cs) {
        var g :| g in gs && x == Behind(g);
        assert g in more;
      } else {
        assert n in more;
      }
    }
  }

  lemma ReleaseBacked(gs: set<Grant>, cs: seq<Chunk>, cs': seq<Chunk>, offset: nat)
    requires Backed(gs, cs) && Live(cs') == set b | b in Live(cs) && b.start != offset / K_MEMORY_ALIGN
    ensures Backed(Without(gs, offset), cs')
  {
    forall b | b in Live(cs') ensures exists g :: g in Without(gs, offset) && b == Behind(g) {
      var g :| g in gs && b == Behind(g);
      assert g in Without(gs, offset);
    }
  }

  lemma StepBacked(gs: set<Grant>, c: Call, cs: seq<Chunk>, cs': seq<Chunk>, bytes: nat, bits: nat)
    requires HeapForm(cs, bytes, bits) && bytes > 0 && Backed(gs, cs) && Kept(cs, c, cs', bytes, bits)
    ensures HeapForm(cs', bytes, bits) && Backed(After(gs, c), cs')
  {
    match c
    case Allocating(size, r) => if size > 0 && r >= 0 { GrantBacked(gs, cs, cs', bytes, bits, size, r); }
    case Deallocating(offset, r) => if r == 0 { ReleaseBacked(gs, cs, cs', offset); }
  }

  lemma {:induction false} RunBacked(heaps: seq<seq<Chunk>>, calls: seq<Call>, bytes: nat, bits: nat, k: nat)
    requires CallRun(heaps, calls, bytes, bits) && k <= |calls|
    ensures HeapForm(heaps[k], bytes, bits) && Backed(Granted(calls[..k]), heaps[k])
  {
    if k == 0 {
      WholeHeap(bytes, bits);
      assert Live(heaps[0]) == {};
    } else {
      RunBacked(heaps, calls, bytes, bits, k - 1);
      assert calls[..k][..k - 1] == calls[..k - 1];
      StepBacked(Granted(calls[..k - 1]), calls[k - 1], heaps[k - 1], heaps[k], bytes, bits);
    }
  }

  /** The bytes of two grants do not meet. */
  predicate Apart(g: Grant, h: Grant) {
    g.offset + g.size <= h.offset || h.offset + h.size <= g.offset
  }

  /** Whatever was called and answered: every grant not yet given back starts on a page, ends inside the heap,
      and shares no byte with any other. */
  lemma GrantsApart(heaps: seq<seq<Chunk>>, calls: seq<Call>, bytes: nat, bits: nat, k: nat, g: Grant, h: Grant)
    requires CallRun(heaps, calls, bytes, bits) && k <= |calls|
    requires g in Granted(calls[..k]) && h in Granted(calls[..k])
    ensures g.size > 0 && g.offset % Pow2(bits) == 0 && g.offset + g.size <= bytes
    ensures g != h ==> Apart(g, h)
  {
    RunBacked(heaps, calls, bytes, bits, k);
    PageIsUnits(bytes, bits);
    PageIsUnits(g.offset, bits);
    LiveBlocksDisjoint(heaps[k], bytes / K_MEMORY_ALIGN, Pow2(bits - 5), Behind(g), Behind(h));
    FitsInUnits(g.offset, g.size, bytes / K_MEMORY_ALIGN);
    FitsInUnits(g.offset, g.size, h.offset / K_MEMORY_ALIGN);
    FitsInUnits(h.offset, h.size, g.offset / K_MEMORY_ALIGN);
  }

  /** [o, o + size) is a range a request could get: on a page boundary, inside the heap, apart from all grants. */
  ghost predicate Clear(gs: set<Grant>, bytes: nat, pageBytes: nat, size: nat, o: nat)
    requires pageBytes > 0
  {
    o % pageBytes == 0 && o + size <= bytes && forall g :: g in gs ==> Apart(g, Grant(o, size))
  }

  lemma ApartFromBlock(g: Grant, size: nat, o: nat)
    requires g.offset % K_MEMORY_ALIGN == 0 && o % K_MEMORY_ALIGN == 0
    ensures var b := Behind(g);
      Apart(g, Grant(o, size)) <==> (b.start + b.size) * K_MEMORY_ALIGN <= o || o + size <= b.start * K_MEMORY_ALIGN
  {
    FitsInUnits(g.offset, g.size, o / K_MEMORY_ALIGN);
    FitsInUnits(o, 0, Behind(g).start + Behind(g).size);
  }

  lemma ClearIffFree(gs: set<Grant>, cs: seq<Chunk>, bytes: nat, bits: nat, size: nat, o: nat)
    requires bits >= 5 && Backed(gs, cs)
    ensures Clear(gs, bytes, Pow2(bits), size, o) <==> BytesFree(Live(cs), bytes, Pow2(bits), size, o)
  {
    PageIsUnits(o, bits);
    if o % K_MEMORY_ALIGN == 0 {
      forall g | g in gs
        ensures var b := Behind(g);
          b in Live(cs) && (Apart(g, Grant(o, size))
                            <==> (b.start + b.size) * K_MEMORY_ALIGN <= o || o + size <= b.start * K_MEMORY_ALIGN)
      {
        ApartFromBlock(g, size, o);
      }
    }
  }

  /** ... and a request is refused exactly when no such range is left; otherwise it gets one. */
  lemma RefusedIffNoneClear(heaps: seq<seq<Chunk>>, calls: seq<Call>, bytes: nat, bits: nat, k: nat)
    requires CallRun(heaps, calls, bytes, bits) && k < |calls| && calls[k].Allocating? && calls[k].size > 0
    ensures var gs, size, r := Granted(calls[..k]), calls[k].size, calls[k].r;
      if r == -ENOMEM then forall o :: !Clear(gs, bytes, Pow2(bits), size, o)
      else r >= 0 && Clear(gs, bytes, Pow2(bits), size, r)
  {
    RunBacked(heaps, calls, bytes, bits, k);
    Answers(Granted(calls[..k]), heaps[k], heaps[k + 1], bytes, bits, calls[k].size, calls[k].r);
  }

  lemma Answers(gs: set<Grant>, cs: seq<Chunk>, cs': seq<Chunk>, bytes: nat, bits: nat, size: nat, r: int)
    requires HeapForm(cs, bytes, bits) && bytes > 0 && size > 0 && Backed(gs, cs)
    requires AllocateSpec(cs, cs', bytes, bits, size, r)
    ensures if r == -ENOMEM then forall o :: !Clear(gs, bytes, Pow2(bits), size, o)
            else r >= 0 && Clear(gs, bytes, Pow2(bits), size, r)
  {
    AllocatesBytes(cs, cs', bytes, bits, size, r);
    if r == -ENOMEM {
      forall o ensures !Clear(gs, bytes, Pow2(bits), size, o) { ClearIffFree(gs, cs, bytes, bits, size, o); }
    } else {
      ClearIffFree(gs, cs, bytes, bits, size, r);
    }
  }

  /** A grant that is given back is taken back, and no other with it. */
  lemma GivenBackAlone(heaps: seq<seq<Chunk>>, calls: seq<Call>, bytes: nat, bits: nat, k: nat, g: Grant)
    requires CallRun(heaps, calls, bytes, bits) && k < |calls| && calls[k].Deallocating?
    requires g in Granted(calls[..k]) && calls[k].offset == g.offset
    ensures calls[k].r == 0 && After(Granted(calls[..k]), calls[k]) == Granted(calls[..k]) - {g}
  {
    var gs := Granted(calls[..k]);
    RunBacked(heaps, calls, bytes, bits, k);
    var i := LiveIndex(heaps[k], Behind(g));
    assert StartsChunk(heaps[k], g.offset / K_MEMORY_ALIGN);
    forall h | h in gs && h.offset / K_MEMORY_ALIGN == g.offset / K_MEMORY_ALIGN ensures h == g {
      assert h.offset == g.offset;
    }
  }
}
