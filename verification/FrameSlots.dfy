/** Framebuffer slots: page-flipping buffers handed out of one mapping by a bit mask. */
module FrameSlots {
  import opened Base
  import opened Bits

  /** What mapping the framebuffer device yields, or the error it fails with. */
  datatype MapReply = Mapped(base: nat, lineLength: nat, yres: nat, yresVirtual: nat) | MapFailed(err: int)

  /** A framebuffer handle: where its buffer starts, and how far into the mapping that is. */
  datatype Handle = Handle(base: nat, offset: nat, size: nat)

  datatype AllocResult =
    | Slot(hnd: Handle)
    | RegularBuffer(size: nat)   // single-buffered: an ordinary buffer, copied on post
    | Error(err: int)

  predicate Marked(mask: nat, i: nat) {
    Bit(mask, i)
  }

  /** The bits set in mask, all below n, are exactly the slots in live. */
  ghost predicate Marks(mask: nat, n: nat, live: set<nat>) {
    mask < Pow2(n) && forall i :: 0 <= i < n ==> (Marked(mask, i) <==> i in live)
  }

  ghost predicate AllLive(n: nat, live: set<nat>) {
    forall i :: 0 <= i < n ==> i in live
  }

  /** s is the lowest slot not in live. */
  ghost predicate LowestFree(n: nat, live: set<nat>, s: nat) {
    s < n && s !in live && forall i :: 0 <= i < s ==> i in live
  }

  /** Slot i of size bytes starts at base + i * size. */
  function SlotStart(base: nat, size: nat, i: nat): nat {
    base + i * size
  }

  class FrameBufferModule {
    var mapped: bool
    var fbBase: nat
    var lineLength: nat
    var yres: nat
    var yresVirtual: nat
    var numBuffers: nat
    var bufferMask: nat
    /** Slots handed out and not freed since. */
    ghost var live: set<nat>

    ghost function BufferSize(): nat
      reads this
    {
      lineLength * yres
    }

    ghost predicate Valid()
      reads this
    {
      && (!mapped ==> live == {} && bufferMask == 0)
      && (mapped ==> lineLength > 0 && yres > 0 && numBuffers == yresVirtual / yres && numBuffers < WORD_BITS
                     && Marks(bufferMask, numBuffers, live) && forall i :: i in live ==> i < numBuffers)
    }

    constructor ()
      ensures Valid() && !mapped
    {
      mapped, bufferMask, live := false, 0, {};
    }

    ghost function SlotHandle(s: nat): Handle
      reads this
    {
      Handle(SlotStart(fbBase, BufferSize(), s), s * BufferSize(), BufferSize())
    }

    method AllocFramebufferLocked(adspUsage: bool, m: MapReply) returns (r: AllocResult, ghost s: nat)
      requires Valid()
      requires m.Mapped? ==> m.lineLength > 0 && m.yres > 0 && m.yresVirtual / m.yres < WORD_BITS
      requires m.MapFailed? ==> m.err < 0
      modifies this
      ensures Valid()
      ensures old(mapped) ==>
                mapped && fbBase == old(fbBase) && BufferSize() == old(BufferSize()) && numBuffers == old(numBuffers)
      ensures adspUsage ==> r == Error(-EINVAL)
      ensures !mapped && !adspUsage ==> m.MapFailed? && r == Error(m.err)
      ensures mapped && !adspUsage && numBuffers == 1 ==> r == RegularBuffer(BufferSize())
      // refused exactly when every slot is live, otherwise the lowest free slot is handed out
      ensures mapped && !adspUsage && numBuffers != 1 ==>
                if AllLive(numBuffers, old(live)) then r == Error(-ENOMEM)
                else LowestFree(numBuffers, old(live), s) && live == old(live) + {s} && r == Slot(SlotHandle(s))
      // a slot is a whole screen of its own, and a single buffer is replaced by one of that size
      ensures r.Slot? ==>
                && r.hnd.size == lineLength * yres && r.hnd.offset == s * (lineLength * yres)
                && r.hnd.base == fbBase + r.hnd.offset && numBuffers == yresVirtual / yres
      ensures r.RegularBuffer? ==> r.size == lineLength * yres && yresVirtual / yres == 1
      ensures !r.Slot? ==> live == old(live)
    {
      s := 0;
      if adspUsage { return Error(-EINVAL), s; }
      if !mapped {
        var err := MapFrameBufferLocked(m);
        if err < 0 { return Error(err), s; }
      }
      var bufferSize := lineLength * yres;
      if numBuffers == 1 { return RegularBuffer(bufferSize), s; }
      FullIffAllMarked(bufferMask, numBuffers, live);
      if bufferMask >= Pow2(numBuffers) - 1 { return Error(-ENOMEM), s; }
      var vaddr;
      vaddr, s := TakeLowestFree(bufferSize);
      r := Slot(Handle(vaddr, vaddr - fbBase, bufferSize));
    }

    /** Maps the framebuffer, once and for good, with every slot free. */
    method MapFrameBufferLocked(m: MapReply) returns (err: int)
      requires Valid() && !mapped
      requires m.Mapped? ==> m.lineLength > 0 && m.yres > 0 && m.yresVirtual / m.yres < WORD_BITS
      requires m.MapFailed? ==> m.err < 0
      modifies this
      ensures Valid() && live == {} && (mapped <==> m.Mapped?)
      ensures err == (if m.Mapped? then 0 else m.err)
      ensures mapped ==>
                fbBase == m.base && lineLength == m.lineLength && yres == m.yres && yresVirtual == m.yresVirtual
    {
      match m
      case MapFailed(e) => return e;
      case Mapped(b, l, y, v) =>
        fbBase, lineLength, yres, yresVirtual := b, l, y, v;
        numBuffers, bufferMask, mapped := v / y, 0, true;
        NoMarks(numBuffers);
        return 0;
    }

    /** The slot-search loop: takes the lowest clear bit of the mask, and its address. */
    method TakeLowestFree(bufferSize: nat) returns (vaddr: nat, ghost s: nat)
      requires mapped && Valid() && !AllLive(numBuffers, live)
      modifies this`bufferMask, this`live
      ensures Valid() && LowestFree(numBuffers, old(live), s) && live == old(live) + {s}
      ensures vaddr == SlotStart(fbBase, bufferSize, s) && vaddr >= fbBase
    {
      var mask := bufferMask;
      vaddr := fbBase;
      var i := 0;
      while i < numBuffers
        invariant Valid() && bufferMask == mask && live == old(live)
        invariant i <= numBuffers && AllLive(i, live)
        invariant vaddr == SlotStart(fbBase, bufferSize, i) && vaddr >= fbBase
      {
        AndPow2(mask, i);
        if And(mask, Pow2(i)) == 0 {
          assert !Marked(mask, i);
          MarkSlot(mask, numBuffers, live, i);
          bufferMask := Or(bufferMask, Pow2(i));
          live, s := live + {i}, i;
          return;
        }
        assert Marked(mask, i);
        NextSlot(fbBase, bufferSize, i);
        vaddr := vaddr + bufferSize;
        i := i + 1;
      }
      assert false;
    }

    /** Frees a live framebuffer handle; its slot is recovered from the address. */
    method FreeFramebuffer(hnd: Handle, ghost s: nat)
      requires Valid() && mapped
      requires s in live && hnd == SlotHandle(s)
      modifies this`bufferMask, this`live
      ensures Valid() && live == old(live) - {s}
    {
      var bufferSize := lineLength * yres;
      Positive(lineLength, yres);
      DivModUnique(hnd.base - fbBase, bufferSize, s, 0);
      var index := (hnd.base - fbBase) / bufferSize;
      ClearSlot(bufferMask, numBuffers, live, s);
      bufferMask := And(bufferMask, Not(Pow2(index)));
      live := live - {s};
    }
  }

  lemma Positive(a: nat, b: nat)
    requires a > 0 && b > 0
    ensures a * b > 0
  {}

  lemma NextSlot(base: nat, size: nat, i: nat)
    ensures SlotStart(base, size, i + 1) == SlotStart(base, size, i) + size
  {}

  lemma NoMarks(n: nat)
    ensures Marks(0, n, {})
  {
    forall i | 0 <= i < n ensures !Marked(0, i) { ZeroBit(i); }
  }

  lemma FullIffAllMarked(mask: nat, n: nat, live: set<nat>)
    requires Marks(mask, n, live)
    ensures mask >= Pow2(n) - 1 <==> AllLive(n, live)
  {
    AllOnes(mask, n);
    if AllLive(n, live) {
      forall i | 0 <= i < n ensures Bit(mask, i) { assert Marked(mask, i); }
      assert AllSet(mask, n);
    }
    if AllSet(mask, n) {
      forall i | 0 <= i < n ensures i in live { SetIsMarked(mask, n, i); }
    }
  }

  lemma SetIsMarked(mask: nat, n: nat, i: nat)
    requires AllSet(mask, n) && i < n
    ensures Marked(mask, i)
  {}

  lemma MarkSlot(mask: nat, n: nat, live: set<nat>, s: nat)
    requires Marks(mask, n, live) && s < n && s !in live
    ensures Marks(Or(mask, Pow2(s)), n, live + {s})
  {
    OrPow2(mask, s);
    SetBitBound(mask, s, n);
    forall i | 0 <= i < n ensures Marked(mask + Pow2(s), i) <==> i in live + {s} {
      SetBit(mask, s, i);
    }
  }

  lemma ClearSlot(mask: nat, n: nat, live: set<nat>, s: nat)
    requires Marks(mask, n, live) && s < n < WORD_BITS && s in live
    ensures Pow2(s) < WORD32 && Marks(And(mask, Not(Pow2(s))), n, live - {s})
  {
    WordIsPow2();
    Pow2Mono(n, WORD_BITS);
    AndNotPow2(mask, s, WORD_BITS);
    forall i | 0 <= i < n ensures Marked(mask - Pow2(s), i) <==> i in live - {s} {
      ClearBit(mask, s, i);
    }
  }

  /** Live buffers lie inside the mapping of the virtual screen, and distinct ones do not overlap. */
  lemma LiveBuffersDisjoint(f: FrameBufferModule, i: nat, j: nat)
    requires f.Valid() && f.mapped && i in f.live && j in f.live
    ensures f.fbBase <= f.SlotHandle(j).base && f.SlotHandle(j).offset == f.SlotHandle(j).base - f.fbBase
    ensures f.SlotHandle(j).size == f.lineLength * f.yres
    ensures f.SlotHandle(j).base + f.SlotHandle(j).size <= f.fbBase + f.lineLength * f.yresVirtual
    ensures i < j ==> f.SlotHandle(i).base + f.SlotHandle(i).size <= f.SlotHandle(j).base
  {
    SlotsInOrder(f.lineLength, f.yres, f.yresVirtual, i, j);
  }

  lemma SlotsInOrder(lineLength: nat, yres: nat, yresVirtual: nat, i: nat, j: nat)
    requires yres > 0 && j < yresVirtual / yres
    ensures 0 <= j * (lineLength * yres)
    ensures i < j ==> i * (lineLength * yres) + lineLength * yres <= j * (lineLength * yres)
    ensures j * (lineLength * yres) + lineLength * yres <= lineLength * yresVirtual
  {
    var size, n := lineLength * yres, yresVirtual / yres;
    if i < j { NextSlotBy(size, i, j); }
    NextSlotBy(size, j, n);
    SlotsFit(lineLength, yres, yresVirtual);
    MulMono(size, 0, j);
  }

  /** A slot ends no later than any later one starts. */
  lemma NextSlotBy(size: nat, i: nat, j: nat)
    requires i < j
    ensures i * size + size <= j * size
  {
    MulMono(size, i + 1, j);
    Distribute(i, 1, size);
  }

  /** All slots together fit the virtual screen. */
  lemma SlotsFit(lineLength: nat, yres: nat, yresVirtual: nat)
    requires yres > 0
    ensures yresVirtual / yres * (lineLength * yres) <= lineLength * yresVirtual
  {
    var n := yresVirtual / yres;
    Divides(yresVirtual, yres);
    MulMono(lineLength, n * yres, yresVirtual);
    Reorder(n, lineLength, yres);
  }

  lemma Reorder(a: nat, b: nat, c: nat)
    ensures a * (b * c) == b * (a * c)
  {
    Associate(a, b, c);
    Associate(b, a, c);
  }
}
