/** The user-space pmem allocator: buffers carved from one master region by the best-fit allocator. */
module Pmem {
  import opened Base
  import opened Bits
  import opened Chunks
  import opened Allocator

  const MASTER_FD_INIT: int := -1
  const LIMP_MODE_SIZE: nat := 0x80_0000

  /** What the device answers while the master region is opened. */
  datatype MasterReplies = MasterReplies(fd: int, totalErr: int, totalSize: U32, mapped: bool, base: int, errno: int)

  /** What it answers while one buffer is set up; negative results are failures. */
  datatype SubHeapReplies = SubHeapReplies(fd: int, connected: int, mapped: int, cleaned: int, errno: int)

  /** The values alloc_pmem_buffer stores through its out-pointers. */
  datatype Buffer = Buffer(base: int, offset: nat, fd: int)

  /** The first failing result of opening, connecting and mapping; later ones are not asked for. */
  function SubHeapError(s: SubHeapReplies): int {
    if s.fd < 0 then s.fd else if s.connected != 0 then s.connected else s.mapped
  }

  /** Opening, connecting or mapping fails; a connect that answers with a positive number is taken for done
      and not mapped. */
  predicate SetUpFails(s: SubHeapReplies) {
    s.fd < 0 || s.connected < 0 || (s.connected == 0 && s.mapped < 0)
  }

  ghost predicate SomeBytesFree(cs: seq<Chunk>, bytes: nat, bits: nat, size: nat) {
    exists o :: BytesFree(Live(cs), bytes, Pow2(bits), size, o)
  }

  /** What the client is told, in bytes and by the device's answers themselves. */
  ghost predicate AnswerSpec(met: seq<Chunk>, bytes: nat, bits: nat, size: nat, s: SubHeapReplies, err: int,
                             out: Option<Buffer>) {
    var refused := size > 0 && !SomeBytesFree(met, bytes, bits, size);
    && (out.None? <==> refused || SetUpFails(s))
    && (out.None? ==> err == if refused then -ENOMEM else -s.errno)
    && (out.Some? ==> err == s.cleaned && out.value.fd == s.fd)
    && (out.Some? && size > 0 ==> BytesFree(Live(met), bytes, Pow2(bits), size, out.value.offset))
  }

  lemma AnswersTrue(met: seq<Chunk>, mid: seq<Chunk>, bytes: nat, bits: nat, size: nat, r: int)
    requires HeapForm(met, bytes, bits) && bytes > 0 && AllocateSpec(met, mid, bytes, bits, size, r)
    ensures r < 0 <==> size > 0 && !SomeBytesFree(met, bytes, bits, size)
    ensures size > 0 && r >= 0 ==> BytesFree(Live(met), bytes, Pow2(bits), size, r)
  {
    if size > 0 { AllocatesBytes(met, mid, bytes, bits, size, r); }
  }

  /** What a buffer request does to the heap it meets, e being the result of the set-up. */
  ghost predicate RequestSpec(met: seq<Chunk>, after: seq<Chunk>, bytes: nat, bits: nat, size: nat,
                              out: Option<Buffer>, e: int)
    requires bits >= 5
  {
    var heap, page, n := bytes / K_MEMORY_ALIGN, Pow2(bits - 5), UnitsOf(size);
    if size > 0 then
      // refused exactly when the heap has no room or the set-up fails, and then chunk for chunk as it was
      && (out.None? <==> e < 0 || !SomeFreeRun(met, heap, page, n))
      && (out.None? ==> after == met)
      // a buffer handed out is a new live block, in bounds and disjoint from all others
      && (out.Some? ==> out.value.offset % Pow2(bits) == 0
                        && Allocated(met, after, heap, page, n, out.value.offset / K_MEMORY_ALIGN))
    else
      // no bytes: offset 0 and no block; undoing that frees whatever lives at offset 0
      if e < 0 then out.None? && Released(met, after, heap, page, 0)
      else out.Some? && out.value.offset == 0 && after == met
  }

  /** The block behind a buffer of so many bytes. */
  function BlockAt(offset: nat, size: nat): Block {
    Block(offset / K_MEMORY_ALIGN, UnitsOf(size))
  }

  /** The blocks in clients' hands after a request: one more if a buffer of some bytes was handed out. */
  function Ledger(handed: set<Block>, size: nat, out: Option<Buffer>): set<Block> {
    if size > 0 && out.Some? then handed + {BlockAt(out.value.offset, size)} else handed
  }

  ghost predicate NothingAt(live: set<Block>, s: nat) {
    forall b :: b in live ==> b.start != s
  }

  /** With all live blocks in clients' hands, a request leaves it so exactly when it asked for some
      bytes, was not undone, or nothing lives at offset 0. */
  lemma LedgerKeptIff(met: seq<Chunk>, after: seq<Chunk>, bytes: nat, bits: nat, size: nat, out: Option<Buffer>, e: int)
    requires HeapForm(met, bytes, bits) && bytes > 0 && RequestSpec(met, after, bytes, bits, size, out, e)
    ensures Ledger(Live(met), size, out) == Live(after) <==> size > 0 || e >= 0 || NothingAt(Live(met), 0)
  {
    if size == 0 && e < 0 { ReleaseIsNoopIff(met, after, bytes / K_MEMORY_ALIGN, Pow2(bits - 5), 0); }
  }

  /** What a successful unmap of a buffer takes off the ledger. */
  function Unhanded(handed: set<Block>, offset: nat, size: nat): set<Block> {
    if size > 0 then handed - {BlockAt(offset, size)} else handed
  }

  /** ... and a successful unmap does exactly when no other block starts at its offset. */
  lemma UnhandedKeptIff(live: set<Block>, after: set<Block>, offset: nat, size: nat)
    requires after == set b | b in live && b.start != offset / K_MEMORY_ALIGN
    ensures Unhanded(live, offset, size) == after <==> NothingAt(Unhanded(live, offset, size), offset / K_MEMORY_ALIGN)
  {}

  /** No other block starts where a client's own block does. */
  lemma OwnBlockIsAlone(cs: seq<Chunk>, bytes: nat, bits: nat, offset: nat, size: nat)
    requires HeapForm(cs, bytes, bits) && BlockAt(offset, size) in Live(cs)
    ensures NothingAt(Live(cs) - {BlockAt(offset, size)}, offset / K_MEMORY_ALIGN)
  {
    forall b | b in Live(cs) - {BlockAt(offset, size)} ensures b.start != offset / K_MEMORY_ALIGN {
      LiveBlocksDisjoint(cs, bytes / K_MEMORY_ALIGN, Pow2(bits - 5), b, BlockAt(offset, size));
      LiveBlocksDisjoint(cs, bytes / K_MEMORY_ALIGN, Pow2(bits - 5), BlockAt(offset, size), b);
    }
  }

  /** A failed request of no bytes can take a block away from its owner. */
  lemma ZeroBytesFreesALiveBlock()
    ensures var met, after := [Chunk(0, 128, false)], [Chunk(0, 128, true)];
      HeapForm(met, 4096, 12) && RequestSpec(met, after, 4096, 12, 0, None, -1) && after != met
  {
    assert Pow2(12) == 4096 && Pow2(7) == 128;
    assert Live([Chunk(0, 128, false)]) == {Block(0, 128)};
    assert Live([Chunk(0, 128, true)]) == {};
  }

  /** So can a granted one, when its buffer is freed: it gets the offset of that block. */
  lemma ZeroByteBufferFreesALiveBlock(base: int, fd: int)
    ensures var met, after := [Chunk(0, 128, false)], [Chunk(0, 128, true)];
      && HeapForm(met, 4096, 12) && RequestSpec(met, met, 4096, 12, 0, Some(Buffer(base, 0, fd)), 0)
      && DeallocateSpec(met, after, 4096, 12, 0, 0)
      && Ledger(Live(met), 0, Some(Buffer(base, 0, fd))) == Unhanded(Live(met), 0, 0) == {Block(0, 128)}
      && Live(after) == {}
  {
    var met, after := [Chunk(0, 128, false)], [Chunk(0, 128, true)];
    assert Pow2(12) == 4096 && Pow2(7) == 128;
    assert Live(met) == {Block(0, 128)} && Live(after) == {};
    assert met[0].start == 0;
  }

  lemma NoRoom(met: seq<Chunk>, mid: seq<Chunk>, bytes: nat, bits: nat, size: nat, r: int, e: int)
    requires bits >= 5 && bytes > 0 && r < 0 && AllocateSpec(met, mid, bytes, bits, size, r)
    ensures RequestSpec(met, mid, bytes, bits, size, None, e)
  {}

  lemma Granted(met: seq<Chunk>, mid: seq<Chunk>, bytes: nat, bits: nat, size: nat, b: Buffer, e: int)
    requires bits >= 5 && bytes > 0 && e >= 0 && AllocateSpec(met, mid, bytes, bits, size, b.offset)
    ensures RequestSpec(met, mid, bytes, bits, size, Some(b), e)
  {}

  /** Something was deallocated at the offset, with some result. */
  ghost predicate GivenBack(before: seq<Chunk>, after: seq<Chunk>, bytes: nat, bits: nat, offset: nat)
    requires bits >= 5
  {
    exists r :: DeallocateSpec(before, after, bytes, bits, offset, r)
  }

  /** A failed set-up undoes the allocation before it. */
  lemma Undone(met: seq<Chunk>, mid: seq<Chunk>, after: seq<Chunk>, bytes: nat, bits: nat, size: nat, offset: nat,
               e: int)
    requires HeapForm(met, bytes, bits) && bytes > 0 && e < 0 && AllocateSpec(met, mid, bytes, bits, size, offset)
    requires GivenBack(mid, after, bytes, bits, offset)
    ensures RequestSpec(met, after, bytes, bits, size, None, e)
  {
    var d :| DeallocateSpec(mid, after, bytes, bits, offset, d);
    if size > 0 {
      DeallocateUndoesAllocate(met, mid, after, bytes, bits, size, offset, d);
    }
  }

  /** A failed set-up of a request leaves the heap alone exactly when the request asked for some
      bytes or no live block starts at offset 0. */
  lemma FailedSetUpIsNoopIff(met: seq<Chunk>, after: seq<Chunk>, bytes: nat, bits: nat, size: nat,
                             out: Option<Buffer>, e: int)
    requires HeapForm(met, bytes, bits) && bytes > 0 && e < 0
    requires RequestSpec(met, after, bytes, bits, size, out, e)
    ensures after == met <==> size > 0 || forall b :: b in Live(met) ==> b.start != 0
  {
    if size == 0 {
      ReleaseIsNoopIff(met, after, bytes / K_MEMORY_ALIGN, Pow2(bits - 5), 0);
    }
  }

  class PmemUserspaceAllocator {
    const allocator: SimpleBestFitAllocator
    var master_fd: int
    var master_base: int
    /** The blocks whose buffers were handed out and not freed since. */
    ghost var handed: set<Block>

    ghost predicate Valid()
      reads this, allocator, allocator.mList, allocator.pool, allocator.mList.nodes
    {
      && allocator.Valid()
      && (master_fd >= 0 ==> allocator.mHeapSize > 0)
    }

    /** The heap's live blocks are exactly the ones in clients' hands. */
    ghost predicate Balanced()
      reads this, allocator
    {
      handed == Live(allocator.cells)
    }

    constructor (allocator: SimpleBestFitAllocator)
      requires allocator.Valid() && allocator.mHeapSize == 0
      ensures Valid() && Balanced() && this.allocator == allocator && master_fd == MASTER_FD_INIT && handed == {}
    {
      this.allocator := allocator;
      master_fd := MASTER_FD_INIT;
      master_base := 0;
      handed := {};
    }

    method InitPmemAreaLocked(m: MasterReplies) returns (err: int)
      requires Valid() && m.errno > 0 && m.totalErr <= 0
      modifies this`master_fd, this`master_base, allocator, allocator.mList, allocator.pool
      ensures fresh(allocator.pool - old(allocator.pool)) && handed == old(handed)
      ensures Valid() <==> old(allocator.mHeapSize) > 0 || m.fd < 0 || 0 < allocator.mHeapSize < INT_LIMIT
      ensures Valid() <==> allocator.Valid()
      ensures old(allocator.mHeapSize) > 0 || m.fd < 0 ==>
                allocator.cells == old(allocator.cells) && allocator.mHeapSize == old(allocator.mHeapSize)
      ensures Live(allocator.cells) == Live(old(allocator.cells))
      ensures old(allocator.mHeapSize) == 0 && m.fd >= 0 ==> RoundsTo(m, allocator.pageBits, allocator.mHeapSize)
      ensures err == 0 <==> m.fd >= 0 && m.totalErr == 0 && m.mapped
      ensures err <= 0 && (err == 0 ==> master_fd == m.fd && master_base == m.base)
      ensures m.fd >= 0 && m.totalErr < 0 && m.mapped ==> err == m.totalErr
      ensures !(m.fd >= 0 && m.mapped) ==> master_fd == old(master_fd) && err == -m.errno
    {
      err := 0;
      var fd := m.fd;
      if fd >= 0 {
        var size := m.totalSize;
        err := m.totalErr;
        if err < 0 {
          size := LIMP_MODE_SIZE;
        }
        var _ := allocator.SetSize(size);
        assert Live([Chunk(0, allocator.Heap(), true)]) == {};
        if !m.mapped {
          err := -m.errno;
        } else {
          master_fd := fd;
          master_base := m.base;
        }
      } else {
        err := -m.errno;
      }
    }

    /** Opens the master region on the first call; a failure is remembered, except the one that
        equals the initial marker. */
    method InitPmemArea(m: MasterReplies) returns (err: int)
      requires Valid() && m.errno > 0 && m.totalErr <= 0
      modifies this`master_fd, this`master_base, allocator, allocator.mList, allocator.pool
      ensures fresh(allocator.pool - old(allocator.pool)) && Live(allocator.cells) == Live(old(allocator.cells))
      ensures Valid() <==> old(master_fd) != MASTER_FD_INIT || old(allocator.mHeapSize) > 0 || m.fd < 0
                           || 0 < allocator.mHeapSize < INT_LIMIT
      ensures old(master_fd) != MASTER_FD_INIT || old(allocator.mHeapSize) > 0 || m.fd < 0 ==>
                allocator.cells == old(allocator.cells) && allocator.mHeapSize == old(allocator.mHeapSize)
      ensures old(master_fd) == MASTER_FD_INIT && old(allocator.mHeapSize) == 0 && m.fd >= 0 ==>
                RoundsTo(m, allocator.pageBits, allocator.mHeapSize)
      ensures old(master_fd) != MASTER_FD_INIT ==>
                && err == (if old(master_fd) < 0 then old(master_fd) else 0)
                && master_fd == old(master_fd) && master_base == old(master_base)
      ensures old(master_fd) == MASTER_FD_INIT ==>
                && (err == 0 <==> m.fd >= 0 && m.totalErr == 0 && m.mapped)
                && master_fd == (if err == 0 then m.fd else err) && (err == 0 ==> master_base == m.base)
      ensures err == 0 <==> master_fd >= 0
    {
      err := master_fd;
      if err == MASTER_FD_INIT {
        err := InitPmemAreaLocked(m);
        if err != 0 {
          master_fd := err;
        }
      } else if err < 0 {
      } else {
        err := 0;
      }
    }

    /** out holds what was stored through the out-pointers, if anything was; met is the heap the
        request met, once the master region is open. */
    method AllocPmemBuffer(size: nat, m: MasterReplies, s: SubHeapReplies)
      returns (err: int, out: Option<Buffer>, ghost met: seq<Chunk>)
      requires Valid() && ReasonableMaster(m, allocator.pageBits) && s.errno > 0
      requires size + K_MEMORY_ALIGN - 1 < WORD32
      modifies this, allocator, allocator.mList, allocator.pool
      ensures Valid() && fresh(allocator.pool - old(allocator.pool))
      // the region stays open once it is
      ensures master_fd >= 0 <==> Opens(old(master_fd), m)
      ensures old(master_fd) >= 0 ==>
                && master_fd == old(master_fd) && master_base == old(master_base)
                && met == old(allocator.cells) && allocator.mHeapSize == old(allocator.mHeapSize)
      ensures old(master_fd) == MASTER_FD_INIT && old(allocator.mHeapSize) == 0 && m.fd >= 0 ==>
                RoundsTo(m, allocator.pageBits, allocator.mHeapSize)
      ensures Live(met) == Live(old(allocator.cells))
      ensures !Opens(old(master_fd), m) ==> out.None? && err == master_fd && allocator.cells == met
      ensures Opens(old(master_fd), m) ==>
                && HeapForm(met, allocator.mHeapSize, allocator.pageBits) && allocator.mHeapSize > 0
                && RequestSpec(met, allocator.cells, allocator.mHeapSize, allocator.pageBits, size, out,
                               SubHeapError(s))
      ensures out.Some? ==> out.value.fd == s.fd && out.value.base == master_base && err == s.cleaned
      ensures out.None? ==> err < 0
      ensures Opens(old(master_fd), m) ==>
                AnswerSpec(met, allocator.mHeapSize, allocator.pageBits, size, s, err, out)
      ensures handed == Ledger(old(handed), size, out)
      ensures old(Balanced()) ==>
                (Balanced() <==> !Opens(old(master_fd), m) || size > 0 || SubHeapError(s) >= 0
                                 || NothingAt(old(handed), 0))
    {
      out := None;
      err := InitPmemArea(m);
      met := allocator.cells;
      if err == 0 {
        err, out := Request(size, s);
        LedgerKeptIff(met, allocator.cells, allocator.mHeapSize, allocator.pageBits, size, out, SubHeapError(s));
        handed := Ledger(handed, size, out);
      }
    }

    /** The part of alloc_pmem_buffer that runs once the master region is open. */
    method Request(size: nat, s: SubHeapReplies) returns (err: int, out: Option<Buffer>)
      requires allocator.Valid() && allocator.mHeapSize > 0 && s.errno > 0
      requires size + K_MEMORY_ALIGN - 1 < WORD32
      modifies allocator`cells, allocator`pool, allocator.mList, allocator.pool
      ensures allocator.Valid() && fresh(allocator.pool - old(allocator.pool))
      ensures RequestSpec(old(allocator.cells), allocator.cells, allocator.mHeapSize, allocator.pageBits, size, out,
                          SubHeapError(s))
      ensures out.Some? ==> out.value.fd == s.fd && out.value.base == master_base && err == s.cleaned
      ensures out.None? ==> err < 0
      ensures AnswerSpec(old(allocator.cells), allocator.mHeapSize, allocator.pageBits, size, s, err, out)
    {
      ghost var met := allocator.cells;
      var offset := allocator.Allocate(size, 0);
      ghost var mid := allocator.cells;
      AnswersTrue(met, mid, allocator.mHeapSize, allocator.pageBits, size, offset);
      if offset < 0 {
        NoRoom(met, mid, allocator.mHeapSize, allocator.pageBits, size, offset, SubHeapError(s));
        return -ENOMEM, None;
      }
      err, out := SetUp(offset, s);
      if out.None? {
        Undone(met, mid, allocator.cells, allocator.mHeapSize, allocator.pageBits, size, offset, SubHeapError(s));
      } else {
        Granted(met, mid, allocator.mHeapSize, allocator.pageBits, size, out.value, SubHeapError(s));
      }
    }

    /** Makes the block at offset available to the client, or gives it back. */
    method SetUp(offset: nat, s: SubHeapReplies) returns (err: int, out: Option<Buffer>)
      requires allocator.Valid() && allocator.mHeapSize > 0 && s.errno > 0
      modifies allocator`cells, allocator`pool, allocator.mList, allocator.pool
      ensures allocator.Valid() && fresh(allocator.pool - old(allocator.pool))
      ensures out.None? <==> SetUpFails(s)
      ensures SubHeapError(s) >= 0 ==>
                && out == Some(Buffer(master_base, offset, s.fd)) && err == s.cleaned
                && allocator.cells == old(allocator.cells)
      ensures SubHeapError(s) < 0 ==>
                && out == None && err == -s.errno
                && GivenBack(old(allocator.cells), allocator.cells, allocator.mHeapSize, allocator.pageBits, offset)
    {
      var base := master_base;
      out := None;
      var fd := s.fd;
      err := if fd < 0 then fd else 0;
      if err == 0 { err := s.connected; }
      if err == 0 { err := s.mapped; }
      if err < 0 {
        err := -s.errno;
        var d := allocator.Deallocate(offset);
        fd := -1;
      } else {
        err := s.cleaned;
        out := Some(Buffer(base, offset, fd));
      }
    }

    /** The result of a failed unmap is shadowed in the source, so 0 is returned either way. */
    method FreePmemBuffer(size: nat, base: int, offset: nat, fd: int, unmapResult: int) returns (err: int)
      requires Valid()
      modifies this`handed, allocator, allocator.mList, allocator.pool
      ensures Valid() && err == 0 && fresh(allocator.pool - old(allocator.pool))
      ensures allocator.mHeapSize == old(allocator.mHeapSize)
      // the unmap's own result is returned exactly when it succeeded
      ensures fd >= 0 ==> (err == unmapResult <==> unmapResult == 0)
      ensures fd >= 0 && unmapResult == 0 ==>
                && handed == Unhanded(old(handed), offset, size)
                && GivenBack(old(allocator.cells), allocator.cells, allocator.mHeapSize, allocator.pageBits, offset)
      ensures !(fd >= 0 && unmapResult == 0) ==> handed == old(handed) && allocator.cells == old(allocator.cells)
      // it frees whatever lives at the offset: behind a buffer of some bytes its own block, behind one of
      // no bytes another client's
      ensures old(Balanced()) ==>
                (Balanced() <==> fd < 0 || unmapResult != 0
                                 || NothingAt(Unhanded(old(handed), offset, size), offset / K_MEMORY_ALIGN))
      ensures old(Balanced()) && (size > 0 ==> BlockAt(offset, size) in old(handed)) ==>
                (Balanced() <==> fd < 0 || unmapResult != 0 || size > 0
                                 || NothingAt(old(handed), offset / K_MEMORY_ALIGN))
    {
      err := 0;
      if fd >= 0 {
        var result := unmapResult;
        if result == 0 {
          ghost var was := allocator.cells;
          var r := allocator.Deallocate(offset);
          Freed(was, allocator.cells, allocator.mHeapSize, allocator.pageBits, offset, size, r);
          handed := Unhanded(handed, offset, size);
        }
      }
    }
  }

  lemma Freed(was: seq<Chunk>, now: seq<Chunk>, bytes: nat, bits: nat, offset: nat, size: nat, r: int)
    requires HeapForm(was, bytes, bits) && DeallocateSpec(was, now, bytes, bits, offset, r)
    ensures Live(now) == set b | b in Live(was) && b.start != offset / K_MEMORY_ALIGN
    ensures Unhanded(Live(was), offset, size) == Live(now)
       <==> NothingAt(Unhanded(Live(was), offset, size), offset / K_MEMORY_ALIGN)
    ensures (size > 0 ==> BlockAt(offset, size) in Live(was)) ==>
              (Unhanded(Live(was), offset, size) == Live(now)
               <==> size > 0 || NothingAt(Live(was), offset / K_MEMORY_ALIGN))
  {
    UnhandedKeptIff(Live(was), Live(now), offset, size);
    if size > 0 && BlockAt(offset, size) in Live(was) { OwnBlockIsAlone(was, bytes, bits, offset, size); }
  }

  /** A region of one page, all of it in a client's hands. */
  method OnePageTaken(m: MasterReplies, good: SubHeapReplies) returns (p: PmemUserspaceAllocator)
    requires m.fd >= 0 && m.totalErr == 0 && m.totalSize == 4096 && m.mapped && m.errno > 0
    requires SubHeapError(good) >= 0 && good.errno > 0
    ensures fresh(p) && fresh(p.allocator) && fresh(p.allocator.mList) && fresh(p.allocator.pool)
    ensures p.Valid() && p.Balanced() && p.master_fd >= 0 && p.handed == {Block(0, 128)}
    ensures p.allocator.pageBits == 12
  {
    assert Pow2(12) == 4096 && Pow2(7) == 128;
    var a := new SimpleBestFitAllocator(12);
    p := new PmemUserspaceAllocator(a);
    var _, out, met := p.AllocPmemBuffer(4096, m, good);
    assert a.mHeapSize == 4096 by { OnePageSize(a.mHeapSize); }
    OnePage(met, a.cells, out, SubHeapError(good));
  }

  lemma OnePageSize(bytes: nat)
    requires bytes % 4096 == 0 && 4096 <= bytes < 8192
    ensures bytes == 4096
  {}

  /** A buffer of no bytes takes a block away from its owner: at once when its set-up fails, and when it
      is freed if not. */
  method ZeroBytesTakeABlock(m: MasterReplies, good: SubHeapReplies, s: SubHeapReplies)
    returns (p: PmemUserspaceAllocator)
    requires m.fd >= 0 && m.totalErr == 0 && m.totalSize == 4096 && m.mapped && m.errno > 0
    requires SubHeapError(good) >= 0 && good.errno > 0 && s.errno > 0
    ensures p.handed == {Block(0, 128)} && Live(p.allocator.cells) == {}
  {
    assert Pow2(12) == 4096;
    p := OnePageTaken(m, good);
    var _, out, _ := p.AllocPmemBuffer(0, m, s);
    if out.Some? {
      var _ := p.FreePmemBuffer(0, out.value.base, out.value.offset, out.value.fd, 0);
    }
  }

  lemma OnePage(met: seq<Chunk>, after: seq<Chunk>, out: Option<Buffer>, e: int)
    requires HeapForm(met, 4096, 12) && Live(met) == {} && e >= 0 && RequestSpec(met, after, 4096, 12, 4096, out, e)
    ensures out.Some? && BlockAt(out.value.offset, 4096) == Block(0, 128) && Live(after) == {Block(0, 128)}
  {
    assert Pow2(12) == 4096 && Pow2(7) == 128;
    assert FreeRun(Live(met), 128, 128, 128, 0);
  }

  /** The master region is open after a request. */
  predicate Opens(master_fd: int, m: MasterReplies) {
    master_fd >= 0 || (master_fd == MASTER_FD_INIT && m.fd >= 0 && m.totalErr == 0 && m.mapped)
  }

  /** bytes is the heap size that the device's answers, or limp mode, round to. */
  predicate RoundsTo(m: MasterReplies, bits: nat, bytes: nat) {
    var size, page := if m.totalErr < 0 then LIMP_MODE_SIZE else m.totalSize, Pow2(bits);
    if size + page - 1 < WORD32 then size <= bytes < size + page else bytes == 0
  }

  /** Sizes the device may report: positive and addressable. */
  predicate ReasonableMaster(m: MasterReplies, bits: nat) {
    && m.errno > 0 && m.totalErr <= 0
    && 0 < m.totalSize && m.totalSize + Pow2(bits) - 1 < INT_LIMIT
    && LIMP_MODE_SIZE + Pow2(bits) - 1 < INT_LIMIT
  }
}
