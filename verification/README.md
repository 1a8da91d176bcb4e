# Verification of the MSM 7k/8k hardware libraries

A Dafny model of five parts of these libraries, each with proofs of what it is for.

- **Graphics memory** (`Base`, `Bits`, `Chunks`, `LinkedLists`, `Allocator`, `HeapCalls`, `Pmem`,
  `FrameSlots`). The best-fit
  allocator is a class over real list nodes that refines a sequence of chunks. The heap is proved canonical:
  heap size and live blocks determine the chunk list, refusal is complete, and free undoes alloc. The pmem
  allocator keeps a ledger of buffers handed out, and the framebuffer a mask of slots.
- **Buffer lock word** (`LockWord`, `LockCalls`). Any number of threads run `gralloc_lock` and `gralloc_unlock` in atomic
  steps over a packed word; one inductive invariant gives exclusion, release without failure, flush before
  the next lock and a single mapping, and with it what every call returns.
- **ONC RPC** (`XdrSpec`, `XdrLayout`, `XdrBounds`, `XdrReencode`, `XdrStream`, `RpcSpec`, `Rpc`, `RpcCalls`,
  `RpcWords`, `RpcThreads`, `RpcProgress`, `RpcFailures`).
  XDR for nested types (RFC 4506) over the bounded message buffers, where its length test goes wrong, which
  bytes re-encode to themselves, call and reply headers (section 9 of RFC 5531), both ends of a call, and the
  threads that share one input buffer, what keeps them apart and that they get done.
- **Copybit** (`CopybitSpec`, `Copybit`). Clipping, turning, scaling and batching of blits in 32-bit words.
- **Camera** (`Camera`, `CameraReports`). The picture state machine, with an adversarial callback thread, the JPEG
  heap, and what becomes of all the library reports.

Source code that changes objects is a class with methods proved against functions on values; threads are state
machines over their atomic steps. `dafny verify dfyconfig.toml` checks everything.

## Assumptions and findings

- `size_t`, `int` and `long` have 32 bits. Pages are powers of two of at least 32 bytes. Heaps stay below 2^31
  bytes because offsets are returned signed. RPC_OFFSET is 0 and enumerations take four bytes, as the build sets.
- `LOG_FATAL_IF` is compiled out, as in release builds, so freeing a free chunk returns 0 and changes nothing.
- Lock clients release only locks they hold, and fewer than 2^30 locks are out. A lock call whose mapping failed
  still holds its count, as the code leaves it. Memory is sequentially consistent.
- Device, system and driver results are parameters: opening, mapping and unmapping, what a packet read delivers,
  the driver's answer to each batch, whether an allocation of camera memory succeeds.
- A pmem request of zero bytes takes a block away from whoever holds offset 0: at once when its set-up fails, and
  when its buffer is freed otherwise (`Pmem.ZeroBytesTakeABlock`). `alloc_impl` refuses sizes that are not positive,
  so such a request comes from a negative `bufferSize`, which the unsigned comparison takes and `roundUpToPageSize`
  wraps to 0, or from a direct caller of `alloc_pmem_buffer`.
- `free_pmem_buffer` declares its result twice and so returns 0 after a failed unmap.
- A heap request within 31 bytes of 2^32 wraps to no units, and granting it leaves a used chunk without units in
  the list (`Allocator.WrappedRequestBreaksHeap`). Sizes reach the heap page-rounded in this repository
  (gpu.cpp:203), so it takes a direct caller of the allocator.
- The bounds test on received data adds signed 32-bit integers. A count of at least 2^31 less the cursor passes it
  and is copied from past the message, and a string of 2^32 - 1 bytes is reported read without being read. The
  memory of a received array is a 32-bit product, and its elements are written past it when that wraps. The decoding
  methods say with `stray` when they get there, and promise the format's result otherwise; `XdrBounds.SafeIff` says
  for which types no message leads there.
- A call whose send fails marks the input buffer as free although it never owned it, so the next packet can
  overwrite a call that is being handed over (`RpcFailures.CallsMixedUp`).
- A stretch to a destination with a side of zero divides by zero unless the source's side is zero too.
- A call for an unregistered server, which the callback thread only logs, leaves the input buffer marked busy for
  ever and stops the whole client (`RpcThreads.StuckAfterMissing`).
- A picture that fails after it was asked for without a JPEG callback, or was cancelled, has the error branch call
  a null callback (`Camera.FailureCallsNullIff`).
- A region rectangle wholly beside the destination turns the clip inside out, and the unsigned size test lets the
  request through (`CopybitSpec.SubmittedInsideIff`).

## Model

| member | source | states |
|---|---|---|
| `Chunks.CanonicalIsUnique` | libgralloc-qsd8k/allocator.cpp:79-165 | two tilings of one range with positive sizes, no adjacent free chunks and page-aligned used chunks are equal as soon as their live blocks are |
| `Chunks.AllocStep` | libgralloc-qsd8k/allocator.cpp:79-129 | carving any chunk that fits adds one block in a free run, and only a heap without such a run refuses |
| `Chunks.ReleaseStepIff` | libgralloc-qsd8k/allocator.cpp:131-165 | melting the chunk found with its free neighbours, or finding none, is exactly what a release promises: the two relations are the same |
| `Chunks.HistoryIsCanonical` | libgralloc-qsd8k/allocator.cpp:79-165 | after any run of carvings out of fitting chunks, meltings of found chunks and refusals the chunks tile the heap, sizes are positive, no two neighbours are free and used chunks start on a page |
| `Chunks.HistoryIndependence` | libgralloc-qsd8k/allocator.cpp:79-165 | two histories with the same live blocks leave identical chunk lists |
| `Chunks.LiveBlocksDisjoint` | libgralloc-qsd8k/allocator.cpp:104-128 | live blocks are in bounds, page-aligned and pairwise disjoint |
| `Chunks.FitIffFreeRun` | libgralloc-qsd8k/allocator.cpp:84-128 | some chunk passes the scan's test exactly when a page-aligned run of the requested free units exists anywhere in the heap |
| `Chunks.PaddingMask` | libgralloc-qsd8k/allocator.cpp:90-90 | on 32-bit words the masked negation is the distance to the next page boundary |
| `Chunks.PaddingIsLeast` | libgralloc-qsd8k/allocator.cpp:90-90 | that distance reaches a page boundary and no boundary lies before it |
| `Chunks.CarveIsAllocation` | libgralloc-qsd8k/allocator.cpp:104-128 | splitting a fitting chunk into padding, block and rest adds exactly one live block, in formerly free space, and keeps the heap canonical |
| `Chunks.MeltIsRelease` | libgralloc-qsd8k/allocator.cpp:141-160 | melting a freed chunk with all free chunks around it removes exactly its block and keeps the heap canonical |
| `Chunks.ReleaseUndoesAllocation` | libgralloc-qsd8k/allocator.cpp:79-165 | releasing what was just allocated restores the very same chunk sequence |
| `Chunks.ReleaseIsNoopIff` | libgralloc-qsd8k/allocator.cpp:131-165 | a release leaves the heap alone exactly when no live block starts at the offset |
| `Chunks.ReleasesCommute` | libgralloc-qsd8k/allocator.cpp:131-165 | two releases in either order give the same chunk sequence |
| `Chunks.AllFreedIsOneChunk` | libgralloc-qsd8k/allocator.cpp:131-165 | whenever a history leaves no live block, one free chunk covers the heap |
| `Chunks.ReleasesSubtract` | libgralloc-qsd8k/allocator.cpp:131-165 | after any releases the live blocks are exactly those whose start was never released |
| `Chunks.FreeEverything` | libgralloc-qsd8k/allocator.cpp:131-165 | releasing every live block, in any order and among other offsets, leaves one free chunk |
| `LinkedLists.LinkedList.InsertAfter` | libgralloc-qsd8k/allocator.h:47-53 | the prev, next, first and last pointers represent the sequence with the node inserted behind another |
| `LinkedLists.LinkedList.InsertBefore` | libgralloc-qsd8k/allocator.h:55-61 | the same, inserted in front of another |
| `LinkedLists.LinkedList.InsertHead` | libgralloc-qsd8k/allocator.h:63-73 | the same, at the head of any list |
| `LinkedLists.LinkedList.InsertTail` | libgralloc-qsd8k/allocator.h:75-84 | the same, at the tail |
| `LinkedLists.LinkedList.Remove` | libgralloc-qsd8k/allocator.h:86-92 | the pointers represent the sequence without the node |
| `LinkedLists.LinkedIn` | libgralloc-qsd8k/allocator.h:47-84 | splicing a node's four pointers in keeps both directions of the list consistent |
| `LinkedLists.LinkedOut` | libgralloc-qsd8k/allocator.h:86-92 | splicing a node out keeps both directions consistent |
| `Allocator.RoundUpToPage` | libgralloc-qsd8k/allocator.cpp:48-48 | the heap size is a multiple of the page size, at least the request and less than a page more, or zero exactly when the sum wraps |
| `Allocator.PagePadding` | libgralloc-qsd8k/allocator.cpp:90-90 | the masked negation computes the least padding to a page |
| `Allocator.SimpleBestFitAllocator.SetSize` | libgralloc-qsd8k/allocator.cpp:43-52 | the first call makes one free chunk of the rounded size and returns the size asked for, later calls are refused and change nothing; a usable heap is left exactly when the rounded size is positive and below 2^31 |
| `Allocator.SimpleBestFitAllocator.Allocate` | libgralloc-qsd8k/allocator.cpp:60-66 | -EINVAL before sizing; 0 for no bytes; -ENOMEM exactly when no page-aligned range of that many bytes is free, leaving the heap alone; otherwise the page-aligned offset of such a range, now held by one new live block at the best-fit position; the heap stays canonical exactly unless the request lies within 31 bytes of 2^32 and some free chunk reaches a page boundary |
| `Allocator.SimpleBestFitAllocator.Deallocate` | libgralloc-qsd8k/allocator.cpp:68-77 | 0 or -ENOENT by whether a chunk starts at the offset; afterwards the live blocks are all but the one that started there, in canonical form |
| `Allocator.SimpleBestFitAllocator.Alloc` | libgralloc-qsd8k/allocator.cpp:79-129 | the list becomes the one with the request carved out of the first smallest fitting chunk |
| `Allocator.SimpleBestFitAllocator.Scan` | libgralloc-qsd8k/allocator.cpp:86-102 | the scan, with its early exit, finds the first of the smallest chunks that fit after alignment, or none fits |
| `Allocator.SimpleBestFitAllocator.Carve` | libgralloc-qsd8k/allocator.cpp:104-126 | the split of one node into up to three yields padding, block and rest in order |
| `Allocator.SimpleBestFitAllocator.Dealloc` | libgralloc-qsd8k/allocator.cpp:131-165 | the walk finds the chunk, and the list becomes canonical without its block; the returned node is a free node of the list |
| `Allocator.SimpleBestFitAllocator.Merge` | libgralloc-qsd8k/allocator.cpp:141-160 | the loop that deletes nodes while walking ends with exactly the maximal run of free chunks melted into the returned node |
| `Allocator.SimpleBestFitAllocator.MergeStep` | libgralloc-qsd8k/allocator.cpp:144-154 | one turn melts the current chunk into a free predecessor and nothing else |
| `Allocator.SimpleBestFitAllocator.Absorb` | libgralloc-qsd8k/allocator.cpp:148-151 | the predecessor takes over the units and the node leaves the list |
| `Allocator.WrapsIff` | libgralloc-qsd8k/allocator.cpp:84-84 | rounding a request to units wraps, to none, exactly within 31 bytes of 2^32 |
| `Allocator.UnitsHoldBytes` | libgralloc-qsd8k/allocator.cpp:84-84 | the units of a request hold all its bytes, and one unit less would not |
| `Allocator.AllocatesBytes` | libgralloc-qsd8k/allocator.cpp:79-129 | the allocation contract in bytes: refused exactly when no range of the size is free, otherwise granted one |
| `Allocator.NothingPlaced` | libgralloc-qsd8k/allocator.cpp:104-126 | granting such a request leaves a chunk in use that has no units |
| `Allocator.Settled` | libgralloc-qsd8k/allocator.cpp:79-129 | what alloc does to the list meets the contract of an allocation, and breaks the heap exactly when a wrapped request meets a chunk |
| `Allocator.WrappedRequestBreaksHeap` | libgralloc-qsd8k/allocator.cpp:79-129 | a concrete heap and request on which that happens |
| `Allocator.StopEarly` | libgralloc-qsd8k/allocator.cpp:97-99 | stopping at an exact fit cannot miss a better chunk |
| `Allocator.CarvedInSteps` | libgralloc-qsd8k/allocator.cpp:104-126 | updating the chunk, inserting the padding before and the rest behind is the carving |
| `Allocator.CarveFits` | libgralloc-qsd8k/allocator.cpp:104-128 | carving the best fit meets the allocation contract: aligned byte offset, new block, canonical heap |
| `Allocator.NoFit` | libgralloc-qsd8k/allocator.cpp:128-128 | when nothing fits, refusing meets the allocation contract |
| `Allocator.DeallocateUndoesAllocate` | libgralloc-qsd8k/allocator.cpp:60-77 | a successful non-empty allocate followed by deallocate of its offset returns 0 and restores the chunk sequence |
| `Allocator.AllocateIsStep` | libgralloc-qsd8k/allocator.cpp:60-66 | what an allocate call promises is a step of a heap history: no other list would meet it |
| `Allocator.DeallocateIsStep` | libgralloc-qsd8k/allocator.cpp:68-77 | so is what a deallocate call promises |
| `HeapCalls.GrantsApart` | libgralloc-qsd8k/allocator.cpp:60-77 | over every run of calls, by their arguments and results alone: what was granted and not given back starts on a page, ends inside the heap, and no two grants share a byte |
| `HeapCalls.RefusedIffNoneClear` | libgralloc-qsd8k/allocator.cpp:60-66 | a request is refused exactly when no page-aligned range of its size is clear of the grants, and is granted such a range otherwise |
| `HeapCalls.GivenBackAlone` | libgralloc-qsd8k/allocator.cpp:68-77 | giving a grant back returns 0 and takes back that grant and no other |
| `Pmem.PmemUserspaceAllocator.InitPmemAreaLocked` | libgralloc-qsd8k/pmemalloc.cpp:83-118 | success exactly when opening, sizing and mapping succeed; the limp-mode size keeps the descriptor but returns the sizing error; the heap is usable afterwards exactly when it was sized before, is not touched, or rounds to a positive size below 2^31 |
| `Pmem.PmemUserspaceAllocator.InitPmemArea` | libgralloc-qsd8k/pmemalloc.cpp:121-142 | initialises once; a remembered failure is returned without touching the heap; the heap is usable afterwards under the same condition |
| `Pmem.PmemUserspaceAllocator.AllocPmemBuffer` | libgralloc-qsd8k/pmemalloc.cpp:145-201 | an open region stays open; a request fails exactly when no range of its bytes is free, with -ENOMEM, or when opening, connecting or mapping does, with the system's error, and then the heap is chunk for chunk as it was if it asked for some bytes; when the live blocks were the buffers in clients' hands, they are so afterwards exactly unless a request of no bytes is undone and a block lives at offset 0 |
| `Pmem.LedgerKeptIff` | libgralloc-qsd8k/pmemalloc.cpp:145-201 | that condition, over the contract of a request |
| `Pmem.PmemUserspaceAllocator.SetUp` | libgralloc-qsd8k/pmemalloc.cpp:158-195 | a failing open, connect or map gives the block back; otherwise base, offset and descriptor are stored |
| `Pmem.PmemUserspaceAllocator.FreePmemBuffer` | libgralloc-qsd8k/pmemalloc.cpp:204-221 | only a successful unmap deallocates, and it deallocates whatever starts at the offset; for a client's own buffer the live blocks stay the ones in clients' hands exactly when it had some bytes or nothing lives there; the inner result is shadowed, so 0 is returned either way and the unmap's result is reported exactly when it is 0 |
| `Pmem.Freed` | libgralloc-qsd8k/pmemalloc.cpp:204-221 | that condition, over the contract of a release, for any caller |
| `Pmem.OwnBlockIsAlone` | libgralloc-qsd8k/pmemalloc.cpp:204-221 | no other block starts where a client's own block does |
| `Pmem.Undone` | libgralloc-qsd8k/pmemalloc.cpp:174-180 | allocating and giving back after a failed set-up restores the heap the request met |
| `Pmem.FailedSetUpIsNoopIff` | libgralloc-qsd8k/pmemalloc.cpp:174-180 | a failed set-up leaves the heap alone exactly when bytes were asked for or nothing lives at offset 0 |
| `Pmem.ZeroBytesFreesALiveBlock` | libgralloc-qsd8k/pmemalloc.cpp:152-180 | a concrete heap on which a failed request of no bytes frees another owner's block |
| `Pmem.ZeroByteBufferFreesALiveBlock` | libgralloc-qsd8k/pmemalloc.cpp:204-221 | the same heap, on which freeing a granted buffer of no bytes does |
| `Pmem.ZeroBytesTakeABlock` | libgralloc-qsd8k/pmemalloc.cpp:145-221 | the calls that lead there from a new allocator, whatever the set-up of the empty buffer answers |
| `FrameSlots.FrameBufferModule.AllocFramebufferLocked` | libgralloc-qsd8k/gpu.cpp:75-132 | -ENOMEM exactly when every slot is live, otherwise the lowest free slot with its address and offset; the mask stays exactly the live slots |
| `FrameSlots.FrameBufferModule.TakeLowestFree` | libgralloc-qsd8k/gpu.cpp:118-125 | the search loop takes the lowest clear bit and stops at its address |
| `FrameSlots.FrameBufferModule.FreeFramebuffer` | libgralloc-qsd8k/gpu.cpp:418-422 | the division recovers the slot that was given out, and only its bit is cleared |
| `FrameSlots.FullIffAllMarked` | libgralloc-qsd8k/gpu.cpp:106-109 | the comparison with the all-ones mask holds exactly when all slots are live |
| `FrameSlots.MarkSlot` | libgralloc-qsd8k/gpu.cpp:120-123 | setting the slot's bit marks exactly one more live slot |
| `FrameSlots.ClearSlot` | libgralloc-qsd8k/gpu.cpp:421-422 | clearing the bit unmarks exactly that slot |
| `FrameSlots.LiveBuffersDisjoint` | libgralloc-qsd8k/gpu.cpp:95-131 | live framebuffers lie inside the mapping and do not overlap |
| `LockWord.MasksSelectFields` | libgralloc-qsd8k/mapper.cpp:217-223 | the three masks select the write flag, the mapped flag and the count |
| `LockWord.MasksChangeFields` | libgralloc-qsd8k/mapper.cpp:234-238 | setting and clearing the flags, adding one and taking one away change exactly one field |
| `LockWord.LockedIsAcquired` | libgralloc-qsd8k/mapper.cpp:213-238 | the masks of gralloc_lock compute the fields of the word to store, or find the buffer busy |
| `LockWord.UnlockedIsReleased` | libgralloc-qsd8k/mapper.cpp:305-322 | the masks of gralloc_unlock compute the fields of the word to store, or find the buffer unlocked |
| `LockWord.RunIsOnPackedWords` | libgralloc-qsd8k/mapper.cpp:213-325 | in every interleaving the tests and the words stored by compare-and-swap are the ones the code computes on packed words, and a busy word returns -EBUSY |
| `LockCalls.LockCallAnswers` | libgralloc-qsd8k/mapper.cpp:200-275 | over every run: a lock call returns -EBUSY exactly when it read a word it must refuse on, and holds what it held; otherwise it holds one lock more of the kind asked for and returns 0, or the error of a failed mapping |
| `LockCalls.LockYieldsAddress` | libgralloc-qsd8k/mapper.cpp:254-272 | over every run: a software lock that returns 0 yields the address at which the buffer is mapped |
| `LockCalls.UnlockCallAnswers` | libgralloc-qsd8k/mapper.cpp:278-328 | over every run: an unlock by a holder returns 0, and it holds one lock less |
| `LockCalls.StepBringsNearer` | libgralloc-qsd8k/mapper.cpp:213-325 | each step of a call brings it nearer to its end unless another thread changed the word under its compare-and-swap |
| `LockCalls.SomeoneCanStep` | libgralloc-qsd8k/mapper.cpp:257-270 | no deadlock: while a thread is inside a call some thread can step |
| `LockWord.EncodeIsInjective` | libgralloc-qsd8k/mapper.cpp:240-242 | comparing words is comparing all fields |
| `LockWord.NextKeeps` | libgralloc-qsd8k/mapper.cpp:200-328 | every atomic step of every thread keeps the invariant |
| `LockWord.RunKeepsInv` | libgralloc-qsd8k/mapper.cpp:200-328 | the invariant holds in every state of every interleaving |
| `LockWord.WriteLockIsExclusive` | libgralloc-qsd8k/mapper.cpp:213-247 | in every interleaving a held write lock means the write bit, a count of one, no read lock and no other holder; the count always equals the locks out |
| `LockWord.WriterReleaseNeverFails` | libgralloc-qsd8k/mapper.cpp:305-325 | a writer's releasing compare-and-swap succeeds at once although writeOwner is zeroed before it, and no disciplined thread is told its buffer is not locked |
| `LockWord.WordChangesByCas` | libgralloc-qsd8k/mapper.cpp:240-265 | inside gralloc_lock only the compare-and-swap and the mapping step write the word |
| `LockWord.WordChangesByRelease` | libgralloc-qsd8k/mapper.cpp:305-325 | inside gralloc_unlock only the releasing compare-and-swap writes the word |
| `LockWord.FlushedBeforeNextLock` | libgralloc-qsd8k/mapper.cpp:286-325 | whenever a lock is taken, every software write so far was flushed and no flush is pending |
| `LockWord.MappedOnce` | libgralloc-qsd8k/mapper.cpp:257-272 | at most one mapping exists between register and unregister, and a software lock that returns 0 yields its address |
| `LockWord.MappedBitKept` | libgralloc-qsd8k/mapper.cpp:240-272 | no racing compare-and-swap loses the mapped bit |
| `LockWord.UnregisterKeeps` | libgralloc-qsd8k/mapper.cpp:138-166 | unregistering undoes the mapping, and the handle is as new |
| `XdrSpec.DecodeInvertsEncode` | librpc/xdr.c:10-36 | for every nested type, decoding an encoding gives the value and the cursor behind it, whatever bytes stand around it |
| `XdrSpec.DecodeAllInverts` | librpc/xdr.c:203-220 | the same for runs of elements |
| `XdrSpec.EncAligned` | librpc/svc_clnt_common.c:152-161 | every encoding fills whole words |
| `XdrSpec.DecodeIsSound` | librpc/xdr.c:305-394 | whatever bytes (fewer than 2^31) decode, the value has the type, is within its limits, and the cursor moved by the length of its encoding |
| `XdrSpec.DecodeAllIsSound` | librpc/xdr.c:203-220 | the same for runs of elements |
| `XdrSpec.WordOfBe32` | librpc/svc_clnt_common.c:115-121 | network byte order is inverted by reading |
| `XdrLayout.WordIsNumber` | librpc/svc_clnt_common.c:115-121 | a word is four bytes that write it down, most significant first |
| `XdrLayout.ReadWordIsNumber` | librpc/svc_clnt_common.c:196-210 | reading a word reads the number its bytes write down |
| `XdrLayout.ScalarSent` | librpc/xdr.c:85-243 | every scalar is sent as its value modulo 2^32, so TRUE as 1 |
| `XdrLayout.ScalarReceived` | librpc/xdr.c:85-243 | every scalar is received as the value of its kind that agrees with the word in the bits kept, a boolean as whether it is zero |
| `XdrLayout.FlagIsBoolean` | librpc/xdr.c:305-322 | optional data is a boolean, then the data |
| `XdrLayout.HyperSent` | librpc/xdr.c:141-151 | a hyper is eight bytes that write it down |
| `XdrLayout.HyperReceived` | librpc/xdr.c:153-160 | and is received as the number they write down |
| `XdrLayout.OpaqueLayout` | librpc/svc_clnt_common.c:152-161 | opaque data, then as few zeros as fill the last word |
| `XdrLayout.CountedLayout` | librpc/xdr.c:481-519 | the length, then the data and zeros |
| `XdrLayout.ArrayLayout` | librpc/xdr.c:336-394 | the length, then the elements |
| `XdrLayout.ElementsInOrder` | librpc/xdr.c:203-220 | elements one behind the other, in order |
| `XdrLayout.WordAccepted` | librpc/svc_clnt_common.c:196-210 | a scalar is read exactly where four bytes are left |
| `XdrLayout.OpaqueAccepted` | librpc/xdr.c:412-430 | opaque data is read exactly where its bytes are left, with or without padding |
| `XdrLayout.CountedAccepted` | librpc/xdr.c:481-528 | counted data is read exactly where its length is there and within the limit, and its bytes are left |
| `XdrLayout.OptionalAccepted` | librpc/xdr.c:305-322 | optional data is absent for the flag 0 and present for every other |
| `XdrLayout.ArrayAccepted` | librpc/xdr.c:336-394 | an array is its length, within the limit, and so many elements |
| `XdrLayout.ElementsAccepted` | librpc/xdr.c:203-220 | elements are read one after the other |
| `XdrSpec.OpaqueInverts` | librpc/xdr.c:412-430 | padded opaque data reads back, and the cursor skips the padding |
| `XdrReencode.ReencodesIffTidy` | librpc/xdr.c:10-528 | accepted bytes are the encoding of the value they decode to exactly when padding is there and zero, booleans and pointer flags are 0 or 1, and shorts are in range |
| `XdrReencode.AllReencodeIffTidy` | librpc/xdr.c:203-220 | the same for runs of elements |
| `XdrBounds.TestIsRightIff` | librpc/svc_clnt_common.c:247-254 | the signed length test is right exactly when cursor and length add up to less than 2^31, or a length of 2^31 or more leaves the cursor past the message even so |
| `XdrBounds.RefusalIsRight` | librpc/svc_clnt_common.c:247-254 | what the test refuses is never there |
| `XdrBounds.CountsThatPass` | librpc/svc_clnt_common.c:247-254 | two concrete counts that pass the test and are not there |
| `XdrBounds.SlotsSufficeIff` | librpc/xdr.c:355-371 | the memory allocated for an array holds all its elements exactly when count times element size stays below 2^32 |
| `XdrBounds.FirstWrapHasNoSlot` | librpc/xdr.c:355-371 | the smallest count for which it does not leaves no room for even one |
| `XdrBounds.DecodedStraysIff` | librpc/xdr.c:10-528 | a message that holds a value of the type leads the decoder astray exactly when an array of that value does not fit in memory |
| `XdrBounds.GuardedNeverStrays` | librpc/xdr.c:10-528 | no message does, if every limit a message can reach leaves room for a cursor below 2^31 and for its largest array |
| `XdrBounds.SafeIff` | librpc/xdr.c:10-528 | for every nested type: it is safe from every message exactly under that condition |
| `XdrStream.Xdr.SendUint32` | librpc/svc_clnt_common.c:115-121 | appends one word exactly when it fits the message |
| `XdrStream.Xdr.SendBytes` | librpc/svc_clnt_common.c:152-161 | appends the bytes and zero padding exactly when they fit |
| `XdrStream.Xdr.RecvUint32` | librpc/svc_clnt_common.c:196-210 | reads the word at the cursor exactly when the message holds it |
| `XdrStream.Xdr.RecvBytes` | librpc/svc_clnt_common.c:247-254 | the test on 32-bit integers, the copy and the rounded cursor; stray exactly when the test passes and the bytes are not there |
| `XdrStream.Xdr.XdrOpaqueDecode` | librpc/xdr.c:412-430 | reads n bytes and rounds the cursor up, fails past the end, or strays exactly where the format says the test is wrong |
| `XdrStream.Xdr.XdrBytesDecode` | librpc/xdr.c:12-21 | counted bytes: limit, no data, or data as the format reads it, straying exactly at wrongly passed counts |
| `XdrStream.Xdr.XdrStringDecode` | librpc/xdr.c:481-528 | the same for strings, with the early success at a count of 2^32 - 1 |
| `XdrStream.Xdr.Encode` | librpc/xdr.c:10-528 | for every type: succeeds exactly when the limits hold and the encoding fits 18432 bytes, and then appends the encoding; otherwise leaves what was there in front |
| `XdrStream.Xdr.XdrUHyper` | librpc/xdr.c:141-151 | appends the two halves, high word first |
| `XdrStream.Xdr.XdrBytes` | librpc/xdr.c:22-25 | counted bytes: succeeds exactly when within the limit and the buffer |
| `XdrStream.Xdr.XdrString` | librpc/xdr.c:481-519 | the same for strings, by their length |
| `XdrStream.Xdr.XdrVector` | librpc/xdr.c:203-220 | the element loop appends the encodings in order, or fails when one does |
| `XdrStream.Xdr.XdrArray` | librpc/xdr.c:336-394 | count, limit check, then the elements |
| `XdrStream.Xdr.XdrPointer` | librpc/xdr.c:305-322 | a flag word, then the target if there is one |
| `XdrStream.Xdr.XdrPointerDecode` | librpc/xdr.c:305-322 | a flag word, then the target if it is not zero |
| `XdrStream.Xdr.XdrArrayDecode` | librpc/xdr.c:336-394 | count, limit check and elements, straying exactly where one lies outside the memory allocated by the wrapped product |
| `XdrStream.Xdr.Decode` | librpc/xdr.c:10-528 | for every type: says exactly whether a length passes the bounds test wrongly or an element lies outside its array, and otherwise gives the value and cursor that the format assigns to the received bytes, or failure |
| `XdrStream.Xdr.XdrUHyperDecode` | librpc/xdr.c:153-160 | joins two received words |
| `XdrStream.Xdr.XdrVectorDecode` | librpc/xdr.c:203-220 | the element loop reads exactly the run the format describes, up to the first element that strays |
| `RpcSpec.ReplyHeaderInverts` | librpc/clnt.c:562-676 | receiving inverts sending for every valid reply header with an empty verifier |
| `RpcSpec.AcceptedBytesReencode` | librpc/clnt.c:562-676 | any bytes the receiver accepts are the encoding of the header it returns |
| `RpcSpec.HeaderIsWords` | librpc/rpc.c:42-123 | with an empty verifier a header is a run of words |
| `RpcSpec.SuccessIff` | librpc/clnt.c:502-543 | a call succeeds exactly on its own XID, an accepting header with an empty verifier and decodable results |
| `RpcWords.OutcomeByWords` | librpc/clnt.c:500-559 | the status and results of every call by the words of the reply, with all numbers written out |
| `RpcWords.ResultByFate` | librpc/clnt.c:421-560 | the status of a call that meets a reset, cannot be encoded or cannot be sent |
| `RpcWords.CallLayout` | librpc/rpc.c:7-27 | a call is ten words, each written out, then the arguments |
| `RpcWords.CallStartLayout` | librpc/rpc.c:7-27 | and starts with the same six words whatever its credentials |
| `RpcWords.ReplyLayout` | librpc/rpc.c:29-40 | a successful reply is six words, each written out, then the results |
| `RpcWords.HeaderLayout` | librpc/rpc.c:42-123 | what is sent for every accepted and denied reply, with the numbers written out |
| `RpcWords.AuthLayout` | librpc/rpc.c:127-149 | a flavour, a length and that much data with zeros behind it |
| `RpcWords.FitsIff` | librpc/svc_clnt_common.c:115-161 | messages fit 18432 bytes, and only their limits stop them besides |
| `RpcWords.RepliesIff` | librpc/svc.c:423-476 | a server replies exactly to calls to its program and version whose arguments can be read and whose results fit |
| `RpcSpec.ServerSeesCall` | librpc/svc.c:423-476 | a call header is 40 bytes, and the server finds the XID, program, version and procedure that were sent, and the arguments behind them |
| `RpcSpec.ReplyIsTaken` | librpc/clnt.c:500-543 | the reply to a call is accepted and its results decoded intact |
| `RpcSpec.EveryReplyIsTaken` | librpc/svc.c:546-572 | every reply a server sends, to any packet, succeeds for the caller with that packet's XID and carries the results of the procedure on the arguments received |
| `RpcSpec.AnsweredStraysIff` | librpc/svc.c:423-476 | a call that the format answers leads the server astray exactly when an array among its arguments does not fit in memory |
| `RpcSpec.SuccessStraysIff` | librpc/clnt.c:502-543 | so does a reply that succeeds, to the caller |
| `RpcSpec.EndToEnd` | librpc/svc.c:423-572 | a call made with empty credentials is answered with the results of that procedure on those arguments |
| `Rpc.MsgStart` | librpc/svc_clnt_common.c:29-73 | a call takes the next XID modulo the counter's width; the message starts with XID and type |
| `Rpc.XdrSendAuth` | librpc/rpc.c:127-149 | flavour, length and padded body, exactly when they fit |
| `Rpc.XdrCallMsgStart` | librpc/rpc.c:7-27 | the six call words followed by both credentials |
| `Rpc.EmptyCredentials` | librpc/rpc.c:7-27 | with empty credentials the call start is its ten header words |
| `Rpc.XdrReplyMsgStart` | librpc/rpc.c:29-40 | an accepting reply starts with six words and always fits |
| `Rpc.XdrSendReplyHeader` | librpc/rpc.c:102-123 | appends the header exactly when its status is known and it fits |
| `Rpc.XdrSendAcceptedReplyHeader` | librpc/rpc.c:42-75 | verifier and status, with the version range for a mismatch only |
| `Rpc.XdrSendDeniedReply` | librpc/rpc.c:77-100 | mismatch with versions or authentication error with its reason |
| `Rpc.XdrRecvAuth` | librpc/clnt.c:562-589 | reads an empty verifier and rejects every other |
| `Rpc.XdrRecvAcceptedReplyHeader` | librpc/clnt.c:591-628 | reads verifier, status and version range as the format says |
| `Rpc.XdrRecvDeniedReply` | librpc/clnt.c:630-652 | reads a rejection as the format says |
| `Rpc.XdrRecvReplyHeader` | librpc/clnt.c:654-676 | reads a reply header as the format says, or fails |
| `RpcCalls.XdrRead` | librpc/svc_clnt_common.c:100-112 | a packet of at least eight bytes becomes the received message, with stale bytes behind it |
| `RpcCalls.ClntCall` | librpc/clnt.c:421-560 | the outcome of a call is that of its message and the reply that woke it, or of the reset or send failure it met; the XID moves on by one even if encoding fails, but not on a reset at entry |
| `RpcCalls.BuildCall` | librpc/clnt.c:448-471 | the message is header and arguments, and fails exactly when the arguments exceed limits or room |
| `RpcCalls.Receive` | librpc/clnt.c:500-543 | status and results of a reply, with the offsets for rejected calls |
| `RpcCalls.RegisteredServer.SvcGetargs` | librpc/svc.c:524-533 | decodes the arguments at the cursor, for an active server only |
| `RpcCalls.RegisteredServer.SvcSendreply` | librpc/svc.c:546-572 | the packet is the reply under the XID of the call in the input buffer |
| `RpcCalls.RegisteredServer.SvcDispatch` | librpc/svc.c:423-476 | the server answers exactly calls to its program and version whose arguments decode and whose results fit |
| `RpcCalls.ReplyRenumbered` | librpc/svc.c:562-563 | overwriting the first word renumbers the reply and nothing else |
| `RpcCalls.CallThrough` | librpc/clnt.c:421-560 | over two streams, a call whose arguments and results fit returns the results of that procedure on those arguments to its caller |
| `RpcCalls.Answer` | librpc/svc.c:423-572 | the server's half: the packet is the reply to the call, exactly when it fits |
| `RpcThreads.NextKeeps` | librpc/clnt.c:85-560 | every atomic step of callers, receive thread and callback thread keeps mutex, ownership and conservation invariants |
| `RpcThreads.RunKeepsInv` | librpc/clnt.c:85-560 | the invariant holds in every state of every interleaving |
| `RpcThreads.ReplySignalFindsCaller` | librpc/clnt.c:372-387 | the reply signal always finds the active caller waiting, with the reply to its own call in the buffer |
| `RpcThreads.InputKeptWhileOwned` | librpc/clnt.c:346-370 | a packet is read only while neither a caller nor the callback thread owns the input buffer, and no other step changes it |
| `RpcThreads.CallsDispatchedOnce` | librpc/clnt.c:388-408 | with a server for every call, arrived calls are the dispatched ones in order followed by those in transit |
| `RpcThreads.AnswersMatchCalls` | librpc/clnt.c:492-543 | the n-th call that reads an answer reads the n-th reply, as it arrived |
| `RpcThreads.StuckAfterMissing` | librpc/clnt.c:125-212 | after a call without a registered server no packet is read, no caller answered and no call dispatched for ever |
| `RpcThreads.OwnerlessIffMissing` | librpc/clnt.c:125-212 | the buffer is busy without an owner exactly when some call found no server |
| `RpcThreads.MissingHappens` | librpc/clnt.c:125-212 | a concrete run from every start that gets there |
| `RpcProgress.NoWakeupLost` | librpc/clnt.c:346-412 | in every run the receive thread sleeps only while the buffer is busy, the callback thread only without a call, and a caller only while its reply is still to come |
| `RpcProgress.SomeoneGoesOn` | librpc/clnt.c:85-560 | no deadlock: while anything is left to do some thread can do it |
| `RpcProgress.AloneEnds` | librpc/clnt.c:85-560 | left to themselves the threads stop after a number of steps bounded by the state they are in |
| `RpcProgress.StoppedIsAtRest` | librpc/clnt.c:85-560 | wherever they stop, they are at rest |
| `RpcProgress.EverythingIsDealtWith` | librpc/clnt.c:85-560 | from every state of every run in which no call missed its server they go on until every call that arrived is dispatched and every reply is read by its caller |
| `RpcFailures.StepKeepsIff` | librpc/clnt.c:474-559 | with sends and reads that fail, a step keeps mutexes, ownership and conservation exactly unless a caller whose send failed marks a busy buffer as free |
| `RpcFailures.RunKeepsIff` | librpc/clnt.c:474-559 | so a run keeps them throughout exactly when that never happens |
| `RpcFailures.NothingMixedUp` | librpc/clnt.c:474-559 | until then calls reach their servers in order, each once, and every answered call read its own reply |
| `RpcFailures.CallsMixedUp` | librpc/clnt.c:474-559 | a concrete run in which it happens: of two calls the first is never dispatched and the second is dispatched twice |
| `CopybitSpec.SubmitInOrder` | libcopybit/copybit.cpp:378-405 | batches hold one to twelve requests, all but the last twelve, and concatenate to the requests in order: all, or up to and including the first refused batch, whose status is returned |
| `CopybitSpec.SubmittedInsideIff` | libcopybit/copybit.cpp:157-194 | in a full-image blit under every flip and rotation, a submitted request lies inside both images exactly when its clip is not turned inside out |
| `CopybitSpec.BlitStaysInside` | libcopybit/copybit.cpp:378-420 | with sound clips every request of a region lies inside both images |
| `CopybitSpec.BesideTheImage` | libcopybit/copybit.cpp:157-194 | a concrete region rectangle beside the image is submitted with a wrapped width |
| `CopybitSpec.UnscaledIsExact` | libcopybit/copybit.cpp:157-194 | between images of matching size, under every flip and rotation, the source rectangle holds exactly the pixels the clip shows, by an independent pixel map |
| `CopybitSpec.ScaledIsExact` | libcopybit/copybit.cpp:157-194 | between images of any size, under every flip and rotation, coordinates and sizes of the source rectangle are those of the clip times the ratio of the sides, rounded down, by exact products; after a flip they are so from the other edge |
| `CopybitSpec.StretchIsExact` | libcopybit/copybit.cpp:157-194 | the same for every stretch of one rectangle to another, from the corner of the source rectangle |
| `CopybitSpec.WholeShowsWhole` | libcopybit/copybit.cpp:412-421 | the whole destination shows the whole source, under every transform |
| `CopybitSpec.RequestWrites` | libcopybit/copybit.cpp:157-168 | a request writes exactly the pixels of the destination that lie in the region's rectangle and the one stretched to, with the alpha and transform of the device |
| `CopybitSpec.LeftOutIffEmpty` | libcopybit/copybit.cpp:391-395 | a rectangle is left out exactly when a side of it is zero |
| `CopybitSpec.SourcesApart` | libcopybit/copybit.cpp:157-194 | clips that do not overlap read source rectangles that do not overlap, despite the rounding and under every transform |
| `CopybitSpec.ScaleInWords` | libcopybit/copybit.cpp:102-107 | scaling multiplies and divides 32-bit words, or leaves the value alone |
| `CopybitSpec.ScaleIsFloor` | libcopybit/copybit.cpp:102-107 | 32-bit scaling is exact floor division up to the largest dimension |
| `CopybitSpec.IntervalScaled` | libcopybit/copybit.cpp:102-107 | origin and size scaled separately end no later than the scaled end, within the image |
| `Copybit.Muldiv` | libcopybit/copybit.cpp:102-107 | both parameters are scaled in 32-bit words, or left alone, or the divisor is zero |
| `Copybit.SetRects` | libcopybit/copybit.cpp:157-194 | destination is the clip, source is the clip turned, scaled and flipped; it divides by zero exactly when a destination side is zero and the source's is not |
| `Copybit.CopybitContext.Run` | libcopybit/copybit.cpp:378-405 | the loop with its twelve-element buffer submits exactly the kept requests, in batches, until the driver refuses; it divides by zero, before anything is submitted, exactly when there is a rectangle and such a side |
| `Copybit.CopybitContext.Stretch` | libcopybit/copybit.cpp:339-409 | refuses alpha with plane alpha, sources outside the image and oversized images; otherwise submits the region, or divides by zero exactly as above |
| `Copybit.CopybitContext.Blit` | libcopybit/copybit.cpp:412-421 | a blit is the stretch of whole image onto whole image |
| `Copybit.Append` | libcopybit/copybit.cpp:391-400 | an empty request is skipped, and the twelfth submits the batch |
| `Camera.NextKeeps` | libcamera/QualcommCameraHardware.cpp:550-1923 | every step of the API call and of the callback thread keeps the invariant |
| `Camera.RunKeepsInv` | libcamera/QualcommCameraHardware.cpp:550-1923 | the invariant holds in every state of every interleaving with arbitrary callbacks |
| `Camera.EncodeFindsHeap` | libcamera/QualcommCameraHardware.cpp:1883-1922 | an encode callback handled in QCS_WAITING_JPEG always finds a live JPEG heap with room for what it holds |
| `Camera.HeapHoldsFragments` | libcamera/QualcommCameraHardware.cpp:1429-1457 | the heap's first mJpegSize bytes are the fragments received since the size was reset, cut at the heap's end |
| `Camera.PicturesAreFragments` | libcamera/QualcommCameraHardware.cpp:1462-1502 | every delivered picture is its fragments so cut, and each request delivers one picture at most |
| `Camera.JpegStartsEmpty` | libcamera/QualcommCameraHardware.cpp:1858-1872 | a JPEG is awaited only after the raw picture, with a callback set and nothing received yet |
| `Camera.CallbackIsArmed` | libcamera/QualcommCameraHardware.cpp:953-1006 | the JPEG callback is set exactly when the picture last asked for came with one and was not cancelled since |
| `Camera.FailureCallsNullIff` | libcamera/QualcommCameraHardware.cpp:1873-1880 | a reported failure calls a null JPEG callback exactly when it is not |
| `Camera.FailureMeetsNull` | libcamera/QualcommCameraHardware.cpp:1873-1880 | a concrete run in which that happens |
| `Camera.StoredHolds` | libcamera/QualcommCameraHardware.cpp:1446-1456 | storing a fragment keeps the heap equal to the cut concatenation |
| `CameraReports.ReportedIsReceived` | libcamera/QualcommCameraHardware.cpp:1883-1916 | in every run, everything the library reported of the JPEG since it started afresh has been stored or is in the callback thread's hands |
| `CameraReports.HeapHoldsReports` | libcamera/QualcommCameraHardware.cpp:1429-1457 | so the heap starts with exactly what was reported, cut at its end |
| `CameraReports.EncodeDoneDelivers` | libcamera/QualcommCameraHardware.cpp:1897-1916 | the reported end of a JPEG gives all that was reported to the callback as one picture if it is still set, and nothing if not, however API calls come in between |
| `CameraReports.EveryPictureIsReported` | libcamera/QualcommCameraHardware.cpp:1462-1502 | every picture ever given is all that was reported for it, cut at its heap |
| `CameraReports.PictureIsTaken` | libcamera/QualcommCameraHardware.cpp:940-1916 | a run from start to end: the JPEG reported in two parts is delivered and the camera is idle again |
| `CameraReports.MoveReported` | libcamera/QualcommCameraHardware.cpp:1746-1850 | a reported transition is made from its first state and is an error from any other |
| `CameraReports.RawDoneReported` | libcamera/QualcommCameraHardware.cpp:1850-1872 | the end of the raw picture leads to the JPEG if there is a callback, to Idle if not, and to an error outside WaitingRaw |
| `CameraReports.FailureReported` | libcamera/QualcommCameraHardware.cpp:1785-1799 | a failure makes the state an error |
| `CameraReports.FailedIsOver` | libcamera/QualcommCameraHardware.cpp:1873-1880 | a failed picture leaves the camera idle |
| `CameraReports.ApiState` | libcamera/QualcommCameraHardware.cpp:612-1010 | what each API call makes of the state |
| `CameraReports.RequestedFromIdle` | libcamera/QualcommCameraHardware.cpp:940-963 | a picture is requested from Idle only |
| `Camera.JpegBuffer.ReceiveJpegPictureFragment` | libcamera/QualcommCameraHardware.cpp:1430-1457 | the fragment is copied behind what the heap holds, truncated at its end, and nothing else changes |

## Left out

- The second copy of the allocator under libgralloc, the kernel pmem allocator and ashmem buffers: the same claims again, or ioctl wrappers.
- The allocator's destructor and the `size()` getter.
- `Allocator.SimpleBestFitAllocator.SetSize`: after a size that leaves no usable heap, nothing is promised of later calls; on heaps of 2^31 bytes or more, offsets come back negative.
- `Allocator.SimpleBestFitAllocator.Allocate`: after a granted request within 31 bytes of 2^32, nothing is promised of later calls.
- `Pmem.PmemUserspaceAllocator.InitPmemArea`: an unusable heap is reported but not followed up.
- `Pmem.PmemUserspaceAllocator.AllocPmemBuffer`: device sizes that do not round to a positive one below 2^31 and requests within 31 bytes of 2^32 are left out. A failing cache clean is reported as the code does, with the block still handed out; an initialisation failure equal to -1 cannot be told from not initialised and is tried again.
- `Pmem.PmemUserspaceAllocator.FreePmemBuffer`: closing descriptors and clearing buffer memory are not modelled.
- Exclusivity of handle flags after the ashmem fallback.
- `LockWord.MappedOnce`: does not model `terminateBuffer`, memory weaker than sequential consistency, or clients that break the discipline above.
- `XdrStream.Xdr.Encode`: the char and long variants, which add nothing to the word scalars, freeing, null strings and allocation failure are not modelled; lengths to send stay below 2^31, where the source mixes signed and unsigned arithmetic.
- `XdrStream.Xdr.Decode`: what the code holds after straying is not modelled. Arrays are received into memory that the decoder allocates, not into the caller's.
- `RpcSpec.EndToEnd`: covers empty credentials; a non-empty verifier is always rejected on receipt, which `Rpc.XdrRecvAuth` states. The svcerr replies do not copy the request's XID and are left out.
- `RpcThreads.NextKeeps`: assumes no modem reset, no spurious wakeup, one reply per call and a registered transport; failed sends and reads are in `RpcFailures`. A reset marks the buffer as free as a failed send does, and besides abandons the call that waits, which the count of replies does not cover. One client is modelled; others only delay its receive thread.
- `RpcThreads.RunKeepsInv`: the runs are of those steps.
- Fairness of the scheduler, destroying clients, and the condition that starts the service thread.
- `CopybitSpec.SubmittedInsideIff`: covers full-image blits; a cropped source has its origin scaled with its size, and flips are about the whole image. Parameter setting and pixel-format codes are not modelled.
- `Camera.EncodeFindsHeap`: one callback thread, and no release during a picture.
- `Camera.NextKeeps`: raw and preview heaps, the raw callback, focus, parameters and waking of waiting calls are not modelled.
- `Camera.RunKeepsInv`: the runs are of those steps.
- Audio, lights, the OMX plugin, framebuffer posting and the msm7x30 camera wrapper: tables, floats or thin wrappers.
