/** The lock word of a graphics buffer: readers, one writer and a mapped flag packed in 32 bits,
    changed by compare-and-swap. Threads take one atomic step at a time, in any order. */
module LockWord {
  import opened Base
  import opened Bits

  const LOCK_STATE_WRITE: nat := 0x8000_0000
  const LOCK_STATE_MAPPED: nat := 0x4000_0000
  const LOCK_STATE_READ_MASK: nat := 0x3FFF_FFFF
  const MAP_ERROR: int := -ENOMEM

  // ---- The word ----

  /** The lock word, field by field. */
  datatype Word = Word(write: bool, mapped: bool, count: nat)

  function Encode(w: Word): nat {
    (if w.write then LOCK_STATE_WRITE else 0) + (if w.mapped then LOCK_STATE_MAPPED else 0) + w.count
  }

  lemma MaskValues()
    ensures Pow2(30) == LOCK_STATE_MAPPED && Pow2(31) == LOCK_STATE_WRITE && Pow2(30) - 1 == LOCK_STATE_READ_MASK
  {
    WordIsPow2();
  }

  lemma EncodedBits(w: Word)
    requires w.count <= LOCK_STATE_READ_MASK
    ensures Encode(w) < WORD32 && Encode(w) % LOCK_STATE_MAPPED == w.count
    ensures Bit(Encode(w), 31) <==> w.write
    ensures Bit(Encode(w), 30) <==> w.mapped
  {
    MaskValues();
    BitIsQuotient(Encode(w), 31);
    BitIsQuotient(Encode(w), 30);
  }

  /** The masks of the source select exactly these fields, while fewer than 2^30 locks are out. */
  lemma MasksSelectFields(w: Word)
    requires w.count <= LOCK_STATE_READ_MASK
    ensures And(Encode(w), LOCK_STATE_WRITE) != 0 <==> w.write
    ensures And(Encode(w), LOCK_STATE_MAPPED) != 0 <==> w.mapped
    ensures And(Encode(w), LOCK_STATE_READ_MASK) == w.count
  {
    EncodedBits(w);
    MaskValues();
    AndPow2(Encode(w), 31);
    AndPow2(Encode(w), 30);
    AndLowMask(Encode(w), 30);
  }

  /** ... and change exactly them. */
  lemma MasksChangeFields(w: Word)
    requires w.count <= LOCK_STATE_READ_MASK
    ensures Or(Encode(w), LOCK_STATE_WRITE) == Encode(w.(write := true))
    ensures Or(Encode(w), LOCK_STATE_MAPPED) == Encode(w.(mapped := true))
    ensures And(Encode(w), Not(LOCK_STATE_WRITE)) == Encode(w.(write := false))
    ensures Encode(w) + 1 == Encode(w.(count := w.count + 1))
    ensures w.count > 0 ==> Encode(w) - 1 == Encode(w.(count := w.count - 1))
  {
    EncodedBits(w);
    MaskValues();
    WordIsPow2();
    OrPow2(Encode(w), 31);
    OrPow2(Encode(w), 30);
    AndNotPow2(Encode(w), 31, 32);
  }

  /** Comparing words is comparing fields. */
  lemma EncodeIsInjective(v: Word, w: Word)
    requires v.count <= LOCK_STATE_READ_MASK && w.count <= LOCK_STATE_READ_MASK
    ensures Encode(v) == Encode(w) <==> v == w
  {}

  // ---- The machine ----

  /** The bits of `usage` that gralloc_lock looks at. */
  datatype Usage = Usage(swRead: bool, swWrite: bool, hwRender: bool) {
    predicate Writes() { swWrite || hwRender }
    predicate Software() { swRead || swWrite }
  }

  /** Where a thread is in gralloc_lock or gralloc_unlock, with the locals still needed there. */
  datatype Pc =
    | Idle
    | LockLoad(u: Usage)
    | LockCas(u: Usage, cur: Word, new_: Word)
    | LockOwner(u: Usage, cur: Word)
    | LockFlag(u: Usage, cur: Word)
    | LockMapCheck(u: Usage, cur: Word)
    | LockMutex(u: Usage)
    | LockRecheck(u: Usage)
    | LockMap(u: Usage)
    | LockOr(u: Usage)
    | LockMutexRelease(u: Usage, err: int)
    | LockBase(u: Usage, err: int)
    | UnlockFlag
    | UnlockFlush
    | UnlockClear
    | UnlockLoad
    | UnlockOwner(cur: Word)
    | UnlockZero(cur: Word)
    | UnlockCheck(cur: Word, new_: Word)
    | UnlockCas(cur: Word, new_: Word)

  /** What the last call returned, with the address stored through vaddr, if any. */
  datatype Outcome = Nothing | Returned(err: int, vaddr: Option<nat>)

  /** A thread, with the locks it holds: read locks, and the write lock and how it was asked for. */
  datatype Thread = Thread(pc: Pc, shared: nat, writer: bool, software: bool, last: Outcome) {
    function Held(): nat { shared + if writer then 1 else 0 }
  }

  datatype State = State(
    word: Word,
    writeOwner: nat,          // thread id, 0 for none
    needsFlush: bool,
    base: nat,
    mapLock: Option<nat>,     // index of the thread inside sMapLock
    threads: seq<Thread>,
    framebuffer: bool,
    home: bool,               // allocated in this process
    premapped: bool,          // and mapped there at once
    // ghost history
    dirty: bool,              // written by software since the last flush
    address: nat,             // where the buffer is mapped
    maps: nat                 // mappings made by gralloc_map and not undone
  )

  function Tid(i: nat): nat { i + 1 }

  function Acquired(cur: Word, u: Usage): Word {
    Word(cur.write || u.Writes(), cur.mapped, cur.count + 1)
  }

  datatype Event =
    | Lock(t: nat, u: Usage)          // a client calls gralloc_lock
    | Unlock(t: nat)                  // a holder calls gralloc_unlock
    | ClientWrite(t: nat)             // a software writer stores into the buffer
    | Run(t: nat, mmap: Option<nat>)  // one step of the call in progress; mmap is what mmap would give
    | Unregister                      // the buffer is unregistered and registered again

  /** Client discipline, and steps that can be taken: a thread releases only locks it holds, only
      software writers write, fewer than 2^30 locks are out, and a locked mutex blocks. */
  predicate Enabled(s: State, e: Event) {
    match e
    case Lock(t, _) => t < |s.threads| && s.threads[t].pc.Idle?
    case Unlock(t) => t < |s.threads| && s.threads[t].pc.Idle? && s.threads[t].Held() > 0
    case ClientWrite(t) => t < |s.threads| && s.threads[t].pc.Idle? && s.threads[t].writer && s.threads[t].software
    case Run(t, _) =>
      && t < |s.threads| && !s.threads[t].pc.Idle?
      && (s.threads[t].pc.LockCas? ==> s.word.count < LOCK_STATE_READ_MASK)
      && (s.threads[t].pc.LockMutex? ==> s.mapLock.None?)
    case Unregister =>
      forall i :: 0 <= i < |s.threads| ==> s.threads[i].pc.Idle? && s.threads[i].Held() == 0
  }

  function Put(s: State, i: nat, t: Thread): State
    requires i < |s.threads|
  {
    s.(threads := s.threads[i := t])
  }

  function Goto(s: State, i: nat, pc: Pc): State
    requires i < |s.threads|
  {
    Put(s, i, s.threads[i].(pc := pc))
  }

  function Return(s: State, i: nat, err: int, vaddr: Option<nat>): State
    requires i < |s.threads|
  {
    Put(s, i, s.threads[i].(pc := Idle, last := Returned(err, vaddr)))
  }

  function Next(s: State, e: Event): State
    requires Enabled(s, e)
  {
    match e
    case Lock(t, u) => Goto(s, t, LockLoad(u))
    case Unlock(t) => Goto(s, t, UnlockFlag)
    case ClientWrite(t) => s.(dirty := s.dirty || !s.framebuffer)
    case Run(t, mmap) => if InLock(s.threads[t].pc) then LockStep(s, t, mmap) else UnlockStep(s, t)
    case Unregister =>
      if s.home then s else s.(word := Word(false, false, 0), writeOwner := 0, base := 0,
         address := if s.framebuffer then 0 else s.address,
         maps := if s.word.mapped && !s.framebuffer && s.maps > 0 then s.maps - 1 else s.maps)
  }

  predicate InLock(pc: Pc) {
    pc.LockLoad? || pc.LockCas? || pc.LockOwner? || pc.LockFlag? || pc.LockMapCheck? || pc.LockMutex? ||
    pc.LockRecheck? || pc.LockMap? || pc.LockOr? || pc.LockMutexRelease? || pc.LockBase?
  }

  /** One step of gralloc_lock. */
  function LockStep(s: State, i: nat, mmap: Option<nat>): State
    requires i < |s.threads| && InLock(s.threads[i].pc)
  {
    var t := s.threads[i];
    match t.pc
    case LockLoad(u) =>
      var cur := s.word;
      if cur.write then Return(s, i, -EBUSY, None)
      else if cur.count > 0 && u.Writes() then Return(s, i, -EBUSY, None)
      else Goto(s, i, LockCas(u, cur, Acquired(cur, u)))
    case LockCas(u, cur, new_) =>
      if s.word != cur then Goto(s, i, LockLoad(u))
      else
        var t' := if new_.write then t.(writer := true, software := u.swWrite) else t.(shared := t.shared + 1);
        Put(s.(word := new_), i, t'.(pc := if new_.write then LockOwner(u, cur) else LockFlag(u, cur)))
    case LockOwner(u, cur) => Goto(s.(writeOwner := Tid(i)), i, LockFlag(u, cur))
    case LockFlag(u, cur) =>
      Goto(s.(needsFlush := s.needsFlush || (u.swWrite && !s.framebuffer)), i, LockMapCheck(u, cur))
    case LockMapCheck(u, cur) =>
      if !u.Software() then Return(s, i, 0, None)
      else if cur.mapped then Goto(s, i, LockBase(u, 0))
      else Goto(s, i, LockMutex(u))
    case LockMutex(u) => Goto(s.(mapLock := Some(i)), i, LockRecheck(u))
    case LockRecheck(u) => Goto(s, i, if s.word.mapped then LockMutexRelease(u, 0) else LockMap(u))
    case LockMap(u) =>
      if s.framebuffer then Goto(s, i, LockOr(u))
      else if mmap.Some? then Goto(s.(base := mmap.value, address := mmap.value, maps := s.maps + 1), i, LockOr(u))
      else Goto(s.(base := 0), i, LockMutexRelease(u, MAP_ERROR))
    case LockOr(u) => Goto(s.(word := s.word.(mapped := true)), i, LockMutexRelease(u, 0))
    case LockMutexRelease(u, err) => Goto(s.(mapLock := None), i, LockBase(u, err))
    case LockBase(u, err) => Return(s, i, err, Some(s.base))
  }

  /** One step of gralloc_unlock. */
  function UnlockStep(s: State, i: nat): State
    requires i < |s.threads| && !InLock(s.threads[i].pc) && !s.threads[i].pc.Idle?
  {
    var t := s.threads[i];
    match t.pc
    case UnlockFlag => Goto(s, i, if s.needsFlush then UnlockFlush else UnlockLoad)
    case UnlockFlush => Goto(s.(dirty := false), i, UnlockClear)
    case UnlockClear => Goto(s.(needsFlush := false), i, UnlockLoad)
    case UnlockLoad =>
      Goto(s, i, if s.word.write then UnlockOwner(s.word) else UnlockCheck(s.word, s.word))
    case UnlockOwner(cur) => Goto(s, i, if s.writeOwner == Tid(i) then UnlockZero(cur) else UnlockCheck(cur, cur))
    case UnlockZero(cur) => Goto(s.(writeOwner := 0), i, UnlockCheck(cur, cur.(write := false)))
    case UnlockCheck(cur, new_) =>
      if new_.count == 0 then Return(s, i, -EINVAL, None)
      else Goto(s, i, UnlockCas(cur, new_.(count := new_.count - 1)))
    case UnlockCas(cur, new_) =>
      if s.word != cur then Goto(s, i, UnlockLoad)
      else
        var t' := if cur.write && !new_.write then t.(writer := false)
                  else if t.shared > 0 then t.(shared := t.shared - 1) else t;
        Put(s.(word := new_), i, t'.(pc := Idle, last := Returned(0, None)))
  }

  // ---- The steps on packed words ----

  /** The word gralloc_lock tries to store over v; none if the buffer is busy. */
  function LockedWord(v: nat, u: Usage): Option<int> {
    if And(v, LOCK_STATE_WRITE) != 0 then None
    else if And(v, LOCK_STATE_READ_MASK) != 0 && u.Writes() then None
    else if u.Writes() then Some(Or(v, LOCK_STATE_WRITE) + 1)
    else Some(v + 1)
  }

  /** The word gralloc_unlock tries to store over v, mine telling whether the caller owns the write
      lock; none if the buffer is not locked. */
  function UnlockedWord(v: nat, mine: bool): Option<int> {
    var n := if And(v, LOCK_STATE_WRITE) != 0 && mine then And(v, Not(LOCK_STATE_WRITE)) else v;
    if And(n, LOCK_STATE_READ_MASK) == 0 then None else Some(n - 1)
  }

  lemma LockedCases(v: nat, u: Usage, write: nat, count: nat, marked: nat)
    requires write == And(v, LOCK_STATE_WRITE) && count == And(v, LOCK_STATE_READ_MASK)
    requires marked == Or(v, LOCK_STATE_WRITE)
    ensures LockedWord(v, u)
         == if write != 0 || (count != 0 && u.Writes()) then None else Some(1 + if u.Writes() then marked else v)
  {}

  lemma LockedIsAcquired(cur: Word, u: Usage)
    requires cur.count <= LOCK_STATE_READ_MASK
    ensures LockedWord(Encode(cur), u)
         == if cur.write || (cur.count > 0 && u.Writes()) then None else Some(Encode(Acquired(cur, u)))
  {
    var v := Encode(cur);
    MasksSelectFields(cur);
    MasksChangeFields(cur);
    LockedCases(v, u, And(v, LOCK_STATE_WRITE), cur.count, Encode(cur.(write := true)));
    if !cur.write { AcquiredIsOneMore(cur, u); }
  }

  lemma AcquiredIsOneMore(cur: Word, u: Usage)
    requires !cur.write
    ensures Encode(Acquired(cur, u)) == 1 + if u.Writes() then Encode(cur.(write := true)) else Encode(cur)
  {}

  lemma UnlockedIsReleased(cur: Word, mine: bool)
    requires cur.count <= LOCK_STATE_READ_MASK
    ensures var n := if mine then cur.(write := false) else cur;
      UnlockedWord(Encode(cur), mine) == if cur.count == 0 then None else Some(Encode(n.(count := n.count - 1)))
  {
    MasksSelectFields(cur);
    MasksChangeFields(cur);
    var n := if mine then cur.(write := false) else cur;
    assert cur.write || n == cur;
    MasksSelectFields(n);
    MasksChangeFields(n);
  }

  // ---- The invariant ----

  function Total(ts: seq<Thread>): nat {
    if ts == [] then 0 else ts[0].Held() + Total(ts[1..])
  }

  ghost predicate SomeWriter(ts: seq<Thread>) {
    exists i :: 0 <= i < |ts| && ts[i].writer
  }

  predicate InMapLock(pc: Pc) {
    pc.LockRecheck? || pc.LockMap? || pc.LockOr? || pc.LockMutexRelease?
  }

  predicate MappingDone(s: State) {
    s.word.mapped || (s.mapLock.Some? && s.mapLock.value < |s.threads| && s.threads[s.mapLock.value].pc.LockOr?)
  }

  ghost predicate SharedInv(s: State) {
    // the count is the number of locks out; a write lock is the only lock
    && s.word.count == Total(s.threads) <= LOCK_STATE_READ_MASK
    && (s.word.write <==> SomeWriter(s.threads))
    && (s.word.write ==> s.word.count == 1)
    // what awaits a flush belongs to the writer
    && (s.needsFlush || s.dirty ==> s.word.write)
    // the map lock and the mapping
    && (s.mapLock.Some? ==> s.mapLock.value < |s.threads| && InMapLock(s.threads[s.mapLock.value].pc))
    && (s.premapped ==> s.home && s.word.mapped)
    && (MappingDone(s) || s.framebuffer ==> s.base == s.address)
    && s.maps == (if MappingDone(s) && !s.framebuffer && !s.premapped then 1 else 0)
  }

  /** A settled writer owns the word, and its software writes are flagged for flushing. */
  ghost predicate Settled(s: State, i: nat, t: Thread) {
    t.writer ==>
      && s.writeOwner == Tid(i)
      && (t.software && !s.framebuffer ==> s.needsFlush)
      && (s.dirty ==> t.software && !s.framebuffer)
  }

  /** A thread inside gralloc_lock past its compare-and-swap holds what it asked for. */
  ghost predicate Got(t: Thread, u: Usage) {
    if u.Writes() then t.writer && t.software == u.swWrite else t.shared > 0 && !t.writer
  }

  ghost predicate Clean(s: State) {
    !s.needsFlush && !s.dirty
  }

  ghost predicate ThreadInv(s: State, i: nat, t: Thread) {
    match t.pc
    case Idle => Settled(s, i, t)
    case LockLoad(u) => Settled(s, i, t)
    case LockCas(u, cur, new_) =>
      && !t.writer && !cur.write && (u.Writes() ==> cur.count == 0) && cur.count <= LOCK_STATE_READ_MASK
      && new_ == Acquired(cur, u) && (cur.mapped ==> s.word.mapped)
    case LockOwner(u, cur) => u.Writes() && Got(t, u) && Clean(s) && (cur.mapped ==> s.word.mapped)
    case LockFlag(u, cur) =>
      Got(t, u) && (t.writer ==> s.writeOwner == Tid(i) && Clean(s)) && (cur.mapped ==> s.word.mapped)
    case LockMapCheck(u, cur) => Got(t, u) && Settled(s, i, t) && (cur.mapped ==> s.word.mapped)
    case LockMutex(u) => Got(t, u) && Settled(s, i, t)
    case LockRecheck(u) => Got(t, u) && Settled(s, i, t) && s.mapLock == Some(i)
    case LockMap(u) => Got(t, u) && Settled(s, i, t) && s.mapLock == Some(i) && !s.word.mapped
    case LockOr(u) => Got(t, u) && Settled(s, i, t) && s.mapLock == Some(i) && !s.word.mapped
    case LockMutexRelease(u, err) =>
      Got(t, u) && Settled(s, i, t) && s.mapLock == Some(i) && (err == 0 ==> s.word.mapped)
    case LockBase(u, err) => Got(t, u) && Settled(s, i, t) && (err == 0 ==> s.word.mapped)
    case UnlockFlag => t.Held() > 0 && Settled(s, i, t)
    case UnlockFlush => t.writer && s.writeOwner == Tid(i)
    case UnlockClear => t.writer && s.writeOwner == Tid(i) && !s.dirty
    case UnlockLoad => t.Held() > 0 && (t.writer ==> s.writeOwner == Tid(i) && Clean(s))
    case UnlockOwner(cur) => t.writer && cur == s.word && s.writeOwner == Tid(i) && Clean(s)
    case UnlockZero(cur) => t.writer && cur == s.word && s.writeOwner == Tid(i) && Clean(s)
    case UnlockCheck(cur, new_) =>
      if t.writer then cur == s.word && new_ == cur.(write := false) && s.writeOwner == 0 && Clean(s)
      else t.shared > 0 && !cur.write && new_ == cur && 0 < cur.count <= LOCK_STATE_READ_MASK
    case UnlockCas(cur, new_) =>
      if t.writer then cur == s.word && new_ == cur.(write := false, count := 0) && s.writeOwner == 0 && Clean(s)
      else t.shared > 0 && !cur.write && 0 < cur.count <= LOCK_STATE_READ_MASK && new_ == cur.(count := cur.count - 1)
  }

  ghost predicate Inv(s: State) {
    SharedInv(s) && forall i :: 0 <= i < |s.threads| ==> ThreadInv(s, i, s.threads[i])
  }

  // ---- Counting locks ----

  lemma {:induction false} TotalPut(ts: seq<Thread>, i: nat, t: Thread)
    requires i < |ts|
    ensures Total(ts[i := t]) == Total(ts) - ts[i].Held() + t.Held()
  {
    if i == 0 {
      assert ts[i := t][1..] == ts[1..];
    } else {
      assert ts[i := t][1..] == ts[1..][i - 1 := t];
      TotalPut(ts[1..], i - 1, t);
    }
  }

  lemma {:induction false} TotalAt(ts: seq<Thread>, i: nat)
    requires i < |ts|
    ensures ts[i].Held() <= Total(ts)
  {
    if i > 0 { TotalAt(ts[1..], i - 1); }
  }

  lemma TotalTwo(ts: seq<Thread>, i: nat, j: nat)
    requires i < |ts| && j < |ts| && i != j
    ensures ts[i].Held() + ts[j].Held() <= Total(ts)
  {
    var ts' := ts[i := ts[i].(shared := 0, writer := false)];
    TotalPut(ts, i, ts[i].(shared := 0, writer := false));
    TotalAt(ts', j);
  }

  /** A writer is alone: no other thread holds anything. */
  lemma WriterAlone(s: State, i: nat, j: nat)
    requires SharedInv(s) && i < |s.threads| && j < |s.threads| && i != j && s.threads[i].writer
    ensures s.word.write && s.word.count == 1 && s.threads[i].shared == 0 && s.threads[j].Held() == 0
  {
    TotalTwo(s.threads, i, j);
  }

  lemma WriterOnly(s: State, i: nat)
    requires SharedInv(s) && i < |s.threads| && s.threads[i].writer
    ensures s.word.write && s.word.count == 1 && s.threads[i].shared == 0
  {
    TotalAt(s.threads, i);
  }

  // ---- Interference ----

  /** What a step of another thread may do to what thread j relies on. */
  ghost predicate Rely(s: State, s': State, j: nat, t: Thread) {
    && s'.framebuffer == s.framebuffer
    && (s.word.mapped ==> s'.word.mapped)
    && (t.writer ==> s'.word == s.word && s'.writeOwner == s.writeOwner
                     && s'.needsFlush == s.needsFlush && s'.dirty == s.dirty)
    && (s.mapLock == Some(j) ==> s'.mapLock == s.mapLock && s'.word.mapped == s.word.mapped)
  }

  /** Interference within bounds leaves a thread's own facts true. */
  lemma Stable(s: State, s': State, j: nat, t: Thread)
    requires ThreadInv(s, j, t) && Rely(s, s', j, t)
    ensures ThreadInv(s', j, t)
  {}

  /** A step of thread i keeps the invariant if it keeps the shared part, establishes its own
      part, and interferes within bounds. */
  lemma StepKeeps(s: State, s': State, i: nat)
    requires Inv(s) && i < |s.threads| && |s'.threads| == |s.threads|
    requires SharedInv(s') && ThreadInv(s', i, s'.threads[i])
    requires forall j :: 0 <= j < |s.threads| && j != i ==>
               s'.threads[j] == s.threads[j] && Rely(s, s', j, s.threads[j])
    ensures Inv(s')
  {
    forall j | 0 <= j < |s'.threads| ensures ThreadInv(s', j, s'.threads[j]) {
      if j != i { Stable(s, s', j, s.threads[j]); }
    }
  }

  // ---- Every step keeps the invariant ----

  lemma SameHolds(s: State, i: nat, t: Thread)
    requires i < |s.threads| && t.shared == s.threads[i].shared && t.writer == s.threads[i].writer
    ensures Total(s.threads[i := t]) == Total(s.threads)
    ensures SomeWriter(s.threads[i := t]) <==> SomeWriter(s.threads)
  {
    var ts := s.threads[i := t];
    TotalPut(s.threads, i, t);
    if SomeWriter(s.threads) {
      var k :| 0 <= k < |s.threads| && s.threads[k].writer;
      assert ts[k].writer;
    }
    if SomeWriter(ts) {
      var k :| 0 <= k < |ts| && ts[k].writer;
      assert s.threads[k].writer;
    }
  }

  /** A step that changes nothing but the thread's own place and locals. */
  lemma QuietStep(s: State, i: nat, t: Thread)
    requires Inv(s) && i < |s.threads| && t.shared == s.threads[i].shared && t.writer == s.threads[i].writer
    requires t.pc.LockOr? == s.threads[i].pc.LockOr? && (s.mapLock == Some(i) ==> InMapLock(t.pc))
    requires ThreadInv(s, i, t)
    ensures Inv(Put(s, i, t))
  {
    SameHolds(s, i, t);
    var s' := Put(s, i, t);
    Stable(s, s', i, t);
    StepKeeps(s, s', i);
  }

  /** A step by which a thread with a write lock changes the owner or the flush state; without one
      it must change none of them. */
  lemma WriterStep(s: State, s1: State, i: nat, t: Thread)
    requires Inv(s) && i < |s.threads| && t.shared == s.threads[i].shared && t.writer == s.threads[i].writer
    requires s1 == s.(writeOwner := s1.writeOwner, needsFlush := s1.needsFlush, dirty := s1.dirty)
    requires s.threads[i].writer || s1 == s
    requires !t.pc.LockOr? && !s.threads[i].pc.LockOr? && s.mapLock != Some(i)
    requires ThreadInv(s1, i, t)
    ensures Inv(Put(s1, i, t))
  {
    SameHolds(s, i, t);
    var s' := Put(s1, i, t);
    if s.threads[i].writer { WriterOnly(s, i); }
    forall j | 0 <= j < |s.threads| && j != i ensures Rely(s, s', j, s.threads[j]) {
      if s.threads[i].writer { WriterAlone(s, i, j); }
    }
    Stable(s1, s', i, t);
    StepKeeps(s, s', i);
  }

  /** A step inside the mapping code: the thread holds a lock and the map lock, or is taking or
      leaving it. */
  lemma MappingStep(s: State, s1: State, i: nat, t: Thread)
    requires Inv(s) && i < |s.threads| && t.shared == s.threads[i].shared && t.writer == s.threads[i].writer
    requires s.threads[i].Held() > 0 && (s.mapLock == None || s.mapLock == Some(i))
    requires s1 == s.(word := s.word.(mapped := s1.word.mapped), mapLock := s1.mapLock, base := s1.base,
                      address := s1.address, maps := s1.maps)
    requires (s.word.mapped ==> s1.word.mapped) && (s1.mapLock == None || (s1.mapLock == Some(i) && InMapLock(t.pc)))
    requires MappingDone(Put(s1, i, t)) || s.framebuffer ==> s1.base == s1.address
    requires s1.maps == if MappingDone(Put(s1, i, t)) && !s.framebuffer && !s.premapped then 1 else 0
    requires ThreadInv(s1, i, t)
    ensures Inv(Put(s1, i, t))
  {
    SameHolds(s, i, t);
    var s' := Put(s1, i, t);
    forall j | 0 <= j < |s.threads| && j != i ensures Rely(s, s', j, s.threads[j]) {
      if s.threads[j].writer { WriterAlone(s, j, i); }
    }
    Stable(s1, s', i, t);
    StepKeeps(s, s', i);
  }

  /** The compare-and-swap that takes a lock: nothing awaits a flush at that moment. */
  lemma TakeStep(s: State, i: nat)
    requires Inv(s) && i < |s.threads| && s.threads[i].pc.LockCas? && s.word == s.threads[i].pc.cur
    requires s.word.count < LOCK_STATE_READ_MASK
    ensures Clean(s)
    ensures Inv(LockStep(s, i, None))
  {
    var t, s' := s.threads[i], LockStep(s, i, None);
    var t' := s'.threads[i];
    TotalPut(s.threads, i, t');
    assert !SomeWriter(s.threads);
    forall j | 0 <= j < |s.threads| ensures !s.threads[j].writer {}
    assert t'.writer <==> SomeWriter(s'.threads) by {
      if t'.writer { assert s'.threads[i].writer; }
    }
    StepKeeps(s, s', i);
  }

  /** The compare-and-swap that releases a lock. */
  lemma ReleaseStep(s: State, i: nat)
    requires Inv(s) && i < |s.threads| && s.threads[i].pc.UnlockCas? && s.word == s.threads[i].pc.cur
    ensures Inv(UnlockStep(s, i))
  {
    var t, s' := s.threads[i], UnlockStep(s, i);
    var t' := s'.threads[i];
    TotalPut(s.threads, i, t');
    TotalAt(s.threads, i);
    if t.writer {
      WriterOnly(s, i);
    } else {
      assert !SomeWriter(s.threads);
    }
    forall j | 0 <= j < |s.threads| && j != i ensures !s.threads[j].writer {
      if t.writer { WriterAlone(s, i, j); }
    }
    assert !SomeWriter(s'.threads);
    StepKeeps(s, s', i);
  }

  lemma LoadWordKeeps(s: State, i: nat)
    requires Inv(s) && Enabled(s, Run(i, None)) && s.threads[i].pc.LockLoad?
    ensures Inv(LockStep(s, i, None))
  {
    var t, u, cur := s.threads[i], s.threads[i].pc.u, s.word;
    if cur.write || (cur.count > 0 && u.Writes()) {
      QuietStep(s, i, t.(pc := Idle, last := Returned(-EBUSY, None)));
    } else {
      if t.writer { WriterOnly(s, i); }
      QuietStep(s, i, t.(pc := LockCas(u, cur, Acquired(cur, u))));
    }
  }

  lemma SwapKeeps(s: State, i: nat)
    requires Inv(s) && Enabled(s, Run(i, None)) && s.threads[i].pc.LockCas?
    ensures Inv(LockStep(s, i, None))
  {
    if s.word == s.threads[i].pc.cur {
      TakeStep(s, i);
    } else {
      QuietStep(s, i, LockStep(s, i, None).threads[i]);
    }
  }

  lemma MapCheckKeeps(s: State, i: nat)
    requires Inv(s) && Enabled(s, Run(i, None)) && s.threads[i].pc.LockMapCheck?
    ensures Inv(LockStep(s, i, None))
  {
    var t, u, cur := s.threads[i], s.threads[i].pc.u, s.threads[i].pc.cur;
    if !u.Software() {
      QuietStep(s, i, t.(pc := Idle, last := Returned(0, None)));
    } else if cur.mapped {
      QuietStep(s, i, t.(pc := LockBase(u, 0)));
    } else {
      QuietStep(s, i, t.(pc := LockMutex(u)));
    }
  }

  lemma MarkWriterKeeps(s: State, i: nat)
    requires Inv(s) && Enabled(s, Run(i, None)) && (s.threads[i].pc.LockOwner? || s.threads[i].pc.LockFlag?)
    ensures Inv(LockStep(s, i, None))
  {
    var s' := LockStep(s, i, None);
    WriterStep(s, s.(writeOwner := s'.writeOwner, needsFlush := s'.needsFlush), i, s'.threads[i]);
  }

  lemma EnterMapKeeps(s: State, i: nat)
    requires Inv(s) && Enabled(s, Run(i, None))
    requires s.threads[i].pc.LockMutex? || s.threads[i].pc.LockRecheck?
    ensures Inv(LockStep(s, i, None))
  {
    var s' := LockStep(s, i, None);
    if s.threads[i].pc.LockMutex? {
      MappingStep(s, s.(mapLock := Some(i)), i, s'.threads[i]);
    } else {
      QuietStep(s, i, s'.threads[i]);
    }
  }

  lemma MapKeeps(s: State, i: nat, mmap: Option<nat>)
    requires Inv(s) && Enabled(s, Run(i, mmap)) && s.threads[i].pc.LockMap?
    ensures Inv(LockStep(s, i, mmap))
  {
    var t, u := s.threads[i], s.threads[i].pc.u;
    if s.framebuffer {
      MappingStep(s, s, i, t.(pc := LockOr(u)));
    } else if mmap.Some? {
      MappingStep(s, s.(base := mmap.value, address := mmap.value, maps := s.maps + 1), i, t.(pc := LockOr(u)));
    } else {
      MappingStep(s, s.(base := 0), i, t.(pc := LockMutexRelease(u, MAP_ERROR)));
    }
  }

  lemma OrKeeps(s: State, i: nat)
    requires Inv(s) && Enabled(s, Run(i, None)) && s.threads[i].pc.LockOr?
    ensures Inv(LockStep(s, i, None))
  {
    var t := s.threads[i];
    MappingStep(s, s.(word := s.word.(mapped := true)), i, t.(pc := LockMutexRelease(t.pc.u, 0)));
  }

  lemma LeaveMapKeeps(s: State, i: nat)
    requires Inv(s) && Enabled(s, Run(i, None)) && (s.threads[i].pc.LockMutexRelease? || s.threads[i].pc.LockBase?)
    ensures Inv(LockStep(s, i, None))
  {
    var s' := LockStep(s, i, None);
    if s.threads[i].pc.LockMutexRelease? {
      MappingStep(s, s.(mapLock := None), i, s'.threads[i]);
    } else {
      QuietStep(s, i, s'.threads[i]);
    }
  }

  lemma FlushKeeps(s: State, i: nat)
    requires Inv(s) && Enabled(s, Run(i, None))
    requires s.threads[i].pc.UnlockFlush? || s.threads[i].pc.UnlockClear? || s.threads[i].pc.UnlockZero?
    ensures Inv(UnlockStep(s, i))
  {
    var s' := UnlockStep(s, i);
    WriterStep(s, s.(writeOwner := s'.writeOwner, needsFlush := s'.needsFlush, dirty := s'.dirty), i, s'.threads[i]);
  }

  lemma LoadKeeps(s: State, i: nat)
    requires Inv(s) && Enabled(s, Run(i, None)) && (s.threads[i].pc.UnlockFlag? || s.threads[i].pc.UnlockLoad?)
    ensures Inv(UnlockStep(s, i))
  {
    HolderMeetsFlush(s, i);
    TotalAt(s.threads, i);
    QuietStep(s, i, UnlockStep(s, i).threads[i]);
  }

  lemma OwnerReadKeeps(s: State, i: nat)
    requires Inv(s) && Enabled(s, Run(i, None)) && s.threads[i].pc.UnlockOwner?
    ensures Inv(UnlockStep(s, i))
  {
    QuietStep(s, i, s.threads[i].(pc := UnlockZero(s.threads[i].pc.cur)));
  }

  lemma CheckKeeps(s: State, i: nat)
    requires Inv(s) && Enabled(s, Run(i, None)) && s.threads[i].pc.UnlockCheck?
    ensures Inv(UnlockStep(s, i))
  {
    CountLeft(s, i);
    var t, new_ := s.threads[i], s.threads[i].pc.new_;
    QuietStep(s, i, t.(pc := UnlockCas(t.pc.cur, new_.(count := new_.count - 1))));
  }

  /** A thread about to release sees its own lock counted. */
  lemma CountLeft(s: State, i: nat)
    requires Inv(s) && i < |s.threads| && s.threads[i].pc.UnlockCheck?
    ensures var t := s.threads[i];
      && t.pc.new_.count > 0
      && ThreadInv(s, i, t.(pc := UnlockCas(t.pc.cur, t.pc.new_.(count := t.pc.new_.count - 1))))
  {
    if s.threads[i].writer { WriterOnly(s, i); }
  }

  lemma LeaveKeeps(s: State, i: nat)
    requires Inv(s) && Enabled(s, Run(i, None)) && s.threads[i].pc.UnlockCas?
    ensures Inv(UnlockStep(s, i))
  {
    if s.word == s.threads[i].pc.cur {
      ReleaseStep(s, i);
    } else {
      QuietStep(s, i, s.threads[i].(pc := UnlockLoad));
    }
  }

  /** A thread that holds a lock sees the write bit, and a pending flush, only if it is the writer. */
  lemma HolderMeetsFlush(s: State, i: nat)
    requires Inv(s) && i < |s.threads| && s.threads[i].Held() > 0
    ensures s.word.write ==> s.threads[i].writer
    ensures s.needsFlush ==> s.threads[i].writer
  {
    if s.word.write {
      var k :| 0 <= k < |s.threads| && s.threads[k].writer;
      if k != i { WriterAlone(s, k, i); }
    }
  }

  // ---- Runs ----

  /** A buffer no one has locked: freshly registered, or mapped by its allocation. */
  ghost predicate Init(s: State) {
    && s.word == Word(false, s.premapped, 0)
    && s.writeOwner == 0 && !s.needsFlush && !s.dirty && s.maps == 0 && s.mapLock == None
    && (s.premapped ==> s.home)
    && (s.premapped || s.framebuffer ==> s.base == s.address)
    && forall i :: 0 <= i < |s.threads| ==> s.threads[i] == Thread(Idle, 0, false, false, Nothing)
  }

  lemma {:induction false} NoLocksOut(ts: seq<Thread>)
    requires forall i :: 0 <= i < |ts| ==> ts[i].Held() == 0
    ensures Total(ts) == 0
  {
    if ts != [] { NoLocksOut(ts[1..]); }
  }

  lemma InitInv(s: State)
    requires Init(s)
    ensures Inv(s)
  {
    NoLocksOut(s.threads);
  }

  lemma CallKeeps(s: State, e: Event)
    requires Inv(s) && Enabled(s, e) && (e.Lock? || e.Unlock? || e.ClientWrite?)
    ensures Inv(Next(s, e))
  {
    var s' := Next(s, e);
    if e.ClientWrite? {
      WriterStep(s, s', e.t, s.threads[e.t]);
      assert Put(s', e.t, s.threads[e.t]) == s';
    } else {
      QuietStep(s, e.t, s'.threads[e.t]);
    }
  }

  lemma UnregisterKeeps(s: State)
    requires Inv(s) && Enabled(s, Unregister)
    ensures Inv(Next(s, Unregister))
    ensures !s.home ==> Next(s, Unregister).maps == 0
  {
    NoLocksOut(s.threads);
    var s' := Next(s, Unregister);
    forall i | 0 <= i < |s.threads| ensures ThreadInv(s', i, s'.threads[i]) {
      assert s.threads[i].Held() == 0;
    }
    assert !SomeWriter(s.threads);
  }

  lemma LockKeeps(s: State, i: nat, mmap: Option<nat>)
    requires Inv(s) && Enabled(s, Run(i, mmap)) && InLock(s.threads[i].pc)
    ensures Inv(LockStep(s, i, mmap))
  {
    match s.threads[i].pc
    case LockLoad(_) => LoadWordKeeps(s, i);
    case LockCas(_, _, _) => SwapKeeps(s, i);
    case LockMapCheck(_, _) => MapCheckKeeps(s, i);
    case LockOwner(_, _) => MarkWriterKeeps(s, i);
    case LockFlag(_, _) => MarkWriterKeeps(s, i);
    case LockMutex(_) => EnterMapKeeps(s, i);
    case LockRecheck(_) => EnterMapKeeps(s, i);
    case LockMap(_) => MapKeeps(s, i, mmap);
    case LockOr(_) => OrKeeps(s, i);
    case LockMutexRelease(_, _) => LeaveMapKeeps(s, i);
    case LockBase(_, _) => LeaveMapKeeps(s, i);
  }

  lemma UnlockKeeps(s: State, i: nat)
    requires Inv(s) && Enabled(s, Run(i, None)) && !InLock(s.threads[i].pc)
    ensures Inv(UnlockStep(s, i))
  {
    match s.threads[i].pc
    case UnlockFlag => LoadKeeps(s, i);
    case UnlockLoad => LoadKeeps(s, i);
    case UnlockFlush => FlushKeeps(s, i);
    case UnlockClear => FlushKeeps(s, i);
    case UnlockZero(_) => FlushKeeps(s, i);
    case UnlockOwner(_) => OwnerReadKeeps(s, i);
    case UnlockCheck(_, _) => CheckKeeps(s, i);
    case UnlockCas(_, _) => LeaveKeeps(s, i);
  }

  lemma NextKeeps(s: State, e: Event)
    requires Inv(s) && Enabled(s, e)
    ensures Inv(Next(s, e))
  {
    match e
    case Run(t, mmap) => if InLock(s.threads[t].pc) { LockKeeps(s, t, mmap); } else { UnlockKeeps(s, t); }
    case Unregister => UnregisterKeeps(s);
    case _ => CallKeeps(s, e);
  }

  /** trace is a run of the machine, one event after the other. */
  ghost predicate IsRun(trace: seq<State>, events: seq<Event>) {
    && |trace| == |events| + 1
    && Init(trace[0])
    && forall k {:trigger events[k]} :: 0 <= k < |events| ==>
         Enabled(trace[k], events[k]) && trace[k + 1] == Next(trace[k], events[k])
  }

  lemma {:induction false} RunKeepsInv(trace: seq<State>, events: seq<Event>, k: nat)
    requires IsRun(trace, events) && k < |trace|
    ensures Inv(trace[k])
  {
    if k == 0 {
      InitInv(trace[0]);
    } else {
      RunKeepsInv(trace, events, k - 1);
      NextKeeps(trace[k - 1], events[k - 1]);
    }
  }

  // ---- What every run guarantees ----

  /** A held write lock is the only lock, and the word says so; without one the count is the
      number of read locks out. */
  lemma WriteLockIsExclusive(trace: seq<State>, events: seq<Event>, k: nat)
    requires IsRun(trace, events) && k < |trace|
    ensures var s := trace[k];
      && (s.word.write <==> exists i :: 0 <= i < |s.threads| && s.threads[i].writer)
      && (forall i :: 0 <= i < |s.threads| && s.threads[i].writer ==> s.word.count == 1 && s.threads[i].shared == 0)
      && (forall i, j :: 0 <= i < |s.threads| && 0 <= j < |s.threads| && i != j && s.threads[i].writer ==>
            s.threads[j].Held() == 0)
      && s.word.count == Total(s.threads)
  {
    var s := trace[k];
    RunKeepsInv(trace, events, k);
    forall i | 0 <= i < |s.threads| && s.threads[i].writer ensures s.word.count == 1 && s.threads[i].shared == 0 {
      WriterOnly(s, i);
    }
    forall i, j | 0 <= i < |s.threads| && 0 <= j < |s.threads| && i != j && s.threads[i].writer
      ensures s.threads[j].Held() == 0
    {
      WriterAlone(s, i, j);
    }
  }

  /** The releasing compare-and-swap of a writer, whose owner field is already zeroed, never fails;
      and no disciplined thread is told that the buffer was not locked. */
  lemma WriterReleaseNeverFails(trace: seq<State>, events: seq<Event>, k: nat, i: nat)
    requires IsRun(trace, events) && k < |trace| && i < |trace[k].threads|
    ensures var s, t := trace[k], trace[k].threads[i];
      && (t.pc.UnlockCas? && t.writer ==> s.writeOwner == 0 && s.word == t.pc.cur)
      && (t.pc.UnlockCheck? ==> t.pc.new_.count > 0)
  {
    RunKeepsInv(trace, events, k);
    if trace[k].threads[i].writer { WriterOnly(trace[k], i); }
    assert ThreadInv(trace[k], i, trace[k].threads[i]);
  }

  lemma EarlyStepsKeepWord(s: State, i: nat, mmap: Option<nat>)
    requires i < |s.threads|
    requires var pc := s.threads[i].pc;
      pc.LockLoad? || pc.LockOwner? || pc.LockFlag? || pc.LockMapCheck? || pc.LockMutex?
    ensures LockStep(s, i, mmap).word == s.word
  {}

  lemma LateStepsKeepWord(s: State, i: nat, mmap: Option<nat>)
    requires i < |s.threads|
    requires var pc := s.threads[i].pc; pc.LockRecheck? || pc.LockMap? || pc.LockMutexRelease? || pc.LockBase?
    ensures LockStep(s, i, mmap).word == s.word
  {}

  /** Only the compare-and-swaps and the mapping step write the word. */
  lemma WordChangesByCas(s: State, i: nat, mmap: Option<nat>)
    requires i < |s.threads| && InLock(s.threads[i].pc)
    ensures var t, w := s.threads[i], LockStep(s, i, mmap).word;
      w == if t.pc.LockCas? && s.word == t.pc.cur then t.pc.new_
           else if t.pc.LockOr? then s.word.(mapped := true) else s.word
  {
    var pc := s.threads[i].pc;
    if pc.LockLoad? || pc.LockOwner? || pc.LockFlag? || pc.LockMapCheck? || pc.LockMutex? {
      EarlyStepsKeepWord(s, i, mmap);
    } else if !pc.LockCas? && !pc.LockOr? {
      LateStepsKeepWord(s, i, mmap);
    }
  }

  lemma FlushStepsKeepWord(s: State, i: nat)
    requires i < |s.threads|
    requires var pc := s.threads[i].pc; pc.UnlockFlag? || pc.UnlockFlush? || pc.UnlockClear? || pc.UnlockLoad?
    ensures UnlockStep(s, i).word == s.word
  {}

  lemma WordChangesByRelease(s: State, i: nat)
    requires i < |s.threads| && !InLock(s.threads[i].pc) && !s.threads[i].pc.Idle?
    ensures var t, w := s.threads[i], UnlockStep(s, i).word;
      w == if t.pc.UnlockCas? && s.word == t.pc.cur then t.pc.new_ else s.word
  {
    var pc := s.threads[i].pc;
    if pc.UnlockFlag? || pc.UnlockFlush? || pc.UnlockClear? || pc.UnlockLoad? { FlushStepsKeepWord(s, i); }
  }

  /** What the next step of thread i does by fields, the code does by masks on the packed word. */
  ghost predicate OnPackedWords(s: State, i: nat)
    requires i < |s.threads|
  {
    var v := Encode(s.word);
    match s.threads[i].pc
    case LockLoad(u) =>
      && (LockedWord(v, u).None? <==> LockStep(s, i, None).threads[i].pc.Idle?)
      && (LockedWord(v, u).None? ==> LockStep(s, i, None).threads[i].last == Returned(-EBUSY, None))
    case LockCas(u, cur, new_) =>
      LockedWord(Encode(cur), u) == Some(Encode(new_)) && (v == Encode(cur) <==> s.word == cur)
    case LockRecheck(_) => And(v, LOCK_STATE_MAPPED) != 0 <==> s.word.mapped
    case LockOr(_) => Or(v, LOCK_STATE_MAPPED) == Encode(LockStep(s, i, None).word)
    case UnlockLoad => And(v, LOCK_STATE_WRITE) != 0 <==> s.word.write
    case UnlockCas(cur, new_) =>
      && UnlockedWord(Encode(cur), s.threads[i].writer) == Some(Encode(new_))
      && (v == Encode(cur) <==> s.word == cur)
    case _ => true
  }

  lemma CasOnPackedWords(s: State, i: nat)
    requires Inv(s) && i < |s.threads| && (s.threads[i].pc.LockCas? || s.threads[i].pc.UnlockCas?)
    ensures OnPackedWords(s, i)
  {
    var t := s.threads[i];
    assert ThreadInv(s, i, t);
    if t.writer { WriterOnly(s, i); }
    EncodeIsInjective(s.word, t.pc.cur);
    if t.pc.LockCas? { LockedIsAcquired(t.pc.cur, t.pc.u); } else { UnlockedIsReleased(t.pc.cur, t.writer); }
  }

  /** In every interleaving the steps compute, test and store the packed words of the code. */
  lemma RunIsOnPackedWords(trace: seq<State>, events: seq<Event>, k: nat, i: nat)
    requires IsRun(trace, events) && k < |trace| && i < |trace[k].threads|
    ensures OnPackedWords(trace[k], i)
  {
    RunKeepsInv(trace, events, k);
    var s := trace[k];
    var pc := s.threads[i].pc;
    if pc.LockCas? || pc.UnlockCas? {
      CasOnPackedWords(s, i);
    } else if pc.LockLoad? {
      LockedIsAcquired(s.word, pc.u);
    } else {
      MasksSelectFields(s.word);
      MasksChangeFields(s.word);
    }
  }

  /** Only the acquiring compare-and-swap raises the count. */
  lemma CountRisesByTaking(s: State, e: Event)
    requires Enabled(s, e) && Next(s, e).word.count > s.word.count
    requires e.Run? ==> ThreadInv(s, e.t, s.threads[e.t])
    ensures e.Run? && s.threads[e.t].pc.LockCas? && s.word == s.threads[e.t].pc.cur
  {
    if e.Run? {
      if InLock(s.threads[e.t].pc) { WordChangesByCas(s, e.t, e.mmap); } else { WordChangesByRelease(s, e.t); }
    }
  }

  /** Whenever a lock is taken, every software write so far has been flushed. */
  lemma FlushedBeforeNextLock(trace: seq<State>, events: seq<Event>, k: nat)
    requires IsRun(trace, events) && k < |events|
    requires trace[k + 1].word.count > trace[k].word.count
    ensures !trace[k].dirty && !trace[k].needsFlush
  {
    RunKeepsInv(trace, events, k);
    CountRisesByTaking(trace[k], events[k]);
    TakeStep(trace[k], events[k].t);
  }

  /** The buffer is mapped at most once between registrations, no mapping is left behind by
      unregistering, and a software lock that succeeds yields the address of the mapping. */
  lemma MappedOnce(trace: seq<State>, events: seq<Event>, k: nat)
    requires IsRun(trace, events) && k < |trace|
    ensures trace[k].maps <= 1
    ensures k < |events| && events[k].Unregister? && !trace[k].home ==> trace[k + 1].maps == 0
    ensures forall i :: 0 <= i < |trace[k].threads|
                        && trace[k].threads[i].pc.LockBase? && trace[k].threads[i].pc.err == 0 ==>
              trace[k].word.mapped
              && LockStep(trace[k], i, None).threads[i].last == Returned(0, Some(trace[k].address))
  {
    RunKeepsInv(trace, events, k);
    if k < |events| && events[k].Unregister? { UnregisterKeeps(trace[k]); }
    forall i | 0 <= i < |trace[k].threads| && trace[k].threads[i].pc.LockBase? && trace[k].threads[i].pc.err == 0
      ensures trace[k].word.mapped
              && LockStep(trace[k], i, None).threads[i].last == Returned(0, Some(trace[k].address))
    {
      assert ThreadInv(trace[k], i, trace[k].threads[i]);
    }
  }

  /** The mapped bit is lost only by unregistering the buffer: no compare-and-swap races it away. */
  lemma MappedBitKept(trace: seq<State>, events: seq<Event>, k: nat)
    requires IsRun(trace, events) && k < |events| && trace[k].word.mapped && !events[k].Unregister?
    ensures trace[k + 1].word.mapped
  {
    RunKeepsInv(trace, events, k);
    StepKeepsMapped(trace[k], events[k]);
  }

  lemma StepKeepsMapped(s: State, e: Event)
    requires Enabled(s, e) && s.word.mapped && !e.Unregister?
    requires e.Run? ==> ThreadInv(s, e.t, s.threads[e.t])
    ensures Next(s, e).word.mapped
  {
    if e.Run? {
      if InLock(s.threads[e.t].pc) { WordChangesByCas(s, e.t, e.mmap); } else { WordChangesByRelease(s, e.t); }
    }
  }
}
