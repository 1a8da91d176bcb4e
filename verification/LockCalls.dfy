/** What calls of gralloc_lock and gralloc_unlock return, against the locks their thread holds before and
    after, over every interleaving. */
module LockCalls {
  import opened Base
  import opened LockWord

  /** The locks of a thread are what they were. */
  predicate Same(t0: Thread, t: Thread) {
    t.shared == t0.shared && t.writer == t0.writer && t.software == t0.software
  }

  /** One lock more, of the kind the usage asks for. */
  predicate Took(t0: Thread, t: Thread, u: Usage) {
    && !t0.writer
    && if u.Writes() then t.writer && t.software == u.swWrite && t.shared == t0.shared
       else !t.writer && t.shared == t0.shared + 1
  }

  /** One lock less: the write lock if there is one. */
  predicate GaveUp(t0: Thread, t: Thread) {
    !t.writer && if t0.writer then t.shared == t0.shared else t.shared + 1 == t0.shared
  }

  /** A word that a request of this usage must be refused on. */
  predicate Busy(w: Word, u: Usage) {
    w.write || (w.count > 0 && u.Writes())
  }

  /** Thread i, inside gralloc_lock, reads the lock word. */
  predicate Reads(s: State, e: Event, i: nat) {
    i < |s.threads| && e.Run? && e.t == i && s.threads[i].pc.LockLoad?
  }

  /** Thread i, inside gralloc_lock, fails to map the buffer. */
  predicate MapFails(s: State, e: Event, i: nat) {
    i < |s.threads| && e == Run(i, None) && s.threads[i].pc.LockMap? && !s.framebuffer
  }

  /** Where a lock call that began in thread state t0 is, failed telling whether its mapping failed. */
  predicate Locking(t0: Thread, t: Thread, u: Usage, failed: bool) {
    match t.pc
    case LockLoad(v) => v == u && Same(t0, t) && !failed
    case LockCas(v, _, _) => v == u && Same(t0, t) && !failed
    case LockOwner(v, _) => v == u && Took(t0, t, u) && !failed
    case LockFlag(v, _) => v == u && Took(t0, t, u) && !failed
    case LockMapCheck(v, _) => v == u && Took(t0, t, u) && !failed
    case LockMutex(v) => v == u && u.Software() && Took(t0, t, u) && !failed
    case LockRecheck(v) => v == u && u.Software() && Took(t0, t, u) && !failed
    case LockMap(v) => v == u && u.Software() && Took(t0, t, u) && !failed
    case LockOr(v) => v == u && u.Software() && Took(t0, t, u) && !failed
    case LockMutexRelease(v, err) => v == u && u.Software() && Took(t0, t, u) && err == MapError(failed)
    case LockBase(v, err) => v == u && u.Software() && Took(t0, t, u) && err == MapError(failed)
    case _ => false
  }

  function MapError(failed: bool): int {
    if failed then MAP_ERROR else 0
  }

  /** How it ended. */
  predicate Locked(t0: Thread, t: Thread, u: Usage, failed: bool, busy: bool) {
    && t.pc.Idle? && t.last.Returned?
    && if busy then t.last.err == -EBUSY && Same(t0, t)
       else t.last.err == MapError(failed) && Took(t0, t, u) && (t.last.vaddr.Some? <==> u.Software())
  }

  /** A step of the call leaves it on its way, or ends it as it should; busy says that the step read a word it
      must refuse on. */
  predicate GoesOn(t0: Thread, t: Thread, u: Usage, failed: bool, busy: bool) {
    if t.pc.Idle? then Locked(t0, t, u, failed, busy) else !busy && Locking(t0, t, u, failed)
  }

  // ---- What one step leaves of its thread ----

  lemma AfterLoad(s: State, i: nat, mmap: Option<nat>)
    requires i < |s.threads| && s.threads[i].pc.LockLoad?
    ensures var t, u := s.threads[i], s.threads[i].pc.u;
      LockStep(s, i, mmap).threads[i] == if Busy(s.word, u) then t.(pc := Idle, last := Returned(-EBUSY, None))
                                         else t.(pc := LockCas(u, s.word, Acquired(s.word, u)))
  {}

  lemma AfterCas(s: State, i: nat, mmap: Option<nat>)
    requires i < |s.threads| && s.threads[i].pc.LockCas?
    ensures var t, u, cur := s.threads[i], s.threads[i].pc.u, s.threads[i].pc.cur;
      LockStep(s, i, mmap).threads[i]
      == if s.word != cur then t.(pc := LockLoad(u))
         else if t.pc.new_.write then t.(writer := true, software := u.swWrite, pc := LockOwner(u, cur))
         else t.(shared := t.shared + 1, pc := LockFlag(u, cur))
  {}

  lemma AfterOwner(s: State, i: nat, mmap: Option<nat>)
    requires i < |s.threads| && (s.threads[i].pc.LockOwner? || s.threads[i].pc.LockFlag?)
    ensures var t, u, cur := s.threads[i], s.threads[i].pc.u, s.threads[i].pc.cur;
      LockStep(s, i, mmap).threads[i] == t.(pc := if t.pc.LockOwner? then LockFlag(u, cur) else LockMapCheck(u, cur))
  {}

  lemma AfterCheck(s: State, i: nat, mmap: Option<nat>)
    requires i < |s.threads| && s.threads[i].pc.LockMapCheck?
    ensures var t, u := s.threads[i], s.threads[i].pc.u;
      LockStep(s, i, mmap).threads[i]
      == if !u.Software() then t.(pc := Idle, last := Returned(0, None))
         else t.(pc := if t.pc.cur.mapped then LockBase(u, 0) else LockMutex(u))
  {}

  lemma AfterMutex(s: State, i: nat, mmap: Option<nat>)
    requires i < |s.threads| && (s.threads[i].pc.LockMutex? || s.threads[i].pc.LockRecheck?)
    ensures var t, u := s.threads[i], s.threads[i].pc.u;
      LockStep(s, i, mmap).threads[i]
      == t.(pc := if t.pc.LockMutex? then LockRecheck(u)
                  else if s.word.mapped then LockMutexRelease(u, 0) else LockMap(u))
  {}

  lemma AfterMap(s: State, i: nat, mmap: Option<nat>)
    requires i < |s.threads| && (s.threads[i].pc.LockMap? || s.threads[i].pc.LockOr?)
    ensures var t, u := s.threads[i], s.threads[i].pc.u;
      LockStep(s, i, mmap).threads[i]
      == t.(pc := if MapFails(s, Run(i, mmap), i) then LockMutexRelease(u, MAP_ERROR)
                  else if t.pc.LockMap? then LockOr(u) else LockMutexRelease(u, 0))
  {}

  lemma AfterLast(s: State, i: nat, mmap: Option<nat>)
    requires i < |s.threads| && (s.threads[i].pc.LockMutexRelease? || s.threads[i].pc.LockBase?)
    ensures var t, u, err := s.threads[i], s.threads[i].pc.u, s.threads[i].pc.err;
      LockStep(s, i, mmap).threads[i]
      == if t.pc.LockMutexRelease? then t.(pc := LockBase(u, err))
         else t.(pc := Idle, last := Returned(err, Some(s.base)))
  {}

  lemma LockingIsInside(t0: Thread, t: Thread, u: Usage, failed: bool)
    requires Locking(t0, t, u, failed)
    ensures InLock(t.pc)
  {}

  /** t is what the next step of thread i leaves of it. */
  predicate StepLeaves(s: State, i: nat, mmap: Option<nat>, t: Thread) {
    && i < |s.threads| && InLock(s.threads[i].pc)
    && var s' := LockStep(s, i, mmap); i < |s'.threads| && t == s'.threads[i]
  }

  lemma TakingGoesOn(s: State, i: nat, mmap: Option<nat>, t: Thread, t0: Thread, u: Usage)
    requires StepLeaves(s, i, mmap, t) && (s.threads[i].pc.LockLoad? || s.threads[i].pc.LockCas?)
    requires ThreadInv(s, i, s.threads[i]) && Locking(t0, s.threads[i], u, false)
    ensures GoesOn(t0, t, u, false, s.threads[i].pc.LockLoad? && Busy(s.word, u))
  {
    if s.threads[i].pc.LockLoad? { AfterLoad(s, i, mmap); } else { AfterCas(s, i, mmap); }
  }

  predicate Mapping(pc: Pc) {
    pc.LockMutex? || pc.LockRecheck? || pc.LockMap? || pc.LockOr?
  }

  lemma MappingGoesOn(s: State, i: nat, mmap: Option<nat>, t: Thread, t0: Thread, u: Usage)
    requires StepLeaves(s, i, mmap, t) && Mapping(s.threads[i].pc) && Locking(t0, s.threads[i], u, false)
    ensures GoesOn(t0, t, u, MapFails(s, Run(i, mmap), i), false)
  {
    var pc := s.threads[i].pc;
    if pc.LockMutex? || pc.LockRecheck? { AfterMutex(s, i, mmap); } else { AfterMap(s, i, mmap); }
  }

  predicate Taken(pc: Pc) {
    pc.LockOwner? || pc.LockFlag? || pc.LockMapCheck? || pc.LockMutexRelease? || pc.LockBase?
  }

  lemma TakenGoesOn(s: State, i: nat, mmap: Option<nat>, t: Thread, t0: Thread, u: Usage, failed: bool)
    requires StepLeaves(s, i, mmap, t) && Taken(s.threads[i].pc) && Locking(t0, s.threads[i], u, failed)
    ensures GoesOn(t0, t, u, failed, false)
  {
    var pc := s.threads[i].pc;
    if pc.LockOwner? || pc.LockFlag? {
      AfterOwner(s, i, mmap);
    } else if pc.LockMapCheck? {
      AfterCheck(s, i, mmap);
    } else {
      AfterLast(s, i, mmap);
    }
  }

  lemma LockGoesOn(s: State, i: nat, mmap: Option<nat>, t: Thread, t0: Thread, u: Usage, failed: bool)
    requires StepLeaves(s, i, mmap, t) && ThreadInv(s, i, s.threads[i]) && Locking(t0, s.threads[i], u, failed)
    ensures GoesOn(t0, t, u, failed || MapFails(s, Run(i, mmap), i), Reads(s, Run(i, mmap), i) && Busy(s.word, u))
  {
    var pc := s.threads[i].pc;
    if pc.LockLoad? || pc.LockCas? {
      TakingGoesOn(s, i, mmap, t, t0, u);
    } else if Mapping(pc) {
      MappingGoesOn(s, i, mmap, t, t0, u);
    } else {
      TakenGoesOn(s, i, mmap, t, t0, u, failed);
    }
  }

  // ---- Releasing ----

  /** Where an unlock call that began in thread state t0 is. */
  predicate Unlocking(t0: Thread, t: Thread) {
    !InLock(t.pc) && !t.pc.Idle? && Same(t0, t)
  }

  predicate Unlocked(t0: Thread, t: Thread) {
    t.pc.Idle? && t.last == Returned(0, None) && GaveUp(t0, t)
  }

  predicate UnlockLeaves(s: State, i: nat, t: Thread) {
    && i < |s.threads| && !InLock(s.threads[i].pc) && !s.threads[i].pc.Idle?
    && var s' := UnlockStep(s, i); i < |s'.threads| && t == s'.threads[i]
  }

  lemma ReleaseGoesOn(s: State, i: nat, t: Thread, t0: Thread)
    requires UnlockLeaves(s, i, t) && s.threads[i].pc.UnlockCas? && Inv(s) && Unlocking(t0, s.threads[i])
    ensures Unlocking(t0, t) || Unlocked(t0, t)
  {
    assert ThreadInv(s, i, s.threads[i]);
    if s.threads[i].writer { WriterOnly(s, i); }
  }

  lemma CheckedGoesOn(s: State, i: nat, t: Thread, t0: Thread)
    requires UnlockLeaves(s, i, t) && s.threads[i].pc.UnlockCheck? && Inv(s) && Unlocking(t0, s.threads[i])
    ensures Unlocking(t0, t)
  {
    assert ThreadInv(s, i, s.threads[i]);
    if s.threads[i].writer { WriterOnly(s, i); }
  }

  lemma FlushGoesOn(s: State, i: nat, t: Thread, t0: Thread)
    requires UnlockLeaves(s, i, t) && Unlocking(t0, s.threads[i])
    requires s.threads[i].pc.UnlockFlag? || s.threads[i].pc.UnlockFlush? || s.threads[i].pc.UnlockClear?
    ensures Unlocking(t0, t)
  {}

  lemma ReadGoesOn(s: State, i: nat, t: Thread, t0: Thread)
    requires UnlockLeaves(s, i, t) && Unlocking(t0, s.threads[i])
    requires s.threads[i].pc.UnlockLoad? || s.threads[i].pc.UnlockOwner? || s.threads[i].pc.UnlockZero?
    ensures Unlocking(t0, t)
  {}

  lemma UnlockGoesOn(s: State, i: nat, t: Thread, t0: Thread)
    requires UnlockLeaves(s, i, t) && Inv(s) && Unlocking(t0, s.threads[i])
    ensures Unlocking(t0, t) || Unlocked(t0, t)
  {
    match s.threads[i].pc
    case UnlockCas(_, _) => ReleaseGoesOn(s, i, t, t0);
    case UnlockCheck(_, _) => CheckedGoesOn(s, i, t, t0);
    case UnlockLoad => ReadGoesOn(s, i, t, t0);
    case UnlockOwner(_) => ReadGoesOn(s, i, t, t0);
    case UnlockZero(_) => ReadGoesOn(s, i, t, t0);
    case _ => FlushGoesOn(s, i, t, t0);
  }

  // ---- Whole calls ----

  /** The call thread i began at step j has not returned before state k. */
  ghost predicate During(trace: seq<State>, i: nat, j: nat, k: nat) {
    j < k < |trace| && forall m :: j < m < k ==> i < |trace[m].threads| && !trace[m].threads[i].pc.Idle?
  }

  /** By state k it has read a word it must refuse on. */
  ghost predicate Refused(trace: seq<State>, events: seq<Event>, i: nat, u: Usage, j: nat, k: nat)
    requires k <= |events| && |trace| == |events| + 1
  {
    exists m {:trigger events[m]} :: j < m < k && Reads(trace[m], events[m], i) && Busy(trace[m].word, u)
  }

  /** By state k it has failed to map the buffer. */
  ghost predicate MapFailed(trace: seq<State>, events: seq<Event>, i: nat, j: nat, k: nat)
    requires k <= |events| && |trace| == |events| + 1
  {
    exists m {:trigger events[m]} :: j < m < k && MapFails(trace[m], events[m], i)
  }

  /** A thread inside a call is moved by its own steps only. */
  lemma OthersKeep(s: State, e: Event, i: nat)
    requires Enabled(s, e) && i < |s.threads| && !s.threads[i].pc.Idle? && !(e.Run? && e.t == i)
    ensures i < |Next(s, e).threads| && Next(s, e).threads[i] == s.threads[i]
    ensures !MapFails(s, e, i) && !Reads(s, e, i)
  {
    if e.Run? {
      if InLock(s.threads[e.t].pc) { LockKeepsOthers(s, e.t, e.mmap, i); } else { UnlockKeepsOthers(s, e.t, i); }
    }
  }

  /** Only the thread that moves changes. */
  ghost predicate OnlyMoves(s: State, s': State, t: nat) {
    |s'.threads| == |s.threads| && forall i :: 0 <= i < |s.threads| && i != t ==> s'.threads[i] == s.threads[i]
  }

  lemma TakingMoves(s: State, t: nat, mmap: Option<nat>)
    requires t < |s.threads| && (s.threads[t].pc.LockLoad? || s.threads[t].pc.LockCas?)
    ensures OnlyMoves(s, LockStep(s, t, mmap), t)
  {}

  lemma MappingMoves(s: State, t: nat, mmap: Option<nat>)
    requires t < |s.threads| && Mapping(s.threads[t].pc)
    ensures OnlyMoves(s, LockStep(s, t, mmap), t)
  {}

  lemma TakenMoves(s: State, t: nat, mmap: Option<nat>)
    requires t < |s.threads| && Taken(s.threads[t].pc)
    ensures OnlyMoves(s, LockStep(s, t, mmap), t)
  {}

  lemma LockKeepsOthers(s: State, t: nat, mmap: Option<nat>, i: nat)
    requires t < |s.threads| && InLock(s.threads[t].pc)
    ensures |LockStep(s, t, mmap).threads| == |s.threads|
    ensures i < |s.threads| && i != t ==> LockStep(s, t, mmap).threads[i] == s.threads[i]
  {
    var pc := s.threads[t].pc;
    if pc.LockLoad? || pc.LockCas? {
      TakingMoves(s, t, mmap);
    } else if Mapping(pc) {
      MappingMoves(s, t, mmap);
    } else {
      TakenMoves(s, t, mmap);
    }
  }

  lemma FlushMoves(s: State, t: nat)
    requires t < |s.threads|
    requires s.threads[t].pc.UnlockFlag? || s.threads[t].pc.UnlockFlush? || s.threads[t].pc.UnlockClear?
    ensures OnlyMoves(s, UnlockStep(s, t), t)
  {}

  lemma ReadMoves(s: State, t: nat)
    requires t < |s.threads|
    requires s.threads[t].pc.UnlockLoad? || s.threads[t].pc.UnlockOwner? || s.threads[t].pc.UnlockZero?
    ensures OnlyMoves(s, UnlockStep(s, t), t)
  {}

  lemma ReleaseMoves(s: State, t: nat)
    requires t < |s.threads| && (s.threads[t].pc.UnlockCheck? || s.threads[t].pc.UnlockCas?)
    ensures OnlyMoves(s, UnlockStep(s, t), t)
  {}

  lemma UnlockKeepsOthers(s: State, t: nat, i: nat)
    requires t < |s.threads| && !InLock(s.threads[t].pc) && !s.threads[t].pc.Idle?
    ensures |UnlockStep(s, t).threads| == |s.threads|
    ensures i < |s.threads| && i != t ==> UnlockStep(s, t).threads[i] == s.threads[i]
  {
    match s.threads[t].pc
    case UnlockCas(_, _) => ReleaseMoves(s, t);
    case UnlockCheck(_, _) => ReleaseMoves(s, t);
    case UnlockLoad => ReadMoves(s, t);
    case UnlockOwner(_) => ReadMoves(s, t);
    case UnlockZero(_) => ReadMoves(s, t);
    case _ => FlushMoves(s, t);
  }

  lemma LockCallStep(s: State, e: Event, i: nat, t0: Thread, u: Usage, failed: bool)
    requires Inv(s) && Enabled(s, e) && i < |s.threads| && Locking(t0, s.threads[i], u, failed)
    ensures i < |Next(s, e).threads|
    ensures GoesOn(t0, Next(s, e).threads[i], u, failed || MapFails(s, e, i), Reads(s, e, i) && Busy(s.word, u))
  {
    LockingIsInside(t0, s.threads[i], u, failed);
    if e.Run? && e.t == i {
      LockKeepsOthers(s, i, e.mmap, i);
      LockGoesOn(s, i, e.mmap, Next(s, e).threads[i], t0, u, failed);
    } else {
      OthersKeep(s, e, i);
    }
  }

  lemma LockBegins(s: State, i: nat, u: Usage)
    requires Enabled(s, Lock(i, u))
    ensures i < |Next(s, Lock(i, u)).threads|
    ensures GoesOn(s.threads[i], Next(s, Lock(i, u)).threads[i], u, false, false)
  {}

  lemma OnItsWay(t0: Thread, t: Thread, u: Usage, failed: bool, busy: bool)
    requires GoesOn(t0, t, u, failed, busy) && !t.pc.Idle?
    ensures !busy && Locking(t0, t, u, failed)
  {}

  lemma RunStep(trace: seq<State>, events: seq<Event>, k: nat)
    requires IsRun(trace, events) && k < |events|
    ensures Enabled(trace[k], events[k]) && trace[k + 1] == Next(trace[k], events[k])
  {}

  lemma RefusedNext(trace: seq<State>, events: seq<Event>, i: nat, u: Usage, j: nat, k: nat)
    requires j < k < |events| && |trace| == |events| + 1
    ensures Refused(trace, events, i, u, j, k + 1)
       <==> Refused(trace, events, i, u, j, k) || (Reads(trace[k], events[k], i) && Busy(trace[k].word, u))
  {}

  lemma MapFailedNext(trace: seq<State>, events: seq<Event>, i: nat, j: nat, k: nat)
    requires j < k < |events| && |trace| == |events| + 1
    ensures MapFailed(trace, events, i, j, k + 1)
       <==> MapFailed(trace, events, i, j, k) || MapFails(trace[k], events[k], i)
  {}

  /** What the steps of the call up to state k have made of its thread. */
  ghost predicate SoFar(trace: seq<State>, events: seq<Event>, i: nat, u: Usage, j: nat, k: nat)
    requires |trace| == |events| + 1 && j < k <= |events|
  {
    && i < |trace[j].threads| && i < |trace[k].threads|
    && GoesOn(trace[j].threads[i], trace[k].threads[i], u, MapFailed(trace, events, i, j, k),
              Refused(trace, events, i, u, j, k))
  }

  lemma SoFarNext(trace: seq<State>, events: seq<Event>, i: nat, u: Usage, j: nat, k: nat)
    requires IsRun(trace, events) && j < k < |events|
    requires SoFar(trace, events, i, u, j, k) && !trace[k].threads[i].pc.Idle?
    ensures SoFar(trace, events, i, u, j, k + 1)
  {
    var s, t0 := trace[k], trace[j].threads[i];
    var failed, busy := MapFailed(trace, events, i, j, k), Refused(trace, events, i, u, j, k);
    OnItsWay(t0, s.threads[i], u, failed, busy);
    RunKeepsInv(trace, events, k);
    RunStep(trace, events, k);
    LockCallStep(s, events[k], i, t0, u, failed);
    RefusedNext(trace, events, i, u, j, k);
    MapFailedNext(trace, events, i, j, k);
  }

  lemma {:induction false} LockCallOn(trace: seq<State>, events: seq<Event>, i: nat, u: Usage, j: nat, k: nat)
    requires IsRun(trace, events) && During(trace, i, j, k) && events[j] == Lock(i, u)
    ensures SoFar(trace, events, i, u, j, k)
    decreases k
  {
    if k == j + 1 {
      RunStep(trace, events, j);
      LockBegins(trace[j], i, u);
    } else {
      LockCallOn(trace, events, i, u, j, k - 1);
      SoFarNext(trace, events, i, u, j, k - 1);
    }
  }

  /** What a call of gralloc_lock returns: -EBUSY exactly when it read a word it must refuse on, holding what it
      held; otherwise it holds one lock more of the kind asked for, and returns 0 or the error of its mapping. */
  lemma LockCallAnswers(trace: seq<State>, events: seq<Event>, i: nat, u: Usage, j: nat, k: nat)
    requires IsRun(trace, events) && During(trace, i, j, k) && events[j] == Lock(i, u)
    requires i < |trace[k].threads| && trace[k].threads[i].pc.Idle?
    ensures i < |trace[j].threads| && trace[k].threads[i].last.Returned?
    ensures var t0, t, err := trace[j].threads[i], trace[k].threads[i], trace[k].threads[i].last.err;
      && (err == -EBUSY <==> Refused(trace, events, i, u, j, k))
      && (err == -EBUSY ==> Same(t0, t))
      && (err != -EBUSY ==> Took(t0, t, u) && err == if MapFailed(trace, events, i, j, k) then -ENOMEM else 0)
  {
    LockCallOn(trace, events, i, u, j, k);
  }

  /** A call ends with an address only where it looks at the base of the buffer. */
  lemma TakingHasNoAddress(s: State, i: nat, mmap: Option<nat>, t: Thread)
    requires StepLeaves(s, i, mmap, t) && (s.threads[i].pc.LockLoad? || s.threads[i].pc.LockCas?)
    ensures t.pc.Idle? ==> t.last == Returned(-EBUSY, None)
  {
    if s.threads[i].pc.LockLoad? { AfterLoad(s, i, mmap); } else { AfterCas(s, i, mmap); }
  }

  lemma MappingDoesNotEnd(s: State, i: nat, mmap: Option<nat>, t: Thread)
    requires StepLeaves(s, i, mmap, t) && Mapping(s.threads[i].pc)
    ensures !t.pc.Idle?
  {
    var pc := s.threads[i].pc;
    if pc.LockMutex? || pc.LockRecheck? { AfterMutex(s, i, mmap); } else { AfterMap(s, i, mmap); }
  }

  lemma TakenHasAddress(s: State, i: nat, mmap: Option<nat>, t: Thread)
    requires StepLeaves(s, i, mmap, t) && Taken(s.threads[i].pc) && t.pc.Idle?
    ensures if s.threads[i].pc.LockBase? then t.last == Returned(s.threads[i].pc.err, Some(s.base))
            else t.last == Returned(0, None)
  {
    var pc := s.threads[i].pc;
    if pc.LockOwner? || pc.LockFlag? {
      AfterOwner(s, i, mmap);
    } else if pc.LockMapCheck? {
      AfterCheck(s, i, mmap);
    } else {
      AfterLast(s, i, mmap);
    }
  }

  lemma AddressIsBase(s: State, i: nat, mmap: Option<nat>, t: Thread)
    requires StepLeaves(s, i, mmap, t) && t.pc.Idle?
    ensures t.last.Returned?
    ensures t.last.vaddr.Some? ==> s.threads[i].pc.LockBase? && t.last == Returned(s.threads[i].pc.err, Some(s.base))
  {
    var pc := s.threads[i].pc;
    if pc.LockLoad? || pc.LockCas? {
      TakingHasNoAddress(s, i, mmap, t);
    } else if Mapping(pc) {
      MappingDoesNotEnd(s, i, mmap, t);
    } else {
      TakenHasAddress(s, i, mmap, t);
    }
  }

  lemma BaseIsAddress(s: State, i: nat, mmap: Option<nat>)
    requires Inv(s) && i < |s.threads| && s.threads[i].pc.LockBase?
    ensures s.threads[i].pc.err == 0 ==> s.word.mapped && s.base == s.address
    ensures LockStep(s, i, mmap).word == s.word && LockStep(s, i, mmap).address == s.address
  {
    assert ThreadInv(s, i, s.threads[i]);
  }

  /** The step that ends a call with an address. */
  lemma EndsWithAddress(s: State, i: nat, mmap: Option<nat>, t: Thread)
    requires StepLeaves(s, i, mmap, t) && Inv(s) && t.pc.Idle? && t.last.Returned? && t.last.vaddr.Some?
    ensures var s' := LockStep(s, i, mmap);
      t.last.err == 0 ==> s'.word.mapped && t.last.vaddr == Some(s'.address)
  {
    AddressIsBase(s, i, mmap, t);
    BaseIsAddress(s, i, mmap);
  }

  /** A step that ends the call of a thread is its own. */
  lemma EndingIsOwn(s: State, e: Event, i: nat)
    requires Enabled(s, e) && i < |s.threads| && InLock(s.threads[i].pc)
    requires i < |Next(s, e).threads| && Next(s, e).threads[i].pc.Idle?
    ensures e.Run? && e.t == i && Next(s, e) == LockStep(s, i, e.mmap)
  {
    if !(e.Run? && e.t == i) { OthersKeep(s, e, i); }
  }

  lemma BeginsWithLoad(s: State, i: nat, u: Usage)
    requires Enabled(s, Lock(i, u))
    ensures i < |Next(s, Lock(i, u)).threads| && Next(s, Lock(i, u)).threads[i].pc == LockLoad(u)
  {}

  lemma RunBeginsWithLoad(trace: seq<State>, events: seq<Event>, i: nat, u: Usage, j: nat)
    requires IsRun(trace, events) && j < |events| && events[j] == Lock(i, u)
    ensures i < |trace[j + 1].threads| && trace[j + 1].threads[i].pc == LockLoad(u)
  {
    RunStep(trace, events, j);
    BeginsWithLoad(trace[j], i, u);
  }

  /** Before its last step a call is inside. */
  lemma InsideBefore(trace: seq<State>, events: seq<Event>, i: nat, u: Usage, j: nat, k: nat)
    requires IsRun(trace, events) && During(trace, i, j, k) && events[j] == Lock(i, u)
    requires i < |trace[k].threads| && trace[k].threads[i].pc.Idle?
    ensures k > j + 1 && i < |trace[k - 1].threads| && InLock(trace[k - 1].threads[i].pc)
  {
    RunBeginsWithLoad(trace, events, i, u, j);
    LockCallOn(trace, events, i, u, j, k - 1);
    var t0, t := trace[j].threads[i], trace[k - 1].threads[i];
    var failed, busy := MapFailed(trace, events, i, j, k - 1), Refused(trace, events, i, u, j, k - 1);
    OnItsWay(t0, t, u, failed, busy);
    LockingIsInside(t0, t, u, failed);
  }

  lemma LockedHasAddress(t0: Thread, t: Thread, u: Usage, failed: bool, busy: bool)
    requires GoesOn(t0, t, u, failed, busy) && t.pc.Idle? && u.Software()
    ensures t.last.Returned? && (t.last.err == 0 ==> t.last.vaddr.Some?)
  {}

  /** Whatever a thread finds on leaving gralloc_lock with 0 and an address is where the buffer is mapped. */
  ghost predicate AddressTrue(s: State, i: nat) {
    i < |s.threads| && s.threads[i].last.Returned? && s.threads[i].last.err == 0 && s.threads[i].last.vaddr.Some? ==>
      s.word.mapped && s.threads[i].last.vaddr == Some(s.address)
  }

  lemma AddressAtEnd(s: State, e: Event, s': State, i: nat)
    requires Inv(s) && Enabled(s, e) && s' == Next(s, e) && i < |s.threads| && InLock(s.threads[i].pc)
    requires i < |s'.threads| && s'.threads[i].pc.Idle?
    ensures AddressTrue(s', i)
  {
    EndingIsOwn(s, e, i);
    var t := s'.threads[i];
    if t.last.Returned? && t.last.vaddr.Some? { EndsWithAddress(s, i, e.mmap, t); }
  }

  /** A software lock that returns 0 yields the address at which the buffer is mapped. */
  lemma LockYieldsAddress(trace: seq<State>, events: seq<Event>, i: nat, u: Usage, j: nat, k: nat)
    requires IsRun(trace, events) && During(trace, i, j, k) && events[j] == Lock(i, u) && u.Software()
    requires i < |trace[k].threads| && trace[k].threads[i].pc.Idle?
    ensures var last := trace[k].threads[i].last;
      last.Returned? && (last.err == 0 ==> trace[k].word.mapped && last.vaddr == Some(trace[k].address))
  {
    EndAddress(trace, events, i, u, j, k);
    LockCallOn(trace, events, i, u, j, k);
    LockedHasAddress(trace[j].threads[i], trace[k].threads[i], u, MapFailed(trace, events, i, j, k),
                     Refused(trace, events, i, u, j, k));
  }

  lemma EndAddress(trace: seq<State>, events: seq<Event>, i: nat, u: Usage, j: nat, k: nat)
    requires IsRun(trace, events) && During(trace, i, j, k) && events[j] == Lock(i, u)
    requires i < |trace[k].threads| && trace[k].threads[i].pc.Idle?
    ensures AddressTrue(trace[k], i)
  {
    InsideBefore(trace, events, i, u, j, k);
    var s, e, s' := RunTriple(trace, events, k - 1);
    AddressAtEnd(s, e, s', i);
  }

  /** A step of a run, with what is known of it. */
  lemma RunTriple(trace: seq<State>, events: seq<Event>, k: nat) returns (s: State, e: Event, s': State)
    requires IsRun(trace, events) && k < |events|
    ensures s == trace[k] && e == events[k] && s' == trace[k + 1]
    ensures Inv(s) && Enabled(s, e) && s' == Next(s, e)
  {
    RunKeepsInv(trace, events, k);
    RunStep(trace, events, k);
    s, e, s' := trace[k], events[k], trace[k + 1];
  }

  lemma UnlockCallStep(s: State, e: Event, i: nat, t0: Thread)
    requires Inv(s) && Enabled(s, e) && i < |s.threads| && Unlocking(t0, s.threads[i])
    ensures i < |Next(s, e).threads|
    ensures Unlocking(t0, Next(s, e).threads[i]) || Unlocked(t0, Next(s, e).threads[i])
  {
    if e.Run? && e.t == i {
      UnlockKeepsOthers(s, i, i);
      UnlockGoesOn(s, i, Next(s, e).threads[i], t0);
    } else {
      OthersKeep(s, e, i);
    }
  }

  lemma UnlockBegins(s: State, i: nat)
    requires Enabled(s, Unlock(i))
    ensures i < |Next(s, Unlock(i)).threads| && Unlocking(s.threads[i], Next(s, Unlock(i)).threads[i])
  {}

  ghost predicate UnlockSoFar(trace: seq<State>, i: nat, j: nat, k: nat) {
    && j < k < |trace| && i < |trace[j].threads| && i < |trace[k].threads|
    && (Unlocking(trace[j].threads[i], trace[k].threads[i]) || Unlocked(trace[j].threads[i], trace[k].threads[i]))
  }

  lemma UnlockSoFarNext(trace: seq<State>, events: seq<Event>, i: nat, j: nat, k: nat)
    requires IsRun(trace, events) && k < |events| && UnlockSoFar(trace, i, j, k) && !trace[k].threads[i].pc.Idle?
    ensures UnlockSoFar(trace, i, j, k + 1)
  {
    RunKeepsInv(trace, events, k);
    RunStep(trace, events, k);
    StillUnlocking(trace[j].threads[i], trace[k].threads[i]);
    UnlockCallStep(trace[k], events[k], i, trace[j].threads[i]);
  }

  lemma StillUnlocking(t0: Thread, t: Thread)
    requires (Unlocking(t0, t) || Unlocked(t0, t)) && !t.pc.Idle?
    ensures Unlocking(t0, t)
  {}

  lemma UnlockFirst(trace: seq<State>, events: seq<Event>, i: nat, j: nat)
    requires IsRun(trace, events) && j < |events| && events[j] == Unlock(i)
    ensures UnlockSoFar(trace, i, j, j + 1)
  {
    RunStep(trace, events, j);
    UnlockBegins(trace[j], i);
  }

  lemma {:induction false} UnlockCallOn(trace: seq<State>, events: seq<Event>, i: nat, j: nat, k: nat)
    requires IsRun(trace, events) && During(trace, i, j, k) && events[j] == Unlock(i)
    ensures UnlockSoFar(trace, i, j, k)
    decreases k
  {
    if k == j + 1 {
      UnlockFirst(trace, events, i, j);
    } else {
      UnlockCallOn(trace, events, i, j, k - 1);
      UnlockSoFarNext(trace, events, i, j, k - 1);
    }
  }

  /** A call of gralloc_unlock by a thread that holds a lock returns 0, and the thread holds one lock less. */
  lemma UnlockCallAnswers(trace: seq<State>, events: seq<Event>, i: nat, j: nat, k: nat)
    requires IsRun(trace, events) && During(trace, i, j, k) && events[j] == Unlock(i)
    requires i < |trace[k].threads| && trace[k].threads[i].pc.Idle?
    ensures i < |trace[j].threads| && trace[k].threads[i].last == Returned(0, None)
    ensures GaveUp(trace[j].threads[i], trace[k].threads[i])
  {
    UnlockCallOn(trace, events, i, j, k);
  }

  // ---- Every call comes to an end ----

  /** Steps a thread has still to take, if no other thread gets in between. */
  function StepsLeft(pc: Pc): nat {
    match pc
    case Idle => 0
    case LockLoad(_) => 11
    case LockCas(_, _, _) => 10
    case LockOwner(_, _) => 9
    case LockFlag(_, _) => 8
    case LockMapCheck(_, _) => 7
    case LockMutex(_) => 6
    case LockRecheck(_) => 5
    case LockMap(_) => 4
    case LockOr(_) => 3
    case LockMutexRelease(_, _) => 2
    case LockBase(_, _) => 1
    case UnlockFlag => 8
    case UnlockFlush => 7
    case UnlockClear => 6
    case UnlockLoad => 5
    case UnlockOwner(_) => 4
    case UnlockZero(_) => 3
    case UnlockCheck(_, _) => 2
    case UnlockCas(_, _) => 1
  }

  /** The compare-and-swap of thread i finds another word than the one it read. */
  predicate Raced(s: State, i: nat)
    requires i < |s.threads|
  {
    var pc := s.threads[i].pc; (pc.LockCas? || pc.UnlockCas?) && s.word != pc.cur
  }

  ghost predicate Nearer(s: State, i: nat, t: Thread)
    requires i < |s.threads|
  {
    Raced(s, i) || StepsLeft(t.pc) < StepsLeft(s.threads[i].pc)
  }

  lemma TakingNears(s: State, i: nat, mmap: Option<nat>, t: Thread)
    requires StepLeaves(s, i, mmap, t) && (s.threads[i].pc.LockLoad? || s.threads[i].pc.LockCas?)
    ensures Nearer(s, i, t)
  {
    if s.threads[i].pc.LockLoad? { AfterLoad(s, i, mmap); } else { AfterCas(s, i, mmap); }
  }

  lemma MappingNears(s: State, i: nat, mmap: Option<nat>, t: Thread)
    requires StepLeaves(s, i, mmap, t) && Mapping(s.threads[i].pc)
    ensures Nearer(s, i, t)
  {
    var pc := s.threads[i].pc;
    if pc.LockMutex? || pc.LockRecheck? { AfterMutex(s, i, mmap); } else { AfterMap(s, i, mmap); }
  }

  lemma TakenNears(s: State, i: nat, mmap: Option<nat>, t: Thread)
    requires StepLeaves(s, i, mmap, t) && Taken(s.threads[i].pc)
    ensures Nearer(s, i, t)
  {
    var pc := s.threads[i].pc;
    if pc.LockOwner? || pc.LockFlag? {
      AfterOwner(s, i, mmap);
    } else if pc.LockMapCheck? {
      AfterCheck(s, i, mmap);
    } else {
      AfterLast(s, i, mmap);
    }
  }

  lemma LockNears(s: State, i: nat, mmap: Option<nat>, t: Thread)
    requires StepLeaves(s, i, mmap, t)
    ensures Nearer(s, i, t)
  {
    var pc := s.threads[i].pc;
    if pc.LockLoad? || pc.LockCas? {
      TakingNears(s, i, mmap, t);
    } else if Mapping(pc) {
      MappingNears(s, i, mmap, t);
    } else {
      TakenNears(s, i, mmap, t);
    }
  }

  lemma FlushNears(s: State, i: nat, t: Thread)
    requires UnlockLeaves(s, i, t)
    requires s.threads[i].pc.UnlockFlag? || s.threads[i].pc.UnlockFlush? || s.threads[i].pc.UnlockClear?
    ensures Nearer(s, i, t)
  {}

  lemma ReadNears(s: State, i: nat, t: Thread)
    requires UnlockLeaves(s, i, t)
    requires s.threads[i].pc.UnlockLoad? || s.threads[i].pc.UnlockOwner? || s.threads[i].pc.UnlockZero?
    ensures Nearer(s, i, t)
  {}

  lemma AfterUnlockCheck(s: State, i: nat)
    requires i < |s.threads| && s.threads[i].pc.UnlockCheck?
    ensures var s' := UnlockStep(s, i);
      i < |s'.threads| && (s'.threads[i].pc.Idle? || s'.threads[i].pc.UnlockCas?)
  {}

  lemma CheckNears(s: State, i: nat, t: Thread)
    requires UnlockLeaves(s, i, t) && s.threads[i].pc.UnlockCheck?
    ensures Nearer(s, i, t)
  {
    AfterUnlockCheck(s, i);
  }

  lemma ReleaseNears(s: State, i: nat, t: Thread)
    requires UnlockLeaves(s, i, t) && s.threads[i].pc.UnlockCas?
    ensures Nearer(s, i, t)
  {}

  lemma UnlockNears(s: State, i: nat, t: Thread)
    requires UnlockLeaves(s, i, t)
    ensures Nearer(s, i, t)
  {
    match s.threads[i].pc
    case UnlockCas(_, _) => ReleaseNears(s, i, t);
    case UnlockCheck(_, _) => CheckNears(s, i, t);
    case UnlockLoad => ReadNears(s, i, t);
    case UnlockOwner(_) => ReadNears(s, i, t);
    case UnlockZero(_) => ReadNears(s, i, t);
    case _ => FlushNears(s, i, t);
  }

  /** Each step of a call brings it nearer to its end, unless another thread changed the word under its
      compare-and-swap. */
  lemma StepBringsNearer(s: State, i: nat, mmap: Option<nat>)
    requires Enabled(s, Run(i, mmap))
    ensures i < |Next(s, Run(i, mmap)).threads|
    ensures Raced(s, i) || StepsLeft(Next(s, Run(i, mmap)).threads[i].pc) < StepsLeft(s.threads[i].pc)
  {
    if InLock(s.threads[i].pc) {
      LockKeepsOthers(s, i, mmap, i);
      LockNears(s, i, mmap, Next(s, Run(i, mmap)).threads[i]);
    } else {
      UnlockKeepsOthers(s, i, i);
      UnlockNears(s, i, Next(s, Run(i, mmap)).threads[i]);
    }
  }

  /** Nobody waits for ever: as long as a thread is inside a call, some thread can take a step. */
  lemma SomeoneCanStep(s: State, i: nat)
    requires Inv(s) && i < |s.threads| && !s.threads[i].pc.Idle? && s.word.count < LOCK_STATE_READ_MASK
    ensures exists j :: Enabled(s, Run(j, None))
  {
    if s.threads[i].pc.LockMutex? && s.mapLock.Some? {
      assert Enabled(s, Run(s.mapLock.value, None));
    } else {
      assert Enabled(s, Run(i, None));
    }
  }
}
