/** The threads of a client get things done: no wakeup is lost, nobody waits for a lock for ever, and left to
    themselves they deal with everything that has arrived and come to rest. */
module RpcProgress {
  import opened RpcThreads

  // ---- No wakeup is lost ----

  /** The receive thread goes for the buffer only with a packet to read, and sleeps only while it is busy. */
  predicate Working(s: State) {
    && (s.rx == Check || s.rx == InputWait || s.rx == InputWoken ==> s.net != [])
    && (s.rx == InputWait ==> s.busy)
  }

  lemma CallerKeepsWorking(s: State, i: nat)
    requires Working(s) && i < |s.callers| && CallerCanStep(s, i)
    ensures Working(CallerNext(s, i))
  {
    CallerLeavesPcs(s, i);
    CallerLeavesBuffers(s, i);
    if s.callers[i] != Freeing { CallerLeavesBusy(s, i); }
  }

  lemma RxKeepsWorking(s: State)
    requires Working(s) && RxCanStep(s)
    ensures Working(RxNext(s))
  {}

  lemma CbKeepsWorking(s: State)
    requires Working(s) && CbCanStep(s)
    ensures Working(CbNext(s))
  {}

  lemma NextKeepsWorking(s: State, e: Event)
    requires Working(s) && Enabled(s, e)
    ensures Working(Next(s, e))
  {
    match e
    case CallerStep(i) => CallerKeepsWorking(s, i);
    case RxStep => RxKeepsWorking(s);
    case CbStep => CbKeepsWorking(s);
    case _ =>
  }

  lemma {:induction false} RunKeepsWorking(trace: seq<State>, events: seq<Event>, k: nat)
    requires IsRun(trace, events) && k < |trace|
    ensures Working(trace[k])
  {
    if k > 0 {
      RunKeepsWorking(trace, events, k - 1);
      assert Enabled(trace[k - 1], events[k - 1]) && trace[k] == Next(trace[k - 1], events[k - 1]);
      NextKeepsWorking(trace[k - 1], events[k - 1]);
    }
  }

  /** No thread sleeps through what it waits for: the receive thread only while the buffer is busy, the callback
      thread only without a call, and a caller only while its reply has not arrived, is still to be read, or is in
      the receive thread's hands. */
  lemma NoWakeupLost(trace: seq<State>, events: seq<Event>, k: nat)
    requires IsRun(trace, events) && k < |trace|
    ensures var s := trace[k];
      && (s.rx == InputWait ==> s.busy)
      && (s.cb == CbWait || s.cb == NotStarted ==> !s.gotCb)
      && (Active(s) == Waiting ==>
            |s.replies| < s.sent || RepliesIn(s.net) != [] || (RxOwns(s) && s.inMsg.ReplyMsg?))
  {
    RunKeepsInv(trace, events, k);
    RunKeepsWorking(trace, events, k);
  }

  // ---- Somebody can always go on ----

  /** Steps the client's threads take by themselves: nothing arrives, no call is begun, and servers are there. */
  predicate Internal(s: State, e: Event) {
    match e
    case CallerStep(i) => i < |s.callers| && s.callers[i] != Idle
    case RxStep => true
    case RxSignal(_) => true
    case CbStep => true
    case _ => false
  }

  /** Everything is at rest. */
  predicate AtRest(s: State) {
    s.rx == Poll && s.net == [] && (s.cb == NotStarted || s.cb == CbWait) && (s.client == -1 || Active(s) == Waiting)
  }

  /** What is inside a lock, or needs none, can go on. */
  predicate Busy(a: CallerPc, s: State) {
    || (a != Idle && a != Waiting && a != Build && a != Woken && a != WantInput)
    || (CbInside(s.cb) && s.cb != CbWantInput)
    || s.rx == DropRead || s.rx == LeaveReply || s.rx == HandOver || s.rx == LeaveCb || s.rx == SignalReply
    || s.rx == Check
  }

  lemma BusyGoesOn(s: State) returns (e: Event)
    requires Inv(s) && Working(s) && Busy(Active(s), s)
    ensures Enabled(s, e) && Internal(s, e)
  {
    var a := Active(s);
    if a != Idle && a != Waiting && a != Build && a != Woken && a != WantInput {
      e := CallerStep(s.client);
    } else if CbInside(s.cb) && s.cb != CbWantInput {
      e := CbStep;
    } else if s.rx == SignalReply {
      ReplyIsAwaited(a, s);
      e := RxSignal(s.client);
    } else {
      e := RxStep;
    }
  }

  /** With nobody inside, the locks are free. */
  lemma LocksAreFree(a: CallerPc, s: State)
    requires Locks(a, s) && !Busy(a, s)
    ensures s.inputLock == NoOne && (a != WantInput ==> s.replyLock == NoOne)
    ensures s.cb != CbWantInput ==> s.cbLock == NoOne
  {}

  lemma WaiterGoesOn(s: State) returns (e: Event)
    requires Inv(s) && Working(s) && !Busy(Active(s), s) && !Lost(s) && !AtRest(s)
    ensures Enabled(s, e) && Internal(s, e)
  {
    var a := Active(s);
    LocksAreFree(a, s);
    if a == WantInput || a == Build || a == Woken {
      e := CallerStep(s.client);
    } else if s.cb == CbWantInput || s.cb == CbWoken {
      e := CbStep;
    } else {
      e := RxStep;
    }
  }

  /** As long as there is anything to do, some thread can do it: no deadlock. */
  lemma SomeoneGoesOn(s: State) returns (e: Event)
    requires Inv(s) && Working(s) && !Lost(s) && !AtRest(s)
    ensures Enabled(s, e) && Internal(s, e)
  {
    if Busy(Active(s), s) { e := BusyGoesOn(s); } else { e := WaiterGoesOn(s); }
  }

  /** At rest every call that arrived was dispatched, and every reply that arrived was read by its caller. */
  lemma RestMeansDone(s: State)
    requires Inv(s) && !Lost(s) && AtRest(s)
    ensures !s.busy && s.dispatched == s.calls && s.answers == s.replies
    ensures Active(s) == Waiting ==> |s.replies| == s.sent - 1
    ensures Active(s) == Idle ==> |s.replies| == s.sent
  {}

  // ---- It comes to an end ----

  function CallerRank(a: CallerPc): nat {
    match a
    case Idle => 0
    case DropClient => 1
    case DropReply => 2
    case DropInput => 3
    case Freeing => 6
    case WantInput => 7
    case Reading => 8
    case Woken => 9
    case Waiting => 10
    case PreWait => 11
    case Send => 12
    case Build => 13
  }

  function RxRank(rx: RxPc): nat {
    match rx
    case InputWait => 1
    case Check => 2
    case Poll | InputWoken => 3
    case LeaveReply | LeaveCb => 4
    case SignalReply | HandOver => 22
    case Sort => 23
    case DropRead => 24
  }

  function CbRank(cb: CbPc): nat {
    match cb
    case NotStarted | CbWait => 0
    case Top => 4
    case CbWoken | Dispatch => 5
    case CbDropInput => 6
    case CbFreeing => 9
    case CbWantInput => 10
    case Copy => 11
    case Find => 12
  }

  /** Steps left until everything is at rest, at most. */
  function Left(a: CallerPc, s: State): nat {
    30 * |s.net| + CallerRank(a) + RxRank(s.rx) + CbRank(s.cb) + if s.gotCb then 10 else 0
  }

  lemma CallerStepCounts(s: State, i: nat)
    requires i < |s.callers| && CallerCanStep(s, i) && s.callers[i] != Idle
    ensures Left(CallerPcAfter(s.callers[i]), CallerNext(s, i)) < Left(s.callers[i], s)
  {
    CallerLeavesPcs(s, i);
    CallerLeavesBuffers(s, i);
    if s.callers[i] != Freeing { CallerStepKeepsRx(s, i); }
  }

  lemma CallerStepKeepsRx(s: State, i: nat)
    requires i < |s.callers| && CallerCanStep(s, i) && s.callers[i] != Freeing
    ensures CallerNext(s, i).rx == s.rx
  {}

  lemma RxStepCounts(a: CallerPc, s: State)
    requires RxCanStep(s) && Working(s) && (s.rx == HandOver ==> CbLockOk(s))
    ensures Left(a, RxNext(s)) < Left(a, s)
  {}

  lemma CbStepCounts(a: CallerPc, s: State)
    requires CbCanStep(s)
    ensures Left(a, CbNext(s)) < Left(a, s)
  {}

  lemma StepCounts(s: State, e: Event)
    requires Inv(s) && Working(s) && Enabled(s, e) && Internal(s, e)
    ensures Left(Active(Next(s, e)), Next(s, e)) < Left(Active(s), s)
  {
    match e
    case CallerStep(i) =>
      Inside(s, i);
      CallerMoves(s, i);
      ActiveAfterGoto(s, i, CallerPcAfter(s.callers[i]), CallerNext(s, i).client, CallerNext(s, i));
      CallerStepCounts(s, i);
    case RxStep =>
      RxLeaves(s);
      RxStepCounts(Active(s), s);
    case CbStep =>
      CbLeaves(s);
      CbStepCounts(Active(s), s);
    case RxSignal(i) => Inside(s, i);
    case _ =>
  }

  lemma InternalLosesNothing(s: State, e: Event)
    requires Enabled(s, e) && Internal(s, e)
    ensures var t := Next(s, e); t.lost == s.lost && t.calls == s.calls && t.replies == s.replies
  {
    match e
    case CallerStep(i) =>
      CallerLeavesCalls(s, i);
      CallerLeavesReplies(s, i);
    case RxStep => RxLeaves(s);
    case CbStep => CbLeaves(s);
    case _ =>
  }

  /** The threads left to themselves. */
  ghost predicate Alone(trace: seq<State>, events: seq<Event>) {
    && |trace| == |events| + 1
    && forall k {:trigger events[k]} :: 0 <= k < |events| ==>
         Enabled(trace[k], events[k]) && Internal(trace[k], events[k]) && trace[k + 1] == Next(trace[k], events[k])
  }

  lemma AloneFirst(s: State, e: Event, trace: seq<State>, events: seq<Event>)
    requires Alone(trace, events) && Enabled(s, e) && Internal(s, e) && trace[0] == Next(s, e)
    ensures Alone([s] + trace, [e] + events)
  {
    var t, f := [s] + trace, [e] + events;
    forall k {:trigger f[k]} | 0 <= k < |f|
      ensures Enabled(t[k], f[k]) && Internal(t[k], f[k]) && t[k + 1] == Next(t[k], f[k])
    {
      if k > 0 { assert f[k] == events[k - 1]; }
    }
  }

  /** Whatever they do by themselves, they do not do it for ever. */
  lemma {:induction false} AloneEnds(trace: seq<State>, events: seq<Event>)
    requires Alone(trace, events) && Inv(trace[0]) && Working(trace[0])
    ensures |events| <= Left(Active(trace[0]), trace[0])
    decreases |events|
  {
    if events != [] {
      var s, e := trace[0], events[0];
      NextKeeps(s, e);
      NextKeepsWorking(s, e);
      StepCounts(s, e);
      assert Alone(trace[1..], events[1..]) by { AloneRest(trace, events); }
      AloneEnds(trace[1..], events[1..]);
    }
  }

  lemma AloneRest(trace: seq<State>, events: seq<Event>)
    requires Alone(trace, events) && events != []
    ensures Alone(trace[1..], events[1..])
  {
    var t, f := trace[1..], events[1..];
    forall k {:trigger f[k]} | 0 <= k < |f|
      ensures Enabled(t[k], f[k]) && Internal(t[k], f[k]) && t[k + 1] == Next(t[k], f[k])
    {
      assert f[k] == events[k + 1];
    }
  }

  /** ... and when they stop they are at rest. */
  lemma {:induction false} ComesToRest(s: State) returns (trace: seq<State>, events: seq<Event>)
    requires Inv(s) && Working(s) && !Lost(s)
    ensures Alone(trace, events) && trace[0] == s && AtRest(trace[|events|])
    ensures var t := trace[|events|]; Inv(t) && t.lost == s.lost && t.calls == s.calls && t.replies == s.replies
    decreases Left(Active(s), s)
  {
    if AtRest(s) {
      trace, events := [s], [];
    } else {
      var e := SomeoneGoesOn(s);
      NextKeeps(s, e);
      NextKeepsWorking(s, e);
      StepCounts(s, e);
      InternalLosesNothing(s, e);
      var rest, more := ComesToRest(Next(s, e));
      AloneFirst(s, e, rest, more);
      trace, events := [s] + rest, [e] + more;
    }
  }

  /** Wherever they stop, in whatever order they went on, they are at rest. */
  lemma StoppedIsAtRest(s: State)
    requires Inv(s) && Working(s) && !Lost(s) && forall e :: Internal(s, e) ==> !Enabled(s, e)
    ensures AtRest(s)
  {
    if !AtRest(s) { var e := SomeoneGoesOn(s); }
  }

  /** From every state of every run in which no call missed its server: if nothing more arrives and no call is
      begun, the threads go on until all that arrived is dealt with. */
  lemma EverythingIsDealtWith(trace: seq<State>, events: seq<Event>, k: nat) returns (on: seq<State>, steps: seq<Event>)
    requires IsRun(trace, events) && k < |trace| && !Lost(trace[k])
    ensures Alone(on, steps) && on[0] == trace[k]
    ensures var t := on[|steps|];
      AtRest(t) && !t.busy && t.dispatched == trace[k].calls && t.answers == trace[k].replies
  {
    RunKeepsInv(trace, events, k);
    RunKeepsWorking(trace, events, k);
    on, steps := ComesToRest(trace[k]);
    RestMeansDone(on[|steps|]);
  }
}
