/** Calls that cannot be sent and packets that cannot be read, beside the threads of a client. A call
    whose send fails leaves clnt_call where every call does: by marking the input buffer as free,
    although it never owned it. */
module RpcFailures {
  import opened RpcThreads

  /** A client; failed says that the send of the active caller failed. */
  datatype Client = Client(s: State, failed: bool)

  datatype Move =
    | Plain(e: Event)
    | SendFails(i: nat)       // the router does not take the message of caller i
    | ReadFails               // the packet stays with the router

  predicate Possible(x: Client, m: Move) {
    match m
    case Plain(e) => Enabled(x.s, e)
    case SendFails(i) => i < |x.s.callers| && x.s.callers[i] == Send
    case ReadFails => x.s.rx == Check && !x.s.busy && x.s.net != []
  }

  /** A failed caller is done with the buffer once it has marked it as free. */
  function After(x: Client, m: Move): Client
    requires Possible(x, m)
  {
    match m
    case Plain(e) => Client(Next(x.s, e), x.failed && !Frees(x.s, e))
    case SendFails(i) => Client(Goto(x.s, i, WantInput), true)
    case ReadFails => Client(x.s.(rx := Poll, inputLock := NoOne), x.failed)
  }

  /** A caller marks the input buffer as free. */
  predicate Frees(s: State, e: Event) {
    e.CallerStep? && e.i < |s.callers| && s.callers[e.i] == Freeing
  }

  /** ... and takes it away from its owner. */
  predicate Robs(x: Client, m: Move) {
    x.failed && m.Plain? && Frees(x.s, m.e) && x.s.busy
  }

  // ---- Invariant ----

  /** Where the active caller is as far as the buffer goes. */
  function Share(x: Client): CallerPc {
    if x.failed then DropReply else Active(x.s)
  }

  ghost predicate XInv(x: Client) {
    && OneCaller(x.s) && Locks(Active(x.s), x.s) && Owner(Share(x), x.s)
    && CallsConserved(x.s) && RepliesConserved(Share(x), x.s) && Numbered(x.s.replies)
    && (x.failed ==> Active(x.s) == WantInput || Active(x.s) == Freeing)
  }

  lemma SendFailsKeeps(x: Client, i: nat)
    requires XInv(x) && Possible(x, SendFails(i))
    ensures XInv(After(x, SendFails(i)))
  {
    var s, t := x.s, After(x, SendFails(i)).s;
    Inside(s, i);
    ActiveAfterGoto(s, i, WantInput, s.client, t);
    assert Locks(WantInput, t);
    SameOwnerKept(Send, s, DropReply, t);
    SameCallsConserved(s, t);
    SameRepliesConserved(Send, s, DropReply, t);
  }

  lemma ReadFailsKeeps(x: Client)
    requires XInv(x) && Possible(x, ReadFails)
    ensures XInv(After(x, ReadFails))
  {
    var s, t := x.s, After(x, ReadFails).s;
    assert Active(t) == Active(s) && Locks(Active(s), t);
    assert Owner(Share(x), t);
    SameCallsConserved(s, t);
    SameRepliesConserved(Share(x), s, Share(x), t);
  }

  /** A failed caller waits for the input lock, and leaves a buffer alone that is free already. */
  lemma FailedCallerKeeps(x: Client, i: nat)
    requires XInv(x) && x.failed && i < |x.s.callers| && CallerCanStep(x.s, i)
    requires !Robs(x, Plain(CallerStep(i)))
    ensures XInv(After(x, Plain(CallerStep(i))))
  {
    var s, t := x.s, CallerNext(x.s, i);
    assert s.callers[s.client] != Idle && i == s.client;
    var a := s.callers[i];
    CallerMoves(s, i);
    ActiveAfterGoto(s, i, CallerPcAfter(a), t.client, t);
    ReplyLockAfterCaller(s, i);
    InputLockAfterCaller(s, i);
    CbLockAfterCaller(s, i);
    CallsAfterCaller(s, i);
    SameCallsConserved(s, t);
    RepliesAfterCaller(s, i);
    CallerLeavesPcs(s, i);
    if a == WantInput { CallerLeavesBusy(s, i); }
    var o := Share(After(x, Plain(CallerStep(i))));
    SameOwnerKept(DropReply, s, o, t);
    SameRepliesConserved(DropReply, s, o, t);
  }

  lemma FailedRxKeeps(x: Client)
    requires XInv(x) && x.failed && RxCanStep(x.s)
    ensures XInv(After(x, Plain(RxStep)))
  {
    var s, t := x.s, RxNext(x.s);
    RxLeaves(s);
    LocksAfterRx(Active(s), DropReply, s);
    OwnerAfterRx(Active(s), DropReply, s);
    if s.rx == Check && !s.busy {
      CallsAfterRead(DropReply, s);
      RepliesAfterRead(DropReply, s);
    } else {
      CallsAfterRx(DropReply, s);
      SameCallsConserved(s, t);
      RepliesAfterRx(DropReply, s);
      SameRepliesConserved(DropReply, s, DropReply, t);
    }
  }

  lemma FailedCbKeeps(x: Client)
    requires XInv(x) && x.failed && CbCanStep(x.s)
    ensures XInv(After(x, Plain(CbStep)))
  {
    var s, t := x.s, CbNext(x.s);
    CbLeaves(s);
    InputLockAfterCb(Active(s), s);
    ReplyLockAfterCb(Active(s), s);
    CbLockAfterCb(s);
    OwnerAfterCb(DropReply, s);
    if s.cb == Copy {
      CallsAfterCopy(s);
    } else if s.cb == Dispatch {
      CallsAfterDispatch(s);
    } else {
      CallsAfterCb(DropReply, s);
      SameCallsConserved(s, t);
    }
    RepliesAfterCb(DropReply, s);
    SameRepliesConserved(DropReply, s, DropReply, t);
  }

  lemma FailedMissingKeeps(x: Client)
    requires XInv(x) && x.failed && x.s.cb == Find
    ensures XInv(After(x, Plain(CbMissing)))
  {
    var s, t := x.s, Next(x.s, CbMissing);
    OwnerAfterMissing(DropReply, s);
    CallsAfterMissing(s);
    SameRepliesConserved(DropReply, s, DropReply, t);
    assert Active(t) == Active(s) && Locks(Active(s), t);
  }

  /** No reply is due: the failed call was never sent. */
  lemma FailedArrivalKeeps(x: Client, d: nat)
    requires XInv(x) && x.failed
    ensures XInv(After(x, Plain(ArriveCall(d))))
  {
    var s, t := x.s, Next(x.s, ArriveCall(d));
    CallsAfterArrival(s, ArriveCall(d));
    RepliesAfterCallArrives(DropReply, s, d);
    assert Active(t) == Active(s) && Locks(Active(s), t) && Owner(DropReply, t);
  }

  lemma FailedKeeps(x: Client, e: Event)
    requires XInv(x) && x.failed && Enabled(x.s, e) && !Robs(x, Plain(e))
    ensures XInv(After(x, Plain(e)))
  {
    match e
    case ArriveCall(d) => FailedArrivalKeeps(x, d);
    case CallerStep(i) => FailedCallerKeeps(x, i);
    case RxStep => FailedRxKeeps(x);
    case CbStep => FailedCbKeeps(x);
    case CbMissing => FailedMissingKeeps(x);
    case _ =>
  }

  /** Taking the buffer away leaves it free and owned at once. */
  lemma RobbingBreaks(x: Client, m: Move)
    requires XInv(x) && Possible(x, m) && Robs(x, m)
    ensures var t := After(x, m).s; !t.busy && (RxOwns(t) || CbOwns(t) || Lost(t)) && !XInv(After(x, m))
  {}

  /** A step keeps every lock, owner and packet in its place unless it takes the buffer away. */
  lemma StepKeepsIff(x: Client, m: Move)
    requires XInv(x) && Possible(x, m)
    ensures XInv(After(x, m)) <==> !Robs(x, m)
  {
    if Robs(x, m) {
      RobbingBreaks(x, m);
    } else {
      match m
      case SendFails(i) => SendFailsKeeps(x, i);
      case ReadFails => ReadFailsKeeps(x);
      case Plain(e) => if x.failed { FailedKeeps(x, e); } else { NextKeeps(x.s, e); }
    }
  }

  // ---- Runs ----

  ghost predicate IsXRun(trace: seq<Client>, moves: seq<Move>) {
    && |trace| == |moves| + 1
    && Init(trace[0].s) && !trace[0].failed
    && forall k {:trigger moves[k]} :: 0 <= k < |moves| ==>
         Possible(trace[k], moves[k]) && trace[k + 1] == After(trace[k], moves[k])
  }

  lemma {:induction false} RunKeepsUnlessRobbed(trace: seq<Client>, moves: seq<Move>, k: nat)
    requires IsXRun(trace, moves) && k <= |moves| && Unrobbed(trace, moves, k)
    ensures XInv(trace[k])
  {
    if k == 0 {
      InitInv(trace[0].s);
    } else {
      RunKeepsUnlessRobbed(trace, moves, k - 1);
      StepKeepsIff(trace[k - 1], moves[k - 1]);
    }
  }

  ghost predicate Unrobbed(trace: seq<Client>, moves: seq<Move>, n: nat)
    requires |trace| == |moves| + 1 && n <= |moves|
  {
    forall j {:trigger moves[j]} :: 0 <= j < n ==> !Robs(trace[j], moves[j])
  }

  lemma {:induction false} FirstRobbed(trace: seq<Client>, moves: seq<Move>, n: nat) returns (j: nat)
    requires |trace| == |moves| + 1 && n <= |moves| && !Unrobbed(trace, moves, n)
    ensures j < n && Robs(trace[j], moves[j]) && Unrobbed(trace, moves, j)
  {
    j := n - 1;
    if !Unrobbed(trace, moves, n - 1) { j := FirstRobbed(trace, moves, n - 1); }
  }

  /** The invariant holds throughout a run exactly when no failed call takes the buffer away. */
  lemma RunKeepsIff(trace: seq<Client>, moves: seq<Move>, n: nat)
    requires IsXRun(trace, moves) && n <= |moves|
    ensures (forall k :: 0 <= k <= n ==> XInv(trace[k])) <==> Unrobbed(trace, moves, n)
  {
    if Unrobbed(trace, moves, n) {
      forall k | 0 <= k <= n ensures XInv(trace[k]) { RunKeepsUnlessRobbed(trace, moves, k); }
    } else {
      var j := FirstRobbed(trace, moves, n);
      RunBreaks(trace, moves, j);
    }
  }

  lemma RunBreaks(trace: seq<Client>, moves: seq<Move>, j: nat)
    requires IsXRun(trace, moves) && j < |moves| && Unrobbed(trace, moves, j) && Robs(trace[j], moves[j])
    ensures !XInv(trace[j + 1])
  {
    RunKeepsUnlessRobbed(trace, moves, j);
    RobbingBreaks(trace[j], moves[j]);
  }

  ghost predicate InOrder(s: State) {
    && s.dispatched <= s.calls && s.answers <= s.replies
    && forall n :: 0 <= n < |s.answers| ==> s.answers[n].ReplyMsg? && s.answers[n].req == n + 1
  }

  lemma ConservedInOrder(a: CallerPc, s: State)
    requires CallsConserved(s) && RepliesConserved(a, s) && Numbered(s.replies)
    ensures InOrder(s)
  {
    First(s.dispatched, s.lost, When(CallInClone(s), s.clone), When(CallInBuffer(s), s.inMsg), CallsIn(s.net));
    First(s.answers, When(ReplyInBuffer(a, s), s.inMsg), RepliesIn(s.net), [], []);
    NumberedPrefix(s.answers, s.replies);
  }

  lemma NumberedPrefix(answers: seq<Packet>, replies: seq<Packet>)
    requires answers <= replies && Numbered(replies)
    ensures forall n :: 0 <= n < |answers| ==> answers[n].ReplyMsg? && answers[n].req == n + 1
  {
    forall n | 0 <= n < |answers| ensures answers[n] == replies[n] {}
  }

  /** As long as that does not happen, calls reach their servers in order, each once, and every call that
      was answered read the reply to itself, failed sends and reads notwithstanding. */
  lemma NothingMixedUp(trace: seq<Client>, moves: seq<Move>, k: nat)
    requires IsXRun(trace, moves) && k <= |moves| && Unrobbed(trace, moves, k)
    ensures InOrder(trace[k].s)
  {
    RunKeepsUnlessRobbed(trace, moves, k);
    ConservedInOrder(Share(trace[k]), trace[k].s);
  }

  lemma First<T>(a: seq<T>, b: seq<T>, c: seq<T>, d: seq<T>, e: seq<T>)
    ensures a <= a + b + c + d + e && a <= a + b + c
  {}

  // ---- It happens ----

  lemma Go(trace: seq<Client>, moves: seq<Move>, m: Move) returns (trace': seq<Client>, moves': seq<Move>)
    requires IsXRun(trace, moves) && Possible(trace[|moves|], m)
    ensures IsXRun(trace', moves') && trace'[0] == trace[0] && trace'[|moves'|] == After(trace[|moves|], m)
  {
    trace', moves' := trace + [After(trace[|moves|], m)], moves + [m];
  }

  /** Where the threads are while no lock is held but those of the caller in clnt_call and of the
      callback thread. */
  ghost predicate Stage(s: State, callers: seq<CallerPc>, rx: RxPc, cb: CbPc, busy: bool, gotCb: bool) {
    && s.callers == callers && |callers| == 1 && s.client == (if callers[0] == Idle then -1 else 0)
    && s.rx == rx && s.cb == cb && s.busy == busy && s.gotCb == gotCb
    && s.replyLock == (if CallerInReply(callers[0]) then Caller else NoOne)
    && s.inputLock == NoOne && s.cbLock == (if CbInside(cb) then Cb else NoOne)
  }

  /** Where the packets are. */
  ghost predicate Packets(s: State, net: seq<Packet>, inMsg: Packet, done: seq<Packet>, calls: seq<Packet>) {
    s.net == net && s.inMsg == inMsg && s.dispatched == done && s.calls == calls
  }

  lemma TwoCallsArrive(s: State, a: nat, b: nat) returns (trace: seq<Client>, moves: seq<Move>)
    requires Init(s) && |s.callers| == 1
    ensures IsXRun(trace, moves) && trace[0] == Client(s, false)
    ensures var t := trace[|moves|].s;
      Stage(t, [Idle], Poll, NotStarted, false, false)
      && Packets(t, [CallMsg(a), CallMsg(b)], s.inMsg, [], [CallMsg(a), CallMsg(b)])
  {
    trace, moves := [Client(s, false)], [];
    trace, moves := Go(trace, moves, Plain(ArriveCall(a)));
    trace, moves := Go(trace, moves, Plain(ArriveCall(b)));
  }

  /** The receive thread reads the next packet, a call. */
  lemma CallIsRead(trace: seq<Client>, moves: seq<Move>, c: CallerPc, cb: CbPc, p: Packet, rest: seq<Packet>,
                   inMsg: Packet, done: seq<Packet>, calls: seq<Packet>)
    returns (trace': seq<Client>, moves': seq<Move>)
    requires IsXRun(trace, moves) && p.CallMsg?
    requires Stage(trace[|moves|].s, [c], Poll, cb, false, false)
    requires Packets(trace[|moves|].s, [p] + rest, inMsg, done, calls)
    ensures IsXRun(trace', moves') && trace'[0] == trace[0]
    ensures Stage(trace'[|moves'|].s, [c], Sort, cb, true, false)
    ensures Packets(trace'[|moves'|].s, rest, p, done, calls)
  {
    trace', moves' := Go(trace, moves, Plain(RxStep));
    trace', moves' := Go(trace', moves', Plain(RxStep));
    trace', moves' := Go(trace', moves', Plain(RxStep));
  }

  /** ... and hands it over. */
  lemma CallIsHandedOver(trace: seq<Client>, moves: seq<Move>, c: CallerPc, cb: CbPc, busy: bool, net: seq<Packet>,
                         p: Packet, done: seq<Packet>, calls: seq<Packet>)
    returns (trace': seq<Client>, moves': seq<Move>)
    requires IsXRun(trace, moves) && p.CallMsg? && (cb == NotStarted || cb == CbWait)
    requires Stage(trace[|moves|].s, [c], Sort, cb, busy, false) && Packets(trace[|moves|].s, net, p, done, calls)
    ensures IsXRun(trace', moves') && trace'[0] == trace[0]
    ensures Stage(trace'[|moves'|].s, [c], Poll, CbWoken, busy, true)
    ensures Packets(trace'[|moves'|].s, net, p, done, calls)
  {
    trace', moves' := Go(trace, moves, Plain(RxStep));
    trace', moves' := Go(trace', moves', Plain(RxStep));
    trace', moves' := Go(trace', moves', Plain(RxStep));
  }

  /** The callback thread takes up what was handed over. */
  lemma CallIsTakenUp(trace: seq<Client>, moves: seq<Move>, c: CallerPc, busy: bool, net: seq<Packet>, p: Packet,
                      done: seq<Packet>, calls: seq<Packet>)
    returns (trace': seq<Client>, moves': seq<Move>)
    requires IsXRun(trace, moves)
    requires Stage(trace[|moves|].s, [c], Poll, CbWoken, busy, true) && Packets(trace[|moves|].s, net, p, done, calls)
    ensures IsXRun(trace', moves') && trace'[0] == trace[0]
    ensures Stage(trace'[|moves'|].s, [c], Poll, Find, busy, false)
    ensures Packets(trace'[|moves'|].s, net, p, done, calls)
  {
    trace', moves' := Go(trace, moves, Plain(CbStep));
    trace', moves' := Go(trace', moves', Plain(CbStep));
  }

  /** Meanwhile the message of a caller is not taken, and the caller marks the buffer as free. */
  lemma SendFailsMeanwhile(trace: seq<Client>, moves: seq<Move>, net: seq<Packet>, p: Packet, calls: seq<Packet>)
    returns (trace': seq<Client>, moves': seq<Move>)
    requires IsXRun(trace, moves)
    requires Stage(trace[|moves|].s, [Idle], Poll, Find, true, false) && Packets(trace[|moves|].s, net, p, [], calls)
    ensures IsXRun(trace', moves') && trace'[0] == trace[0]
    ensures Stage(trace'[|moves'|].s, [DropReply], Poll, Find, false, false)
    ensures Packets(trace'[|moves'|].s, net, p, [], calls)
  {
    trace', moves' := CallerIsSending(trace, moves, net, p, calls);
    trace', moves' := Go(trace', moves', SendFails(0));
    trace', moves' := Go(trace', moves', Plain(CallerStep(0)));
    trace', moves' := Go(trace', moves', Plain(CallerStep(0)));
    trace', moves' := Go(trace', moves', Plain(CallerStep(0)));
  }

  lemma CallerIsSending(trace: seq<Client>, moves: seq<Move>, net: seq<Packet>, p: Packet, calls: seq<Packet>)
    returns (trace': seq<Client>, moves': seq<Move>)
    requires IsXRun(trace, moves)
    requires Stage(trace[|moves|].s, [Idle], Poll, Find, true, false) && Packets(trace[|moves|].s, net, p, [], calls)
    ensures IsXRun(trace', moves') && trace'[0] == trace[0]
    ensures Stage(trace'[|moves'|].s, [Send], Poll, Find, true, false)
    ensures Packets(trace'[|moves'|].s, net, p, [], calls)
  {
    trace', moves' := Go(trace, moves, Plain(CallerStep(0)));
    trace', moves' := Go(trace', moves', Plain(CallerStep(0)));
  }

  /** The callback thread copies whatever is in the buffer now. */
  lemma CallIsCopied(trace: seq<Client>, moves: seq<Move>, c: CallerPc, rx: RxPc, busy: bool, net: seq<Packet>,
                     p: Packet, done: seq<Packet>, calls: seq<Packet>)
    returns (trace': seq<Client>, moves': seq<Move>)
    requires IsXRun(trace, moves)
    requires Stage(trace[|moves|].s, [c], rx, Find, busy, false) && Packets(trace[|moves|].s, net, p, done, calls)
    ensures IsXRun(trace', moves') && trace'[0] == trace[0]
    ensures Stage(trace'[|moves'|].s, [c], rx, CbWantInput, busy, false) && trace'[|moves'|].s.clone == p
    ensures Packets(trace'[|moves'|].s, net, p, done, calls)
  {
    trace', moves' := Go(trace, moves, Plain(CbStep));
    trace', moves' := Go(trace', moves', Plain(CbStep));
  }

  lemma BufferIsFreed(trace: seq<Client>, moves: seq<Move>, c: CallerPc, rx: RxPc, busy: bool, net: seq<Packet>,
                      p: Packet, done: seq<Packet>, calls: seq<Packet>)
    returns (trace': seq<Client>, moves': seq<Move>)
    requires IsXRun(trace, moves) && (rx == Sort || rx == Poll)
    requires Stage(trace[|moves|].s, [c], rx, CbWantInput, busy, false)
    requires Packets(trace[|moves|].s, net, p, done, calls)
    ensures IsXRun(trace', moves') && trace'[0] == trace[0]
    ensures Stage(trace'[|moves'|].s, [c], rx, Dispatch, false, false)
    ensures Packets(trace'[|moves'|].s, net, p, done, calls) && trace'[|moves'|].s.clone == trace[|moves|].s.clone
  {
    trace', moves' := Go(trace, moves, Plain(CbStep));
    trace', moves' := Go(trace', moves', Plain(CbStep));
    trace', moves' := Go(trace', moves', Plain(CbStep));
  }

  /** ... and dispatches that. */
  lemma CallIsDispatched(trace: seq<Client>, moves: seq<Move>, c: CallerPc, rx: RxPc, busy: bool, net: seq<Packet>,
                         p: Packet, done: seq<Packet>, calls: seq<Packet>)
    returns (trace': seq<Client>, moves': seq<Move>)
    requires IsXRun(trace, moves) && (rx == Sort || rx == Poll)
    requires Stage(trace[|moves|].s, [c], rx, Find, busy, false) && Packets(trace[|moves|].s, net, p, done, calls)
    ensures IsXRun(trace', moves') && trace'[0] == trace[0]
    ensures Stage(trace'[|moves'|].s, [c], rx, Top, false, false)
    ensures Packets(trace'[|moves'|].s, net, p, done + [p], calls)
  {
    trace', moves' := CallIsCopied(trace, moves, c, rx, busy, net, p, done, calls);
    trace', moves' := BufferIsFreed(trace', moves', c, rx, busy, net, p, done, calls);
    trace', moves' := Go(trace', moves', Plain(CbStep));
  }

  /** A send that fails at the wrong moment: the first of two calls is never dispatched, and the second is
      dispatched twice. */
  lemma CallsMixedUp(s: State, a: nat, b: nat) returns (trace: seq<Client>, moves: seq<Move>)
    requires Init(s) && |s.callers| == 1
    ensures IsXRun(trace, moves) && trace[0] == Client(s, false)
    ensures trace[|moves|].s.calls == [CallMsg(a), CallMsg(b)]
    ensures trace[|moves|].s.dispatched == [CallMsg(b), CallMsg(b)]
  {
    var p, q := CallMsg(a), CallMsg(b);
    trace, moves := TwoCallsArrive(s, a, b);
    trace, moves := CallIsRead(trace, moves, Idle, NotStarted, p, [q], s.inMsg, [], [p, q]);
    trace, moves := CallIsHandedOver(trace, moves, Idle, NotStarted, true, [q], p, [], [p, q]);
    trace, moves := CallIsTakenUp(trace, moves, Idle, true, [q], p, [], [p, q]);
    trace, moves := SendFailsMeanwhile(trace, moves, [q], p, [p, q]);
    trace, moves := CallIsRead(trace, moves, DropReply, Find, q, [], p, [], [p, q]);
    trace, moves := CallIsDispatched(trace, moves, DropReply, Sort, true, [], q, [], [p, q]);
    trace, moves := Go(trace, moves, Plain(CbStep));
    trace, moves := CallIsHandedOver(trace, moves, DropReply, CbWait, false, [], q, [q], [p, q]);
    trace, moves := CallIsTakenUp(trace, moves, DropReply, false, [], q, [q], [p, q]);
    trace, moves := CallIsDispatched(trace, moves, DropReply, Poll, false, [], q, [q], [p, q]);
  }
}
