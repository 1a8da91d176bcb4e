/** The threads of one RPC client: any number of callers, the receive thread and the callback
    thread. They share one input buffer, its busy flag, four mutexes and three condition variables,
    and take one atomic step at a time, in any order. */
module RpcThreads {

  /** A packet from the router: a call to this process, or the reply to a call of this process,
      numbered in the order the calls were sent. */
  datatype Packet = CallMsg(data: nat) | ReplyMsg(req: nat, data: nat)

  /** Who holds a mutex. */
  datatype Holder = NoOne | Caller | Rx | Cb

  /** Where a caller is in clnt_call. From Send on it holds wait_reply_lock, except in Waiting and
      Woken; in Freeing and DropInput it holds input_xdr_lock too. */
  datatype CallerPc =
    | Idle | Build | Send | PreWait | Waiting | Woken
    | Reading | WantInput | Freeing | DropInput | DropReply | DropClient

  /** Where the receive thread is in rx_context. */
  datatype RxPc =
    | Poll | Check | InputWait | InputWoken | DropRead | Sort | SignalReply | LeaveReply | HandOver | LeaveCb

  /** Where the callback thread is in cb_context; outside CbWait and CbWoken it holds wait_cb_lock. */
  datatype CbPc =
    | NotStarted | CbWoken | Top | CbWait | Find | Copy | CbWantInput | CbFreeing | CbDropInput | Dispatch

  datatype State = State(
    callers: seq<CallerPc>,
    client: int,              // index of the caller that holds client->lock, or -1
    replyLock: Holder,
    cbLock: Holder,
    inputLock: Holder,
    busy: bool,
    gotCb: bool,
    inMsg: Packet,
    rx: RxPc,
    cb: CbPc,
    clone: Packet,            // the input buffer of the server being called back
    net: seq<Packet>,         // arrived and not yet read
    sent: nat,                // calls sent
    // ghost history
    calls: seq<Packet>,       // every call that arrived
    replies: seq<Packet>,     // every reply that arrived
    answers: seq<Packet>,     // what each call read
    dispatched: seq<Packet>,  // every call given to its server
    lost: seq<Packet>)        // calls for which no server was registered

  datatype Event =
    | ArriveCall(data: nat)
    | ArriveReply(data: nat)
    | CallerStep(i: nat)
    | GiveUp(i: nat)          // the arguments cannot be encoded
    | RxStep
    | RxSignal(i: nat)        // signal wait_reply, waking caller i
    | RxSignalNobody          // signal wait_reply with no one waiting
    | CbStep
    | CbMissing               // no server is registered for the call

  predicate Free(h: Holder) { h == NoOne }

  /** The pc of the caller inside the client lock. */
  function Active(s: State): CallerPc {
    if 0 <= s.client < |s.callers| then s.callers[s.client] else Idle
  }

  /** A reply is due for a call that was sent and not yet answered by the router. */
  predicate Enabled(s: State, e: Event) {
    match e
    case ArriveCall(_) => true
    case ArriveReply(_) => |s.replies| < s.sent
    case CallerStep(i) => i < |s.callers| && CallerCanStep(s, i)
    case GiveUp(i) => i < |s.callers| && s.callers[i] == Build
    case RxStep => RxCanStep(s)
    case RxSignal(i) => s.rx == SignalReply && i < |s.callers| && s.callers[i] == Waiting
    case RxSignalNobody => s.rx == SignalReply && forall i :: 0 <= i < |s.callers| ==> s.callers[i] != Waiting
    case CbStep => CbCanStep(s)
    case CbMissing => s.cb == Find
  }

  predicate CallerCanStep(s: State, i: nat)
    requires i < |s.callers|
  {
    match s.callers[i]
    case Idle => s.client == -1
    case Build | Woken => Free(s.replyLock)
    case WantInput => Free(s.inputLock)
    case Waiting => false
    case _ => true
  }

  predicate RxCanStep(s: State) {
    match s.rx
    case Poll => s.net != [] && Free(s.inputLock)
    case Check => s.busy || s.net != []
    case InputWoken => Free(s.inputLock)
    case Sort => if s.inMsg.ReplyMsg? then Free(s.replyLock) else Free(s.cbLock)
    case InputWait | SignalReply => false
    case _ => true
  }

  predicate CbCanStep(s: State) {
    match s.cb
    case CbWoken => Free(s.cbLock)
    case CbWantInput => Free(s.inputLock)
    case NotStarted | CbWait => false
    case _ => true
  }

  function Next(s: State, e: Event): State
    requires Enabled(s, e)
  {
    match e
    case ArriveCall(d) => s.(net := s.net + [CallMsg(d)], calls := s.calls + [CallMsg(d)])
    case ArriveReply(d) =>
      var p := ReplyMsg(|s.replies| + 1, d);
      s.(net := s.net + [p], replies := s.replies + [p])
    case CallerStep(i) => CallerNext(s, i)
    case GiveUp(i) => Goto(s, i, DropClient)
    case RxStep => RxNext(s)
    case RxSignal(i) => Goto(s, i, Woken).(rx := LeaveReply)
    case RxSignalNobody => s.(rx := LeaveReply)
    case CbStep => CbNext(s)
    case CbMissing => s.(cb := Top, lost := s.lost + [s.inMsg])
  }

  function Goto(s: State, i: nat, pc: CallerPc): State
    requires i < |s.callers|
  {
    s.(callers := s.callers[i := pc])
  }

  function CallerNext(s: State, i: nat): State
    requires i < |s.callers| && CallerCanStep(s, i)
  {
    match s.callers[i]
    case Idle => Goto(s, i, Build).(client := i)
    case Build => Goto(s, i, Send).(replyLock := Caller)
    case Send => Goto(s, i, PreWait).(sent := s.sent + 1)
    case PreWait => Goto(s, i, Waiting).(replyLock := NoOne)
    case Woken => Goto(s, i, Reading).(replyLock := Caller)
    case Reading => Goto(s, i, WantInput).(answers := s.answers + [s.inMsg])
    case WantInput => Goto(s, i, Freeing).(inputLock := Caller)
    case Freeing => WakeRx(Goto(s, i, DropInput))
    case DropInput => Goto(s, i, DropReply).(inputLock := NoOne)
    case DropReply => Goto(s, i, DropClient).(replyLock := NoOne)
    case _ => Goto(s, i, Idle).(client := -1)
  }

  /** Mark the input buffer as free and signal input_xdr_wait. */
  function WakeRx(s: State): State {
    s.(busy := false, rx := if s.rx == InputWait then InputWoken else s.rx)
  }

  function RxNext(s: State): State
    requires RxCanStep(s)
  {
    match s.rx
    case Poll | InputWoken => s.(rx := Check, inputLock := Rx)
    case Check =>
      if s.busy then s.(rx := InputWait, inputLock := NoOne)
      else s.(rx := DropRead, inMsg := s.net[0], net := s.net[1..], busy := true)
    case DropRead => s.(rx := Sort, inputLock := NoOne)
    case Sort =>
      if s.inMsg.ReplyMsg? then s.(rx := SignalReply, replyLock := Rx) else s.(rx := HandOver, cbLock := Rx)
    case LeaveReply => s.(rx := Poll, replyLock := NoOne)
    case HandOver =>
      s.(rx := LeaveCb, gotCb := true, cb := if s.cb == NotStarted || s.cb == CbWait then CbWoken else s.cb)
    case _ => s.(rx := Poll, cbLock := NoOne)
  }

  function CbNext(s: State): State
    requires CbCanStep(s)
  {
    match s.cb
    case CbWoken => s.(cb := Top, cbLock := Cb)
    case Top => if s.gotCb then s.(cb := Find, gotCb := false) else s.(cb := CbWait, cbLock := NoOne)
    case Find => s.(cb := Copy)
    case Copy => s.(cb := CbWantInput, clone := s.inMsg)
    case CbWantInput => s.(cb := CbFreeing, inputLock := Cb)
    case CbFreeing => WakeRx(s.(cb := CbDropInput))
    case CbDropInput => s.(cb := Dispatch, inputLock := NoOne)
    case _ => s.(cb := Top, dispatched := s.dispatched + [s.clone])
  }

  // ---- Invariant ----

  /** Only the holder of the client lock is inside clnt_call. */
  ghost predicate OneCaller(s: State) {
    && -1 <= s.client < |s.callers|
    && (s.client >= 0 ==> s.callers[s.client] != Idle)
    && forall i :: 0 <= i < |s.callers| && i != s.client ==> s.callers[i] == Idle
  }

  predicate CallerInReply(a: CallerPc) {
    a == Send || a == PreWait || a == Reading || a == WantInput || a == Freeing || a == DropInput || a == DropReply
  }

  predicate CbInside(cb: CbPc) {
    cb != NotStarted && cb != CbWoken && cb != CbWait
  }

  ghost predicate ReplyLockOk(a: CallerPc, s: State) {
    && (s.replyLock == Caller <==> CallerInReply(a))
    && (s.replyLock == Rx <==> s.rx == SignalReply || s.rx == LeaveReply)
    && s.replyLock != Cb
  }

  ghost predicate InputLockOk(a: CallerPc, s: State) {
    && (s.inputLock == Caller <==> a == Freeing || a == DropInput)
    && (s.inputLock == Rx <==> s.rx == Check || s.rx == DropRead)
    && (s.inputLock == Cb <==> s.cb == CbFreeing || s.cb == CbDropInput)
  }

  ghost predicate CbLockOk(s: State) {
    && (s.cbLock == Rx <==> s.rx == HandOver || s.rx == LeaveCb)
    && (s.cbLock == Cb <==> CbInside(s.cb))
    && s.cbLock != Caller
  }

  /** Each mutex is held by exactly the thread whose pc is inside it; a is the active caller's pc. */
  ghost predicate Locks(a: CallerPc, s: State) {
    ReplyLockOk(a, s) && InputLockOk(a, s) && CbLockOk(s)
  }

  predicate RxOwns(s: State) {
    s.rx == DropRead || s.rx == Sort || s.rx == SignalReply || s.rx == HandOver
  }

  predicate CallerOwns(a: CallerPc) {
    a == Woken || a == Reading || a == WantInput || a == Freeing
  }

  predicate CbOwns(s: State) {
    s.gotCb || s.cb == Find || s.cb == Copy || s.cb == CbWantInput || s.cb == CbFreeing
  }

  predicate Lost(s: State) { s.lost != [] }

  /** The buffer is busy exactly while it has an owner, and it has one owner at a time: the receive
      thread, a caller, the callback thread, or nobody for ever after a call without a server. */
  ghost predicate Owner(a: CallerPc, s: State) {
    && (s.busy <==> RxOwns(s) || CallerOwns(a) || CbOwns(s) || Lost(s))
    && !(RxOwns(s) && CallerOwns(a)) && !(RxOwns(s) && CbOwns(s)) && !(CallerOwns(a) && CbOwns(s))
    && (s.gotCb ==> s.cb == CbWoken || s.cb == Top)
    && (Lost(s) ==> !RxOwns(s) && !CallerOwns(a) && !CbOwns(s) && |s.lost| == 1
                    && (s.cb == Top || s.cb == CbWait || s.cb == CbWoken))
    && (s.rx == SignalReply ==> s.inMsg.ReplyMsg?) && (s.rx == HandOver ==> s.inMsg.CallMsg?)
    && (CallerOwns(a) ==> s.inMsg.ReplyMsg?)
    && (CbOwns(s) ==> s.inMsg.CallMsg?)
  }

  function When(b: bool, p: Packet): seq<Packet> {
    if b then [p] else []
  }

  function CallsIn(ps: seq<Packet>): seq<Packet> {
    if ps == [] then [] else When(ps[0].CallMsg?, ps[0]) + CallsIn(ps[1..])
  }

  function RepliesIn(ps: seq<Packet>): seq<Packet> {
    if ps == [] then [] else When(ps[0].ReplyMsg?, ps[0]) + RepliesIn(ps[1..])
  }

  /** A call is on its way through the input buffer to the callback thread's copy. */
  predicate CallInBuffer(s: State) {
    (RxOwns(s) && s.inMsg.CallMsg?) || s.gotCb || s.cb == Find || s.cb == Copy
  }

  predicate CallInClone(s: State) {
    s.cb == CbWantInput || s.cb == CbFreeing || s.cb == CbDropInput || s.cb == Dispatch
  }

  predicate ReplyInBuffer(a: CallerPc, s: State) {
    (RxOwns(s) && s.inMsg.ReplyMsg?) || a == Woken || a == Reading
  }

  /** No call is dropped, repeated, reordered or altered on its way from the router to its server. */
  ghost predicate CallsConserved(s: State) {
    s.calls == s.dispatched + s.lost + When(CallInClone(s), s.clone) + When(CallInBuffer(s), s.inMsg) + CallsIn(s.net)
  }

  predicate Awaiting(a: CallerPc) {
    a == PreWait || a == Waiting || a == Woken || a == Reading
  }

  /** Replies reach the callers in order, and there is one on its way at most, for the call that awaits it. */
  ghost predicate RepliesConserved(a: CallerPc, s: State) {
    && s.replies == s.answers + When(ReplyInBuffer(a, s), s.inMsg) + RepliesIn(s.net)
    && |s.answers| == s.sent - (if Awaiting(a) then 1 else 0)
    && |s.replies| <= s.sent
  }

  ghost predicate Numbered(replies: seq<Packet>) {
    forall k :: 0 <= k < |replies| ==> replies[k].ReplyMsg? && replies[k].req == k + 1
  }

  ghost predicate InvWith(a: CallerPc, s: State) {
    Locks(a, s) && Owner(a, s) && CallsConserved(s) && RepliesConserved(a, s) && Numbered(s.replies)
  }

  ghost predicate Inv(s: State) {
    OneCaller(s) && InvWith(Active(s), s)
  }

  // ---- Every step keeps it ----

  function CallerPcAfter(a: CallerPc): CallerPc {
    match a
    case Idle => Build
    case Build => Send
    case Send => PreWait
    case PreWait => Waiting
    case Waiting => Waiting
    case Woken => Reading
    case Reading => WantInput
    case WantInput => Freeing
    case Freeing => DropInput
    case DropInput => DropReply
    case DropReply => DropClient
    case DropClient => Idle
  }

  lemma ReplyLockAfterCaller(s: State, i: nat)
    requires i < |s.callers| && CallerCanStep(s, i) && ReplyLockOk(s.callers[i], s)
    ensures ReplyLockOk(CallerPcAfter(s.callers[i]), CallerNext(s, i))
  {}

  lemma CallerLeavesInputLock(s: State, i: nat)
    requires i < |s.callers| && CallerCanStep(s, i)
    requires var a := s.callers[i]; a != WantInput && a != Freeing && a != DropInput
    ensures var t := CallerNext(s, i); t.inputLock == s.inputLock && t.rx == s.rx && t.cb == s.cb
  {}

  lemma InputLockAfterCaller(s: State, i: nat)
    requires i < |s.callers| && CallerCanStep(s, i) && InputLockOk(s.callers[i], s)
    ensures InputLockOk(CallerPcAfter(s.callers[i]), CallerNext(s, i))
  {
    var a := s.callers[i];
    if a != WantInput && a != Freeing && a != DropInput { CallerLeavesInputLock(s, i); }
  }

  lemma CallerLeavesPcs(s: State, i: nat)
    requires i < |s.callers| && CallerCanStep(s, i)
    ensures var t := CallerNext(s, i);
      && t.cb == s.cb && t.gotCb == s.gotCb && t.cbLock == s.cbLock
      && (t.rx == s.rx || (s.rx == InputWait && t.rx == InputWoken))
  {}

  lemma CbLockAfterCaller(s: State, i: nat)
    requires i < |s.callers| && CallerCanStep(s, i) && CbLockOk(s)
    ensures CbLockOk(CallerNext(s, i))
  {
    CallerLeavesPcs(s, i);
  }

  lemma LocksAfterRx(a: CallerPc, o: CallerPc, s: State)
    requires RxCanStep(s) && Locks(a, s) && Owner(o, s)
    ensures Locks(a, RxNext(s))
  {}

  lemma InputLockAfterCb(a: CallerPc, s: State)
    requires CbCanStep(s) && InputLockOk(a, s)
    ensures InputLockOk(a, CbNext(s))
  {}

  lemma ReplyLockAfterCb(a: CallerPc, s: State)
    requires CbCanStep(s) && ReplyLockOk(a, s)
    ensures ReplyLockOk(a, CbNext(s))
  {}

  lemma CbLockAfterCb(s: State)
    requires CbCanStep(s) && CbLockOk(s)
    ensures CbLockOk(CbNext(s))
  {}

  /** Two states with the same owner of the buffer. */
  ghost predicate SameOwner(a: CallerPc, s: State, b: CallerPc, t: State) {
    && (CallerOwns(b) <==> CallerOwns(a)) && t.busy == s.busy && t.inMsg == s.inMsg && t.lost == s.lost
    && t.gotCb == s.gotCb && t.cb == s.cb && (t.rx == s.rx || (s.rx == InputWait && t.rx == InputWoken))
  }

  lemma SameOwnerKept(a: CallerPc, s: State, b: CallerPc, t: State)
    requires SameOwner(a, s, b, t) && Owner(a, s)
    ensures Owner(b, t)
  {}

  lemma CallerLeavesBusy(s: State, i: nat)
    requires i < |s.callers| && CallerCanStep(s, i) && s.callers[i] != Freeing
    ensures CallerNext(s, i).busy == s.busy
  {}

  lemma OwnerAfterFreeing(s: State, i: nat)
    requires i < |s.callers| && s.callers[i] == Freeing && Owner(Freeing, s)
    ensures Owner(DropInput, CallerNext(s, i))
  {}

  lemma OwnerAfterCaller(s: State, i: nat)
    requires i < |s.callers| && CallerCanStep(s, i) && Owner(s.callers[i], s)
    ensures Owner(CallerPcAfter(s.callers[i]), CallerNext(s, i))
  {
    if s.callers[i] == Freeing {
      OwnerAfterFreeing(s, i);
    } else {
      CallerLeavesCalls(s, i);
      CallerLeavesBuffers(s, i);
      CallerLeavesPcs(s, i);
      CallerLeavesBusy(s, i);
      SameOwnerKept(s.callers[i], s, CallerPcAfter(s.callers[i]), CallerNext(s, i));
    }
  }

  lemma OwnerAfterRx(a: CallerPc, o: CallerPc, s: State)
    requires RxCanStep(s) && Locks(a, s) && Owner(o, s)
    ensures Owner(o, RxNext(s))
  {}

  lemma OwnerAfterCbFrees(a: CallerPc, s: State)
    requires s.cb == CbFreeing && Owner(a, s)
    ensures Owner(a, CbNext(s))
  {}

  lemma OwnerAfterCb(a: CallerPc, s: State)
    requires CbCanStep(s) && Owner(a, s)
    ensures Owner(a, CbNext(s))
  {
    if s.cb == CbFreeing { OwnerAfterCbFrees(a, s); }
  }

  /** Two states with the same calls in the same places. */
  ghost predicate SameCalls(s: State, t: State) {
    && t.calls == s.calls && t.dispatched == s.dispatched && t.lost == s.lost && t.net == s.net
    && t.clone == s.clone && (CallInClone(t) <==> CallInClone(s))
    && t.inMsg == s.inMsg && (CallInBuffer(t) <==> CallInBuffer(s))
  }

  lemma SameCallsConserved(s: State, t: State)
    requires SameCalls(s, t) && CallsConserved(s)
    ensures CallsConserved(t)
  {}

  ghost predicate SameReplies(a: CallerPc, s: State, b: CallerPc, t: State) {
    && t.replies == s.replies && t.answers == s.answers && t.net == s.net && t.sent == s.sent
    && t.inMsg == s.inMsg && (ReplyInBuffer(b, t) <==> ReplyInBuffer(a, s)) && (Awaiting(a) <==> Awaiting(b))
  }

  lemma SameRepliesConserved(a: CallerPc, s: State, b: CallerPc, t: State)
    requires SameReplies(a, s, b, t) && RepliesConserved(a, s)
    ensures RepliesConserved(b, t)
  {}

  /** The first half of a call, up to the wait for the reply. */
  predicate Early(a: CallerPc) {
    a == Idle || a == Build || a == Send || a == PreWait || a == Waiting || a == Woken
  }

  lemma EarlyCallerLeavesCalls(s: State, i: nat)
    requires i < |s.callers| && CallerCanStep(s, i) && Early(s.callers[i])
    ensures var t := CallerNext(s, i);
      t.calls == s.calls && t.dispatched == s.dispatched && t.lost == s.lost
  {}

  lemma LateCallerLeavesCalls(s: State, i: nat)
    requires i < |s.callers| && CallerCanStep(s, i) && !Early(s.callers[i])
    ensures var t := CallerNext(s, i);
      t.calls == s.calls && t.dispatched == s.dispatched && t.lost == s.lost
  {}

  lemma CallerLeavesCalls(s: State, i: nat)
    requires i < |s.callers| && CallerCanStep(s, i)
    ensures var t := CallerNext(s, i);
      t.calls == s.calls && t.dispatched == s.dispatched && t.lost == s.lost
  {
    if Early(s.callers[i]) { EarlyCallerLeavesCalls(s, i); } else { LateCallerLeavesCalls(s, i); }
  }

  lemma EarlyCallerLeavesBuffers(s: State, i: nat)
    requires i < |s.callers| && CallerCanStep(s, i) && Early(s.callers[i])
    ensures var t := CallerNext(s, i);
      t.net == s.net && t.clone == s.clone && t.inMsg == s.inMsg
  {}

  lemma LateCallerLeavesBuffers(s: State, i: nat)
    requires i < |s.callers| && CallerCanStep(s, i) && !Early(s.callers[i])
    ensures var t := CallerNext(s, i);
      t.net == s.net && t.clone == s.clone && t.inMsg == s.inMsg
  {}

  lemma CallerLeavesBuffers(s: State, i: nat)
    requires i < |s.callers| && CallerCanStep(s, i)
    ensures var t := CallerNext(s, i);
      t.net == s.net && t.clone == s.clone && t.inMsg == s.inMsg
  {
    if Early(s.callers[i]) { EarlyCallerLeavesBuffers(s, i); } else { LateCallerLeavesBuffers(s, i); }
  }

  lemma CallsAfterCaller(s: State, i: nat)
    requires i < |s.callers| && CallerCanStep(s, i)
    ensures SameCalls(s, CallerNext(s, i))
  {
    CallerLeavesCalls(s, i);
    CallerLeavesBuffers(s, i);
    CallerLeavesPcs(s, i);
  }

  lemma TakeNext<T>(d: seq<T>, head: seq<T>, tail: seq<T>)
    ensures d + [] + (head + tail) == d + head + tail
  {}

  lemma PassOn<T>(d: seq<T>, x: seq<T>, rest: seq<T>)
    ensures d + [] + x + rest == d + x + [] + rest
  {}

  lemma CallsAfterRead(a: CallerPc, s: State)
    requires s.rx == Check && !s.busy && s.net != [] && Owner(a, s) && CallsConserved(s)
    ensures CallsConserved(RxNext(s))
  {
    var ahead := s.dispatched + s.lost + When(CallInClone(s), s.clone);
    TakeNext(ahead, When(s.net[0].CallMsg?, s.net[0]), CallsIn(s.net[1..]));
  }

  lemma CallsAfterRx(a: CallerPc, s: State)
    requires RxCanStep(s) && Owner(a, s) && !(s.rx == Check && !s.busy)
    ensures SameCalls(s, RxNext(s))
  {}

  lemma CallsAfterCopy(s: State)
    requires s.cb == Copy && CallsConserved(s) && !RxOwns(s) && !s.gotCb
    ensures CallsConserved(CbNext(s))
  {
    PassOn(s.dispatched + s.lost, [s.inMsg], CallsIn(s.net));
  }

  lemma CallsAfterDispatch(s: State)
    requires s.cb == Dispatch && CallsConserved(s) && s.lost == []
    ensures CallsConserved(CbNext(s))
  {
    var d, b, rest := s.dispatched, When(CallInBuffer(s), s.inMsg), CallsIn(s.net);
    assert d + [] + [s.clone] + b + rest == d + [s.clone] + [] + [] + b + rest;
  }

  lemma CallsAfterCb(a: CallerPc, s: State)
    requires CbCanStep(s) && s.cb != Copy && s.cb != Dispatch
    ensures SameCalls(s, CbNext(s))
  {}

  lemma OwnerAfterMissing(a: CallerPc, s: State)
    requires s.cb == Find && Owner(a, s)
    ensures s.lost == [] && !RxOwns(s) && !s.gotCb && Owner(a, Next(s, CbMissing))
  {}

  lemma Lose<T>(d: seq<T>, x: seq<T>, rest: seq<T>)
    ensures d + [] + [] + x + rest == d + x + [] + [] + rest
  {}

  lemma CallsAfterMissing(s: State)
    requires s.cb == Find && s.lost == [] && !RxOwns(s) && !s.gotCb && CallsConserved(s)
    ensures CallsConserved(Next(s, CbMissing))
  {
    Lose(s.dispatched, [s.inMsg], CallsIn(s.net));
  }

  lemma {:induction false} CallArrives(ps: seq<Packet>, p: Packet)
    ensures CallsIn(ps + [p]) == CallsIn(ps) + When(p.CallMsg?, p)
  {
    if ps == [] {
      assert ps + [p] == [p];
      assert [p][1..] == [];
    } else {
      CallArrives(ps[1..], p);
      var all, head, last := ps + [p], When(ps[0].CallMsg?, ps[0]), When(p.CallMsg?, p);
      assert all[0] == ps[0] && all[1..] == ps[1..] + [p];
      assert head + (CallsIn(ps[1..]) + last) == head + CallsIn(ps[1..]) + last;
    }
  }

  lemma {:induction false} ReplyArrives(ps: seq<Packet>, p: Packet)
    ensures RepliesIn(ps + [p]) == RepliesIn(ps) + When(p.ReplyMsg?, p)
  {
    if ps == [] {
      assert ps + [p] == [p];
      assert [p][1..] == [];
    } else {
      ReplyArrives(ps[1..], p);
      var all, head, last := ps + [p], When(ps[0].ReplyMsg?, ps[0]), When(p.ReplyMsg?, p);
      assert all[0] == ps[0] && all[1..] == ps[1..] + [p];
      assert head + (RepliesIn(ps[1..]) + last) == head + RepliesIn(ps[1..]) + last;
    }
  }

  lemma ArriveLast<T>(d: seq<T>, rest: seq<T>, x: seq<T>)
    ensures d + rest + x == d + (rest + x) && (x == [] ==> d + (rest + x) == d + rest)
  {}

  lemma CallsAfterArrival(s: State, e: Event)
    requires Enabled(s, e) && (e.ArriveCall? || e.ArriveReply?) && CallsConserved(s)
    ensures CallsConserved(Next(s, e))
  {
    var p := if e.ArriveCall? then CallMsg(e.data) else ReplyMsg(|s.replies| + 1, e.data);
    CallArrives(s.net, p);
    ArriveLast(s.dispatched + s.lost + When(CallInClone(s), s.clone) + When(CallInBuffer(s), s.inMsg),
               CallsIn(s.net), When(p.CallMsg?, p));
  }

  // ---- Replies ----

  lemma RepliesAfterCallArrives(a: CallerPc, s: State, d: nat)
    requires RepliesConserved(a, s)
    ensures RepliesConserved(a, Next(s, ArriveCall(d)))
  {
    ReplyArrives(s.net, CallMsg(d));
    ArriveLast(s.answers + When(ReplyInBuffer(a, s), s.inMsg), RepliesIn(s.net), []);
  }

  lemma RepliesAfterReplyArrives(a: CallerPc, s: State, d: nat)
    requires Enabled(s, ArriveReply(d)) && RepliesConserved(a, s) && Numbered(s.replies)
    ensures var t := Next(s, ArriveReply(d)); RepliesConserved(a, t) && Numbered(t.replies)
  {
    var p := ReplyMsg(|s.replies| + 1, d);
    ReplyArrives(s.net, p);
    ArriveLast(s.answers + When(ReplyInBuffer(a, s), s.inMsg), RepliesIn(s.net), [p]);
  }

  lemma RepliesAfterReading(s: State, i: nat)
    requires i < |s.callers| && s.callers[i] == Reading && Owner(Reading, s) && RepliesConserved(Reading, s)
    ensures RepliesConserved(WantInput, CallerNext(s, i))
  {
    AnswerMoves(s.answers, s.inMsg, RepliesIn(s.net));
  }

  lemma AnswerMoves<T>(d: seq<T>, x: T, rest: seq<T>)
    ensures d + [x] + rest == (d + [x]) + [] + rest
  {}

  lemma RepliesAfterSend(s: State, i: nat)
    requires i < |s.callers| && s.callers[i] == Send && RepliesConserved(Send, s)
    ensures RepliesConserved(PreWait, CallerNext(s, i))
  {}

  lemma RepliesAfterCaller(s: State, i: nat)
    requires i < |s.callers| && CallerCanStep(s, i) && s.callers[i] != Reading && s.callers[i] != Send
    ensures SameReplies(s.callers[i], s, CallerPcAfter(s.callers[i]), CallerNext(s, i))
  {}

  lemma RepliesAfterRead(a: CallerPc, s: State)
    requires s.rx == Check && !s.busy && s.net != [] && Owner(a, s) && RepliesConserved(a, s)
    ensures RepliesConserved(a, RxNext(s))
  {
    TakeNext(s.answers, When(s.net[0].ReplyMsg?, s.net[0]), RepliesIn(s.net[1..]));
  }

  lemma RepliesAfterRx(a: CallerPc, s: State)
    requires RxCanStep(s) && Owner(a, s) && !(s.rx == Check && !s.busy)
    ensures SameReplies(a, s, a, RxNext(s))
  {}

  lemma CbLeavesPackets(s: State)
    requires CbCanStep(s)
    ensures var t := CbNext(s); t.net == s.net && t.inMsg == s.inMsg && RxOwns(t) == RxOwns(s)
  {}

  lemma CbLeavesReplies(s: State)
    requires CbCanStep(s)
    ensures var t := CbNext(s); t.replies == s.replies && t.answers == s.answers && t.sent == s.sent
  {}

  lemma RepliesAfterCb(a: CallerPc, s: State)
    requires CbCanStep(s)
    ensures SameReplies(a, s, a, CbNext(s))
  {
    CbLeavesPackets(s);
    CbLeavesReplies(s);
  }

  /** A reply in the receive thread's hands finds its caller waiting. */
  lemma ReplyIsAwaited(a: CallerPc, s: State)
    requires InvWith(a, s) && s.rx == SignalReply
    ensures a == Waiting && s.inMsg == ReplyMsg(s.sent, s.inMsg.data)
  {
    var k := |s.answers|;
    assert s.replies == s.answers + [s.inMsg] + RepliesIn(s.net);
    assert s.replies[k] == s.inMsg;
  }

  // ---- One step, any actor ----

  /** A caller inside clnt_call is the holder of the client lock. */
  lemma Inside(s: State, i: nat)
    requires OneCaller(s) && i < |s.callers| && s.callers[i] != Idle
    ensures i == s.client && Active(s) == s.callers[i]
  {}

  lemma ActiveAfterGoto(s: State, i: nat, pc: CallerPc, client: int, t: State)
    requires OneCaller(s) && i < |s.callers| && (s.client == i || s.client == -1)
    requires t.callers == s.callers[i := pc] && t.client == client && client == if pc == Idle then -1 else i
    ensures OneCaller(t) && Active(t) == pc
  {}

  lemma CallerMoves(s: State, i: nat)
    requires i < |s.callers| && CallerCanStep(s, i) && (s.callers[i] == Idle || s.client == i)
    ensures var pc, t := CallerPcAfter(s.callers[i]), CallerNext(s, i);
      t.callers == s.callers[i := pc] && t.client == (if pc == Idle then -1 else i)
  {}

  lemma CallerKeeps(s: State, i: nat)
    requires Inv(s) && i < |s.callers| && CallerCanStep(s, i)
    ensures Inv(CallerNext(s, i))
  {
    var a, t := s.callers[i], CallerNext(s, i);
    if a != Idle { Inside(s, i); }
    assert a == Active(s);
    CallerMoves(s, i);
    ActiveAfterGoto(s, i, CallerPcAfter(a), t.client, t);
    ReplyLockAfterCaller(s, i);
    InputLockAfterCaller(s, i);
    CbLockAfterCaller(s, i);
    OwnerAfterCaller(s, i);
    CallsAfterCaller(s, i);
    SameCallsConserved(s, t);
    if a == Reading {
      RepliesAfterReading(s, i);
    } else if a == Send {
      RepliesAfterSend(s, i);
    } else {
      RepliesAfterCaller(s, i);
      SameRepliesConserved(a, s, CallerPcAfter(a), t);
    }
    CallerLeavesReplies(s, i);
  }

  lemma CallerLeavesReplies(s: State, i: nat)
    requires i < |s.callers| && CallerCanStep(s, i)
    ensures CallerNext(s, i).replies == s.replies
  {}

  lemma RxLeaves(s: State)
    requires RxCanStep(s)
    ensures var t := RxNext(s); t.callers == s.callers && t.client == s.client && t.replies == s.replies
  {}

  lemma RxKeeps(s: State)
    requires Inv(s) && RxCanStep(s)
    ensures Inv(RxNext(s))
  {
    var a, t := Active(s), RxNext(s);
    RxLeaves(s);
    LocksAfterRx(a, a, s);
    OwnerAfterRx(a, a, s);
    if s.rx == Check && !s.busy {
      CallsAfterRead(a, s);
      RepliesAfterRead(a, s);
    } else {
      CallsAfterRx(a, s);
      SameCallsConserved(s, t);
      RepliesAfterRx(a, s);
      SameRepliesConserved(a, s, a, t);
    }
  }

  lemma CbLeaves(s: State)
    requires CbCanStep(s)
    ensures var t := CbNext(s); t.callers == s.callers && t.client == s.client && t.replies == s.replies
  {}

  lemma CbKeeps(s: State)
    requires Inv(s) && CbCanStep(s)
    ensures Inv(CbNext(s))
  {
    var a, t := Active(s), CbNext(s);
    CbLeaves(s);
    InputLockAfterCb(a, s);
    ReplyLockAfterCb(a, s);
    CbLockAfterCb(s);
    OwnerAfterCb(a, s);
    if s.cb == Copy {
      CallsAfterCopy(s);
    } else if s.cb == Dispatch {
      CallsAfterDispatch(s);
    } else {
      CallsAfterCb(a, s);
      SameCallsConserved(s, t);
    }
    RepliesAfterCb(a, s);
    SameRepliesConserved(a, s, a, t);
  }

  lemma MissingKeeps(s: State)
    requires Inv(s) && s.cb == Find
    ensures Inv(Next(s, CbMissing))
  {
    var a, t := Active(s), Next(s, CbMissing);
    OwnerAfterMissing(a, s);
    CallsAfterMissing(s);
    assert SameReplies(a, s, a, t);
    SameRepliesConserved(a, s, a, t);
    assert Active(t) == a && Locks(a, t);
  }

  lemma ArrivalKeeps(s: State, e: Event)
    requires Inv(s) && Enabled(s, e) && (e.ArriveCall? || e.ArriveReply?)
    ensures Inv(Next(s, e))
  {
    var a, t := Active(s), Next(s, e);
    CallsAfterArrival(s, e);
    if e.ArriveCall? { RepliesAfterCallArrives(a, s, e.data); } else { RepliesAfterReplyArrives(a, s, e.data); }
    assert Active(t) == a && Locks(a, t) && Owner(a, t);
  }

  lemma GiveUpKeeps(s: State, i: nat)
    requires Inv(s) && Enabled(s, GiveUp(i))
    ensures Inv(Next(s, GiveUp(i)))
  {
    var t := Next(s, GiveUp(i));
    Inside(s, i);
    ActiveAfterGoto(s, i, DropClient, s.client, t);
    SameOwnerKept(Build, s, DropClient, t);
    assert Locks(DropClient, t);
    SameCallsConserved(s, t);
    SameRepliesConserved(Build, s, DropClient, t);
  }

  lemma SignalKeeps(s: State, i: nat)
    requires Inv(s) && Enabled(s, RxSignal(i))
    ensures Inv(Next(s, RxSignal(i)))
  {
    var t := Next(s, RxSignal(i));
    Inside(s, i);
    ActiveAfterGoto(s, i, Woken, s.client, t);
    assert Locks(Woken, t) && Owner(Woken, t);
    assert SameCalls(s, t) && SameReplies(Waiting, s, Woken, t);
    SameCallsConserved(s, t);
    SameRepliesConserved(Waiting, s, Woken, t);
  }

  lemma NextKeeps(s: State, e: Event)
    requires Inv(s) && Enabled(s, e)
    ensures Inv(Next(s, e))
  {
    match e
    case ArriveCall(_) => ArrivalKeeps(s, e);
    case ArriveReply(_) => ArrivalKeeps(s, e);
    case CallerStep(i) => CallerKeeps(s, i);
    case GiveUp(i) => GiveUpKeeps(s, i);
    case RxStep => RxKeeps(s);
    case RxSignal(i) => SignalKeeps(s, i);
    case RxSignalNobody => ReplyIsAwaited(Active(s), s);
    case CbStep => CbKeeps(s);
    case CbMissing => MissingKeeps(s);
  }

  // ---- Runs ----

  /** A new client: no packet, no call, no callback thread yet. */
  ghost predicate Init(s: State) {
    && (forall i :: 0 <= i < |s.callers| ==> s.callers[i] == Idle) && s.client == -1
    && s.replyLock == NoOne && s.cbLock == NoOne && s.inputLock == NoOne && !s.busy && !s.gotCb
    && s.rx == Poll && s.cb == NotStarted && s.net == [] && s.sent == 0
    && s.calls == [] && s.replies == [] && s.answers == [] && s.dispatched == [] && s.lost == []
  }

  ghost predicate IsRun(trace: seq<State>, events: seq<Event>) {
    && |trace| == |events| + 1
    && Init(trace[0])
    && forall k {:trigger events[k]} :: 0 <= k < |events| ==>
         Enabled(trace[k], events[k]) && trace[k + 1] == Next(trace[k], events[k])
  }

  lemma InitInv(s: State)
    requires Init(s)
    ensures Inv(s)
  {
    assert Active(s) == Idle;
  }

  lemma {:induction false} RunKeepsInv(trace: seq<State>, events: seq<Event>, k: nat)
    requires IsRun(trace, events) && k < |trace|
    ensures Inv(trace[k])
  {
    if k == 0 {
      InitInv(trace[0]);
    } else {
      RunKeepsInv(trace, events, k - 1);
      NextKeeps(trace[k - 1], events[k - 1]);
    }
  }

  /** The reply signal is never lost: whenever the receive thread is about to send it, the active
      caller is waiting, and for the very reply that is in the buffer. */
  lemma ReplySignalFindsCaller(trace: seq<State>, events: seq<Event>, k: nat)
    requires IsRun(trace, events) && k < |trace| && trace[k].rx == SignalReply
    ensures var s := trace[k];
      && 0 <= s.client < |s.callers| && s.callers[s.client] == Waiting
      && !Enabled(s, RxSignalNobody) && Enabled(s, RxSignal(s.client))
      && s.inMsg.ReplyMsg? && s.inMsg.req == s.sent
  {
    RunKeepsInv(trace, events, k);
    ReplyIsAwaited(Active(trace[k]), trace[k]);
  }

  /** The step that reads a packet into the input buffer. */
  predicate ReadStep(s: State, e: Event) {
    e == RxStep && s.rx == Check && !s.busy
  }

  lemma OnlyReadingChangesInput(s: State, e: Event)
    requires Enabled(s, e) && Next(s, e).inMsg != s.inMsg
    ensures ReadStep(s, e)
  {}

  /** A packet is read only while nobody owns the buffer: not the receive thread that read one, not
      the caller that reads its reply, not the callback thread that copies a call; and nothing else
      changes the buffer. */
  lemma InputKeptWhileOwned(trace: seq<State>, events: seq<Event>, k: nat)
    requires IsRun(trace, events) && k < |events|
    ensures var s := trace[k];
      && (ReadStep(s, events[k]) ==> !RxOwns(s) && !CallerOwns(Active(s)) && !CbOwns(s) && !Lost(s))
      && (!ReadStep(s, events[k]) ==> trace[k + 1].inMsg == s.inMsg)
  {
    RunKeepsInv(trace, events, k);
    if trace[k + 1].inMsg != trace[k].inMsg { OnlyReadingChangesInput(trace[k], events[k]); }
  }

  /** Calls in transit between the router and their server. */
  ghost function InTransit(s: State): seq<Packet> {
    When(CallInClone(s), s.clone) + When(CallInBuffer(s), s.inMsg) + CallsIn(s.net)
  }

  lemma {:induction false} NothingLost(trace: seq<State>, events: seq<Event>, k: nat)
    requires IsRun(trace, events) && k < |trace| && forall j :: 0 <= j < k ==> events[j] != CbMissing
    ensures trace[k].lost == []
  {
    if k > 0 {
      NothingLost(trace, events, k - 1);
      OnlyMissingLoses(trace[k - 1], events[k - 1]);
    }
  }

  lemma OnlyMissingLoses(s: State, e: Event)
    requires Enabled(s, e) && e != CbMissing
    ensures Next(s, e).lost == s.lost
  {
    if e.CallerStep? {
      CallerLeavesCalls(s, e.i);
    } else if e.CbStep? {
      CbLeavesLost(s);
    }
  }

  lemma CbLeavesLost(s: State)
    requires CbCanStep(s)
    ensures CbNext(s).lost == s.lost
  {}

  /** With a server for every call, each arriving call is dispatched exactly once, in order, with
      the bytes that arrived. */
  lemma CallsDispatchedOnce(trace: seq<State>, events: seq<Event>, k: nat)
    requires IsRun(trace, events) && k < |trace| && forall j :: 0 <= j < k ==> events[j] != CbMissing
    ensures var s := trace[k]; s.calls == s.dispatched + InTransit(s)
  {
    RunKeepsInv(trace, events, k);
    NothingLost(trace, events, k);
    CallsSplit(trace[k]);
  }

  lemma Gather<T>(d: seq<T>, c: seq<T>, b: seq<T>, n: seq<T>)
    ensures d + [] + c + b + n == d + (c + b + n)
  {}

  lemma CallsSplit(s: State)
    requires CallsConserved(s) && s.lost == []
    ensures s.calls == s.dispatched + InTransit(s)
  {
    Gather(s.dispatched, When(CallInClone(s), s.clone), When(CallInBuffer(s), s.inMsg), CallsIn(s.net));
  }

  /** Every call of this process that read an answer read its own reply, as it arrived. */
  lemma AnswersMatchCalls(trace: seq<State>, events: seq<Event>, k: nat)
    requires IsRun(trace, events) && k < |trace|
    ensures var s := trace[k];
      && s.answers <= s.replies && s.sent - 1 <= |s.answers| <= s.sent
      && forall j :: 0 <= j < |s.answers| ==> s.answers[j].ReplyMsg? && s.answers[j].req == j + 1
  {
    RunKeepsInv(trace, events, k);
    RepliesSplit(Active(trace[k]), trace[k]);
  }

  lemma RepliesSplit(a: CallerPc, s: State)
    requires RepliesConserved(a, s) && Numbered(s.replies)
    ensures s.answers <= s.replies && s.sent - 1 <= |s.answers| <= s.sent
    ensures forall j :: 0 <= j < |s.answers| ==> s.answers[j].ReplyMsg? && s.answers[j].req == j + 1
  {
    assert s.replies == s.answers + (When(ReplyInBuffer(a, s), s.inMsg) + RepliesIn(s.net));
    assert forall j :: 0 <= j < |s.answers| ==> s.answers[j] == s.replies[j];
  }

  // ---- A call without a server ----

  lemma LostCallerStep(s: State, i: nat)
    requires Inv(s) && Lost(s) && i < |s.callers| && CallerCanStep(s, i)
    ensures Stuck(s, CallerNext(s, i))
  {
    if s.callers[i] != Idle { Inside(s, i); }
    CallerLeavesCalls(s, i);
    CallerLeavesBuffers(s, i);
    NoAnswerRead(s, i);
  }

  lemma NoAnswerRead(s: State, i: nat)
    requires i < |s.callers| && CallerCanStep(s, i) && s.callers[i] != Reading
    ensures CallerNext(s, i).answers == s.answers
  {}

  lemma LostRxStep(s: State)
    requires s.busy && RxCanStep(s)
    ensures Stuck(s, RxNext(s))
  {}

  lemma LostCbStep(s: State)
    requires CbCanStep(s) && s.cb != Dispatch
    ensures Stuck(s, CbNext(s))
  {
    CbLeavesPackets(s);
    CbLeavesReplies(s);
  }

  lemma LostStep(s: State, e: Event)
    requires Inv(s) && Lost(s) && Enabled(s, e)
    ensures s.busy && Stuck(s, Next(s, e))
  {
    match e
    case CallerStep(i) => LostCallerStep(s, i);
    case RxStep => LostRxStep(s);
    case CbStep => LostCbStep(s);
    case _ =>
  }

  ghost predicate Stuck(s: State, t: State) {
    t.inMsg == s.inMsg && t.answers == s.answers && t.dispatched == s.dispatched && t.lost == s.lost
  }

  lemma LostRunStep(trace: seq<State>, events: seq<Event>, k: nat)
    requires IsRun(trace, events) && k < |events| && Lost(trace[k])
    ensures Stuck(trace[k], trace[k + 1])
  {
    RunKeepsInv(trace, events, k);
    LostStep(trace[k], events[k]);
  }

  /** Once a call arrived for which no server is registered, the buffer stays busy for ever: no
      packet is read, no caller gets an answer and no call is dispatched in the rest of the run. */
  lemma {:induction false} StuckAfterMissing(trace: seq<State>, events: seq<Event>, k: nat, m: nat)
    requires IsRun(trace, events) && k <= m < |trace| && Lost(trace[k])
    ensures Lost(trace[m]) && Stuck(trace[k], trace[m])
    decreases m
  {
    if k < m {
      StuckAfterMissing(trace, events, k, m - 1);
      LostRunStep(trace, events, m - 1);
      StuckOn(trace[k], trace[m - 1], trace[m]);
    }
  }

  lemma StuckOn(s: State, t: State, u: State)
    requires Stuck(s, t) && Stuck(t, u)
    ensures Stuck(s, u)
  {}

  lemma MissingLoses(s: State)
    requires Enabled(s, CbMissing)
    ensures Lost(Next(s, CbMissing))
  {}

  /** The buffer is busy with no owner exactly when some call found no server registered. */
  lemma OwnerlessIffMissing(trace: seq<State>, events: seq<Event>, k: nat)
    requires IsRun(trace, events) && k < |trace|
    ensures var s := trace[k];
      (s.busy && !RxOwns(s) && !CallerOwns(Active(s)) && !CbOwns(s))
      <==> exists j :: 0 <= j < k && events[j] == CbMissing
  {
    RunKeepsInv(trace, events, k);
    if j :| 0 <= j < k && events[j] == CbMissing {
      MissingLoses(trace[j]);
      StuckAfterMissing(trace, events, j + 1, k);
    } else {
      NothingLost(trace, events, k);
    }
  }

  /** A run goes on with any enabled event. */
  lemma RunExtends(trace: seq<State>, events: seq<Event>, e: Event)
    requires IsRun(trace, events) && Enabled(trace[|events|], e)
    ensures IsRun(trace + [Next(trace[|events|], e)], events + [e])
  {}

  /** A call came in and was read. */
  ghost predicate ReadCall(s: State) {
    s.rx == Sort && s.cb == NotStarted && s.inMsg.CallMsg? && s.cbLock == NoOne && s.lost == []
  }

  lemma CallGetsRead(s: State, data: nat) returns (trace: seq<State>, events: seq<Event>)
    requires Init(s)
    ensures IsRun(trace, events) && trace[0] == s && ReadCall(trace[|events|])
  {
    var s1 := Next(s, ArriveCall(data));
    var s2 := Next(s1, RxStep);
    var s3 := Next(s2, RxStep);
    trace, events := [s, s1, s2, s3, Next(s3, RxStep)], [ArriveCall(data), RxStep, RxStep, RxStep];
  }

  /** The callback thread is about to look for the server. */
  ghost predicate Looking(s: State) {
    s.cb == Find && s.lost == []
  }

  lemma CallGetsLookedUp(s: State, data: nat) returns (trace: seq<State>, events: seq<Event>)
    requires Init(s)
    ensures IsRun(trace, events) && trace[0] == s && Looking(trace[|events|])
  {
    trace, events := CallGetsRead(s, data);
    trace, events := Go(trace, events, RxStep);
    trace, events := Go(trace, events, RxStep);
    trace, events := Go(trace, events, RxStep);
    trace, events := Go(trace, events, CbStep);
    trace, events := Go(trace, events, CbStep);
  }

  lemma Go(trace: seq<State>, events: seq<Event>, e: Event) returns (trace': seq<State>, events': seq<Event>)
    requires IsRun(trace, events) && Enabled(trace[|events|], e)
    ensures IsRun(trace', events') && trace'[0] == trace[0] && trace'[|events'|] == Next(trace[|events|], e)
    ensures events' == events + [e]
  {
    RunExtends(trace, events, e);
    trace', events' := trace + [Next(trace[|events|], e)], events + [e];
  }

  /** It happens: from every start, one call that finds no server. */
  lemma MissingHappens(s: State, data: nat) returns (trace: seq<State>, events: seq<Event>)
    requires Init(s)
    ensures IsRun(trace, events) && trace[0] == s && Lost(trace[|events|]) && trace[|events|].busy
    ensures CbMissing in events
  {
    trace, events := CallGetsLookedUp(s, data);
    trace, events := Go(trace, events, CbMissing);
    RunKeepsInv(trace, events, |events|);
    assert events[|events| - 1] == CbMissing;
  }
}
