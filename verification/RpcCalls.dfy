/** The two ends of a call: clnt_call on the client's stream and svc_dispatch, svc_getargs and
    svc_sendreply on the server's. The packet the router delivers is a parameter. */
module RpcCalls {
  import opened Base
  import opened XdrSpec
  import opened XdrBounds
  import opened XdrStream
  import opened RpcSpec
  import opened Rpc

  /** Read a packet, or the failure of the device to deliver one; what it leaves of the buffer
      is stale. */
  method XdrRead(x: Xdr, packet: Option<seq<Byte>>) returns (ok: bool)
    requires x.Valid() && (packet.Some? ==> |packet.value| <= RPCROUTER_MSGSIZE_MAX)
    modifies x`in_len, x`in_next, x.in_msg
    ensures x.Valid() && ok == (packet.Some? && |packet.value| >= 8)
    ensures ok ==> x.Received() == packet.value && x.in_next == 8 && StandsAt(x.in_msg[..], 0, packet.value)
    ensures !ok ==> x.Received() == []
  {
    if packet.None? {
      x.in_len := -1;
      return false;
    }
    var p := packet.value;
    forall i | 0 <= i < |p| {
      x.in_msg[i] := p[i];
    }
    x.in_len := |p|;
    assert x.in_msg[..|p|] == p;
    if x.in_len < 8 {
      x.in_len := -1;
      return false;
    }
    x.in_next := 8;
    ok := true;
  }

  /** The word the router's C code reads straight from a message buffer. */
  method WordAt(buf: array<Byte>, pos: nat) returns (w: U32)
    requires pos + 4 <= buf.Length
    ensures w == Word(buf[..], pos)
  {
    w := (buf[pos] as int) * 0x100_0000 + (buf[pos + 1] as int) * 0x1_0000
         + (buf[pos + 2] as int) * 256 + buf[pos + 3] as int;
  }

  // ---- Client ----

  /** What becomes of a call besides its message: resets of the other side at each point where the
      code looks for one, a failing send, or a packet that wakes the caller. */
  datatype Fate = ResetAtEntry | ResetBeforeSend | SendFails | SendMeetsReset | ResetWhileWaiting | Answered

  /** One call: number it, build it, send it, and read what comes back; carry is the packet that wakes
      the caller, whatever answered. */
  method ClntCall(x: Xdr, proc: U32, argsType: XdrType, args: XdrVal, resType: XdrType, fate: Fate,
                  carry: seq<Byte> -> seq<Byte>)
    returns (ret: Outcome)
    requires x.Valid() && TypeOk(argsType) && HasType(argsType, args) && TypeOk(resType)
    requires forall m :: ReplyPacket(carry(m))
    modifies x, x.out_msg, x.in_msg
    ensures x.Valid() && x.xid == if fate.ResetAtEntry? then old(x.xid) else (old(x.xid) + 1) % WORD32
    ensures var m := CallMessage((old(x.xid) + 1) % WORD32, old(x.x_prog), old(x.x_vers), proc, argsType, args);
      !ReplyStrays(carry(m), resType) ==> ret == CallResult(m, CallFits(argsType, args), resType, fate, carry)
  {
    if fate.ResetAtEntry? { return Outcome(RPC_SUBSYSTEM_RESTART, None); }
    var ok := BuildCall(x, proc, argsType, args);
    if !ok { return Outcome(RPC_CANTENCODEARGS, None); }
    if fate.ResetBeforeSend? { return Outcome(RPC_SUBSYSTEM_RESTART, None); }
    if fate.SendFails? { return Outcome(RPC_CANTSEND, None); }
    if fate.SendMeetsReset? { return Outcome(RPC_SUBSYSTEM_RESTART, None); }
    ghost var m := x.Sent();
    var reply := carry(x.out_msg[..x.out_next]);
    ret := Await(x, m, reply, fate == ResetWhileWaiting, resType);
  }

  /** Sleep until a packet or a reset wakes the caller. */
  method Await(x: Xdr, ghost m: seq<Byte>, reply: seq<Byte>, reset: bool, resType: XdrType) returns (ret: Outcome)
    requires x.Valid() && m == x.Sent() && |m| >= 4 && ReplyPacket(reply) && TypeOk(resType)
    modifies x`in_len, x`in_next, x.in_msg
    ensures x.Valid()
    ensures !ReplyStrays(reply, resType) ==>
              ret == if reset then Outcome(RPC_SUBSYSTEM_RESTART, None) else CallOutcome(m, reply, resType)
  {
    var ok := XdrRead(x, Some(reply));
    if reset { return Outcome(RPC_SUBSYSTEM_RESTART, None); }
    ret := Receive(x, m, resType);
  }

  ghost function CallResult(m: seq<Byte>, fits: bool, resType: XdrType, fate: Fate,
                            carry: seq<Byte> -> seq<Byte>): Outcome
    requires |m| >= 4 && ReplyPacket(carry(m))
  {
    if fate.ResetAtEntry? then Outcome(RPC_SUBSYSTEM_RESTART, None)
    else if !fits then Outcome(RPC_CANTENCODEARGS, None)
    else match fate
      case SendFails => Outcome(RPC_CANTSEND, None)
      case Answered => CallOutcome(m, carry(m), resType)
      case _ => Outcome(RPC_SUBSYSTEM_RESTART, None)
  }

  /** Number a call and build its message; only the arguments can be too long. */
  method BuildCall(x: Xdr, proc: U32, argsType: XdrType, args: XdrVal) returns (ok: bool)
    requires x.Valid() && TypeOk(argsType) && HasType(argsType, args)
    modifies x`xid, x`x_prog, x`x_proc, x`out_next, x.out_msg
    ensures x.Valid() && x.xid == (old(x.xid) + 1) % WORD32 && ok == CallFits(argsType, args)
    ensures ok ==> x.Sent() == CallMessage(x.xid, old(x.x_prog), old(x.x_vers), proc, argsType, args)
  {
    EmptyCredentials((x.xid + 1) % WORD32, x.x_prog, x.x_vers, proc);
    ok := XdrCallMsgStart(x, x.x_prog, x.x_vers, proc, AUTH_NONE, AUTH_NONE);
    HeaderFits(x.Sent(), ok, x.xid, x.x_prog, x.x_vers, proc);
    ok := x.Encode(argsType, args);
  }

  /** Nothing is in the way of a header at the start of a message. */
  lemma HeaderFits(sent: seq<Byte>, ok: bool, xid: U32, prog: U32, vers: U32, proc: U32)
    requires Sends([], sent, ok, true, Words(CallHeader(xid, prog, vers, proc)))
    ensures ok && sent == Words(CallHeader(xid, prog, vers, proc)) && |sent| == CALL_HEADER_SIZE
  {
    assert |CallHeader(xid, prog, vers, proc)| == 10;
    assert [] + Words(CallHeader(xid, prog, vers, proc)) == Words(CallHeader(xid, prog, vers, proc));
  }

  /** What a woken caller makes of the packet in its input buffer. */
  method Receive(x: Xdr, ghost m: seq<Byte>, resType: XdrType) returns (ret: Outcome)
    requires x.Valid() && m == x.Sent() && |m| >= 4 && |x.Received()| >= 8 && x.in_next == 8 && TypeOk(resType)
    modifies x`in_next
    ensures x.Valid()
    ensures !ReplyStrays(x.Received(), resType) ==> ret == CallOutcome(m, x.Received(), resType)
  {
    var mine := WordAt(x.out_msg, 0);
    var theirs := WordAt(x.in_msg, 0);
    if mine != theirs { return Outcome(RPC_CANTRECV, None); }
    var h := XdrRecvReplyHeader(x);
    if h.None? { return Outcome(RPC_CANTRECV, None); }
    if h.value.Denied? { return Outcome(h.value.reject + RPC_VERSMISMATCH, None); }
    if h.value.stat != ACCEPT_SUCCESS { return Outcome(h.value.stat + RPC_AUTHERROR, None); }
    var res, stray := x.Decode(resType);
    ret := if res.Some? then Outcome(RPC_SUCCESS, res) else Outcome(RPC_CANTDECODERES, None);
  }

  // ---- Server ----

  method BuildReply(x: Xdr, t: XdrType, res: XdrVal) returns (ok: bool)
    requires x.Valid() && TypeOk(t) && HasType(t, res)
    modifies x`xid, x`out_next, x.out_msg
    ensures x.Valid() && ok == ReplyFits(t, res) && (ok ==> x.Sent() == ReplyMessage(x.xid, t, res))
  {
    ok := XdrReplyMsgStart(x);
    if ok { ok := x.Encode(t, res); }
  }

  /** Copy the first word of the message received over that of the message being built. */
  method CopyXid(x: Xdr)
    requires x.Valid() && x.out_next >= 4
    modifies x.out_msg
    ensures x.Valid() && x.Sent() == Be32(Word(x.in_msg[..], 0)) + old(x.Sent())[4..]
  {
    ghost var was := x.Sent();
    var xid := WordAt(x.in_msg, 0);
    assert was[4..] == x.out_msg[4..][..x.out_next - 4];
    StoreWord(x.out_msg, 0, xid);
    assert x.out_msg[..x.out_next][4..] == x.out_msg[4..][..x.out_next - 4];
    FirstWordReplaced(was, x.out_msg[..x.out_next], xid);
  }

  class RegisteredServer {
    const xdr: Xdr
    var x_prog: U32
    var x_vers: U32
    var active: bool

    constructor (x: Xdr, prog: U32, vers: U32)
      ensures xdr == x && x_prog == prog && x_vers == vers && !active
    {
      xdr, x_prog, x_vers, active := x, prog, vers, false;
    }

    method SvcGetargs(t: XdrType) returns (args: Option<XdrVal>, stray: bool)
      requires xdr.Valid() && TypeOk(t) && xdr.in_len >= 0
      modifies xdr`in_next
      ensures xdr.Valid() && stray == (active && Strays(t, xdr.Received(), old(xdr.in_next)))
      ensures active && !stray ==> Reads(Dec(t, xdr.Received(), old(xdr.in_next)), args, xdr.in_next)
      ensures !active ==> args == None
    {
      if !active { return None, false; }
      args, stray := xdr.Decode(t);
    }

    /** Answer the call in the input buffer under its XID. Whether the router takes the packet is
        not looked at. */
    method SvcSendreply(t: XdrType, res: XdrVal) returns (ok: bool, packet: seq<Byte>)
      requires xdr.Valid() && TypeOk(t) && HasType(t, res)
      modifies xdr`xid, xdr`out_next, xdr.out_msg
      ensures xdr.Valid() && ok == (active && ReplyFits(t, res))
      ensures ok ==> packet == ReplyMessage(Word(xdr.in_msg[..], 0), t, res)
    {
      if !active { return false, []; }
      ok := BuildReply(xdr, t, res);
      if !ok { return false, []; }
      CopyXid(xdr);
      packet := xdr.out_msg[..xdr.out_next];
      ReplyRenumbered(xdr.xid, Word(xdr.in_msg[..], 0), Enc(t, res));
    }

    /** Dispatch the call in the input buffer to a generated stub. */
    method SvcDispatch(stub: Stub) returns (out: Option<seq<Byte>>)
      requires xdr.Valid() && xdr.in_len >= 0 && StubOk(stub)
      modifies this`active, xdr`in_next, xdr`xid, xdr`out_next, xdr.out_msg
      ensures xdr.Valid()
      ensures !CallStrays(xdr.in_msg[..], xdr.in_len, x_prog, xdr.x_vers, stub) ==>
                out == ServerReply(xdr.in_msg[..], xdr.in_len, x_prog, xdr.x_vers, stub)
    {
      var prog := WordAt(xdr.in_msg, 12);
      var vers := WordAt(xdr.in_msg, 16);
      var proc := WordAt(xdr.in_msg, 20);
      var kind := WordAt(xdr.in_msg, 4);
      if kind != MSG_CALL { return None; }
      if prog != x_prog { return None; }
      if vers != xdr.x_vers { return None; }
      xdr.in_next := CALL_HEADER_SIZE;
      active := true;
      out := Run(stub, proc);
      active := false;
    }

    /** The body of a generated dispatch function. */
    method Run(stub: Stub, proc: U32) returns (out: Option<seq<Byte>>)
      requires xdr.Valid() && xdr.in_len >= 0 && StubOk(stub) && active && xdr.in_next == CALL_HEADER_SIZE
      modifies xdr`in_next, xdr`xid, xdr`out_next, xdr.out_msg
      ensures xdr.Valid()
      ensures !Strays(stub.args, xdr.in_msg[..][..xdr.in_len], CALL_HEADER_SIZE) ==>
                out == StubReply(xdr.in_msg[..], xdr.in_len, proc, stub)
    {
      assert xdr.Received() == xdr.in_msg[..][..xdr.in_len];
      var args, stray := SvcGetargs(stub.args);
      if args.None? { return None; }
      var ok, packet := SvcSendreply(stub.results, stub.serve(proc, args.value));
      out := if ok then Some(packet) else None;
    }
  }

  lemma FirstWordReplaced(was: seq<Byte>, now: seq<Byte>, v: U32)
    requires |now| == |was| >= 4 && now[0..4] == Be32(v) && now[4..] == was[4..]
    ensures now == Be32(v) + was[4..]
  {
    assert now == now[0..4] + now[4..];
  }

  /** The first four bytes of a reply are the only place its XID stands. */
  lemma ReplyRenumbered(was: U32, xid: U32, enc: seq<Byte>)
    ensures Be32(xid) + (Words(ReplyPrefix(was)) + enc)[4..] == Words(ReplyPrefix(xid)) + enc
  {
    assert ReplyPrefix(was)[1..] == ReplyPrefix(xid)[1..];
  }

  // ---- Both ends ----

  /** A call from its caller through a server and back, over two streams. There is no outcome when the
      server has no reply that fits. */
  method CallThrough(x: Xdr, s: RegisteredServer, proc: U32, args: XdrVal, stub: Stub) returns (ret: Option<Outcome>)
    requires x.Valid() && s.xdr.Valid() && StubOk(stub) && HasType(stub.args, args) && InMemory(stub.args, args)
    requires x != s.xdr && {x.out_msg, x.in_msg} !! {s.xdr.out_msg, s.xdr.in_msg}
    requires x.x_prog == s.x_prog && x.x_vers == s.xdr.x_vers
    modifies x, x.out_msg, x.in_msg, s`active, s.xdr, s.xdr.out_msg, s.xdr.in_msg
    ensures ret == if !CallFits(stub.args, args) then Some(Outcome(RPC_CANTENCODEARGS, None))
                   else if ReplyFits(stub.results, stub.serve(proc, args)) then
                     Some(Outcome(RPC_SUCCESS, Some(stub.serve(proc, args))))
                   else None
  {
    var ok := BuildCall(x, proc, stub.args, args);
    if !ok { return Some(Outcome(RPC_CANTENCODEARGS, None)); }
    ghost var m := x.Sent();
    var packet := Answer(s, x.out_msg[..x.out_next], proc, args, x.xid, stub);
    if packet.None? { return None; }
    CallCarriesXid(x.xid, x.x_prog, x.x_vers, proc, stub.args, args);
    var o := TakeReply(x, m, packet.value, x.xid, stub.results, stub.serve(proc, args));
    ret := Some(o);
  }

  /** The caller's second half. */
  method TakeReply(x: Xdr, ghost m: seq<Byte>, packet: seq<Byte>, ghost xid: U32, t: XdrType, ghost res: XdrVal)
    returns (ret: Outcome)
    requires x.Valid() && m == x.Sent() && |m| >= 4 && Word(m, 0) == xid
    requires TypeOk(t) && HasType(t, res) && InMemory(t, res) && ReplyFits(t, res)
    requires packet == ReplyMessage(xid, t, res)
    modifies x`in_len, x`in_next, x.in_msg
    ensures ret == Outcome(RPC_SUCCESS, Some(res))
  {
    ReplyIsTaken(m, xid, t, res);
    SuccessStraysIff(m, packet, t);
    var ok := XdrRead(x, Some(packet));
    ret := Receive(x, m, t);
  }

  /** The server's half: a call that was read is answered when the reply fits. */
  method Answer(s: RegisteredServer, call: seq<Byte>, proc: U32, ghost args: XdrVal, ghost xid: U32, stub: Stub)
    returns (packet: Option<seq<Byte>>)
    requires s.xdr.Valid() && StubOk(stub)
    requires HasType(stub.args, args) && InMemory(stub.args, args) && CallFits(stub.args, args)
    requires call == CallMessage(xid, s.x_prog, s.xdr.x_vers, proc, stub.args, args)
    modifies s`active, s.xdr, s.xdr.out_msg, s.xdr.in_msg
    ensures packet == if ReplyFits(stub.results, stub.serve(proc, args)) then
                        Some(ReplyMessage(xid, stub.results, stub.serve(proc, args))) else None
  {
    var ok := XdrRead(s.xdr, Some(call));
    ghost var buf := s.xdr.in_msg[..];
    ServerSeesCall(xid, s.x_prog, s.xdr.x_vers, proc, stub.args, args, buf);
    DecodedStraysIff(stub.args, buf[..|call|], CALL_HEADER_SIZE);
    packet := s.SvcDispatch(stub);
  }
}
