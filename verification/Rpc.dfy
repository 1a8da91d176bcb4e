/** Calls and replies over an XDR stream: message starts, headers, the client's call and the
    server's dispatch, each against the message it should build or read. */
module Rpc {
  import opened Base
  import opened XdrSpec
  import opened XdrStream
  import opened RpcSpec

  lemma WordsOne(v: U32)
    ensures Words([v]) == Be32(v)
  {
    assert Words([v]) == Be32(v) + [];
  }

  /** One more word behind a run of words. */
  lemma WordsNext(ws: seq<U32>, v: U32, all: seq<U32>)
    requires all == ws + [v]
    ensures Words(all) == Words(ws) + Be32(v)
  {
    WordsAppend(ws, [v]);
    WordsOne(v);
  }

  // ---- Messages ----

  /** A call takes the next XID, modulo the width of the counter. */
  method MsgStart(x: Xdr, msgType: U32)
    requires x.Valid()
    modifies x`xid, x`out_next, x.out_msg
    ensures x.Valid() && x.xid == if msgType == MSG_CALL then (old(x.xid) + 1) % WORD32 else old(x.xid)
    ensures x.Sent() == Words([x.xid, msgType])
  {
    if msgType == MSG_CALL { x.xid := (x.xid + 1) % WORD32; }
    x.out_next := 8;
    StoreWord(x.out_msg, 0, x.xid);
    StoreWord(x.out_msg, 4, msgType);
    WordsNext([x.xid], msgType, [x.xid, msgType]);
    WordsOne(x.xid);
    assert x.out_msg[..8] == x.out_msg[..4] + x.out_msg[4..8];
  }

  /** htonl at a byte offset. */
  method StoreWord(buf: array<Byte>, pos: nat, v: U32)
    requires pos + 4 <= buf.Length
    modifies buf
    ensures buf[pos..pos + 4] == Be32(v)
    ensures buf[..pos] == old(buf[..pos]) && buf[pos + 4..] == old(buf[pos + 4..])
  {
    var w := Be32(v);
    buf[pos], buf[pos + 1], buf[pos + 2], buf[pos + 3] := w[0], w[1], w[2], w[3];
  }

  method XdrSendAuth(x: Xdr, auth: Auth) returns (ok: bool)
    requires x.Valid() && |auth.body| < INT_LIMIT
    modifies x`out_next, x.out_msg
    ensures x.Valid() && Sends(old(x.Sent()), x.Sent(), ok, true, AuthBytes(auth))
  {
    WordsNext([auth.flavor], |auth.body|, [auth.flavor, |auth.body|]);
    WordsOne(auth.flavor);
    ghost var s0 := x.Sent();
    ok := x.SendUint32(auth.flavor);
    if !ok { return; }
    ok := x.SendUint32(|auth.body|);
    if !ok { return; }
    ghost var s2 := x.Sent();
    assert s2 == s0 + Words([auth.flavor, |auth.body|]);
    if |auth.body| != 0 {
      ok := x.SendBytes(auth.body);
    } else {
      assert Padded(auth.body) == [];
    }
    SendsThen(s0, s2, x.Sent(), ok, true, true, Words([auth.flavor, |auth.body|]), Padded(auth.body));
  }

  /** What does not fit does not fit with more behind it. */
  lemma SendsShort(s0: seq<Byte>, s1: seq<Byte>, a: seq<Byte>, b: seq<Byte>)
    requires Sends(s0, s1, false, true, a)
    ensures Sends(s0, s1, false, true, a + b)
  {}

  method XdrCallMsgStart(x: Xdr, prog: U32, ver: U32, proc: U32, cred: Auth, verf: Auth) returns (ok: bool)
    requires x.Valid() && |cred.body| < INT_LIMIT && |verf.body| < INT_LIMIT
    modifies x`xid, x`x_prog, x`x_proc, x`out_next, x.out_msg
    ensures x.Valid() && x.xid == (old(x.xid) + 1) % WORD32 && x.x_prog == prog && x.x_proc == proc
    ensures Sends([], x.Sent(), ok, true, CallStart(x.xid, prog, ver, proc, cred, verf))
  {
    x.x_prog, x.x_proc := prog, proc;
    MsgStart(x, MSG_CALL);
    SendProcedure(x, prog, ver, proc);
    ghost var s1 := x.Sent();
    ok := SendCredentials(x, cred, verf);
    assert [] + s1 == s1;
    SendsThen([], s1, x.Sent(), ok, true, true, s1, AuthBytes(cred) + AuthBytes(verf));
  }

  /** The words of a call that say what is called; behind a fresh start they always fit. */
  method SendProcedure(x: Xdr, prog: U32, ver: U32, proc: U32)
    requires x.Valid() && x.Sent() == Words([x.xid, MSG_CALL])
    modifies x`out_next, x.out_msg
    ensures x.Valid() && x.Sent() == Words([x.xid, MSG_CALL, RPC_MSG_VERSION, prog, ver, proc])
  {
    CallWords(x.xid, prog, ver, proc);
    var ok := x.SendUint32(RPC_MSG_VERSION);
    if ok { ok := x.SendUint32(prog); }
    if ok { ok := x.SendUint32(ver); }
    if ok { ok := x.SendUint32(proc); }
  }

  method SendCredentials(x: Xdr, cred: Auth, verf: Auth) returns (ok: bool)
    requires x.Valid() && |cred.body| < INT_LIMIT && |verf.body| < INT_LIMIT
    modifies x`out_next, x.out_msg
    ensures x.Valid() && Sends(old(x.Sent()), x.Sent(), ok, true, AuthBytes(cred) + AuthBytes(verf))
  {
    ghost var s1 := x.Sent();
    ok := XdrSendAuth(x, cred);
    if !ok {
      SendsShort(s1, x.Sent(), AuthBytes(cred), AuthBytes(verf));
      return;
    }
    ghost var s2 := x.Sent();
    ok := XdrSendAuth(x, verf);
    SendsThen(s1, s2, x.Sent(), ok, true, true, AuthBytes(cred), AuthBytes(verf));
  }

  /** A call message up to its arguments. */
  ghost function CallStart(xid: U32, prog: U32, ver: U32, proc: U32, cred: Auth, verf: Auth): seq<Byte>
    requires |cred.body| < INT_LIMIT && |verf.body| < INT_LIMIT
  {
    Words([xid, MSG_CALL, RPC_MSG_VERSION, prog, ver, proc]) + (AuthBytes(cred) + AuthBytes(verf))
  }

  lemma CallWords(xid: U32, prog: U32, ver: U32, proc: U32)
    ensures Words([xid, MSG_CALL]) + Be32(RPC_MSG_VERSION) + Be32(prog) + Be32(ver) + Be32(proc)
         == Words([xid, MSG_CALL, RPC_MSG_VERSION, prog, ver, proc])
  {
    WordsNext([xid, MSG_CALL], RPC_MSG_VERSION, [xid, MSG_CALL, RPC_MSG_VERSION]);
    WordsNext([xid, MSG_CALL, RPC_MSG_VERSION], prog, [xid, MSG_CALL, RPC_MSG_VERSION, prog]);
    WordsNext([xid, MSG_CALL, RPC_MSG_VERSION, prog], ver, [xid, MSG_CALL, RPC_MSG_VERSION, prog, ver]);
    WordsNext([xid, MSG_CALL, RPC_MSG_VERSION, prog, ver], proc, [xid, MSG_CALL, RPC_MSG_VERSION, prog, ver, proc]);
  }

  /** With empty credentials the start of a call is its ten header words. */
  lemma EmptyCredentials(xid: U32, prog: U32, ver: U32, proc: U32)
    ensures CallStart(xid, prog, ver, proc, AUTH_NONE, AUTH_NONE) == Words(CallHeader(xid, prog, ver, proc))
  {
    NoAuthIsWords();
    WordsAppend([0, 0], [0, 0]);
    WordsAppend([xid, MSG_CALL, RPC_MSG_VERSION, prog, ver, proc], [0, 0] + [0, 0]);
    assert [xid, MSG_CALL, RPC_MSG_VERSION, prog, ver, proc] + ([0, 0] + [0, 0]) == CallHeader(xid, prog, ver, proc);
  }

  lemma NoAuthIsWords()
    ensures AuthBytes(AUTH_NONE) == Words([0, 0])
  {
    assert Padded([]) == [];
  }

  /** The start of an accepting reply; the XID is the stream's own until the server replaces it. */
  method XdrReplyMsgStart(x: Xdr) returns (ok: bool)
    requires x.Valid()
    modifies x`xid, x`out_next, x.out_msg
    ensures x.Valid() && x.xid == old(x.xid) && ok && x.Sent() == Words(ReplyPrefix(x.xid))
  {
    var stat, accept := MSG_ACCEPTED, ACCEPT_SUCCESS;
    MsgStart(x, MSG_REPLY);
    ok := x.SendUint32(stat);
    if ok { ok := XdrSendAuth(x, AUTH_NONE); }
    if ok { ok := x.SendUint32(accept); }
    ReplyWords(x.xid);
  }

  lemma ReplyWords(xid: U32)
    ensures Words([xid, MSG_REPLY]) + Be32(MSG_ACCEPTED) + AuthBytes(AUTH_NONE) + Be32(ACCEPT_SUCCESS)
         == Words(ReplyPrefix(xid))
  {
    NoAuthIsWords();
    WordsNext([xid, MSG_REPLY], MSG_ACCEPTED, [xid, MSG_REPLY, MSG_ACCEPTED]);
    WordsAppend([xid, MSG_REPLY, MSG_ACCEPTED], [0, 0]);
    assert [xid, MSG_REPLY, MSG_ACCEPTED] + [0, 0] == [xid, MSG_REPLY, MSG_ACCEPTED, 0, 0];
    WordsNext([xid, MSG_REPLY, MSG_ACCEPTED, 0, 0], ACCEPT_SUCCESS, ReplyPrefix(xid));
  }

  // ---- Reply headers ----

  method XdrSendReplyHeader(x: Xdr, reply: ReplyHeader) returns (ok: bool)
    requires x.Valid() && (reply.Accepted? ==> |reply.verf.body| < INT_LIMIT)
    modifies x`out_next, x.out_msg
    ensures x.Valid() && Sends(old(x.Sent()), x.Sent(), ok, Sendable(reply), HeaderBytes(reply))
  {
    ghost var s0 := x.Sent();
    match reply
    case Accepted(verf, stat, low, high) =>
      ok := x.SendUint32(MSG_ACCEPTED);
      if !ok { return; }
      WordsOne(MSG_ACCEPTED);
      ghost var s1 := x.Sent();
      ok := XdrSendAcceptedReplyHeader(x, verf, stat, low, high);
      SendsThen(s0, s1, x.Sent(), ok, true, stat <= PROG_LOCKED,
                Words([MSG_ACCEPTED]), AuthBytes(verf) + Words(AcceptWords(stat, low, high)));
    case Denied(reject, low, high) =>
      ok := XdrSendDeniedReply(x, reject, low, high);
  }

  method XdrSendAcceptedReplyHeader(x: Xdr, verf: Auth, stat: U32, low: U32, high: U32) returns (ok: bool)
    requires x.Valid() && |verf.body| < INT_LIMIT
    modifies x`out_next, x.out_msg
    ensures x.Valid()
    ensures Sends(old(x.Sent()), x.Sent(), ok, stat <= PROG_LOCKED,
                  AuthBytes(verf) + Words(AcceptWords(stat, low, high)))
  {
    ghost var s0 := x.Sent();
    ok := XdrSendAuth(x, verf);
    if !ok { return; }
    ghost var s1 := x.Sent();
    WordsOne(stat);
    ok := x.SendUint32(stat);
    if ok && stat == PROG_MISMATCH {
      WordsAppend([stat], [low, high]);
      assert [stat] + [low, high] == [stat, low, high];
      ghost var s2 := x.Sent();
      ok := SendPair(x, low, high);
      SendsThen(s1, s2, x.Sent(), ok, true, true, Words([stat]), Words([low, high]));
    } else if ok {
      ok := stat <= PROG_LOCKED;
    }
    SendsThen(s0, s1, x.Sent(), ok, true, stat <= PROG_LOCKED, AuthBytes(verf), Words(AcceptWords(stat, low, high)));
  }

  /** Two words in a row. */
  method SendPair(x: Xdr, a: U32, b: U32) returns (ok: bool)
    requires x.Valid()
    modifies x`out_next, x.out_msg
    ensures x.Valid() && Sends(old(x.Sent()), x.Sent(), ok, true, Words([a, b]))
  {
    WordsOne(a);
    WordsNext([a], b, [a, b]);
    ok := x.SendUint32(a);
    if ok { ok := x.SendUint32(b); }
  }

  method XdrSendDeniedReply(x: Xdr, reject: U32, low: U32, high: U32) returns (ok: bool)
    requires x.Valid()
    modifies x`out_next, x.out_msg
    ensures x.Valid()
    ensures Sends(old(x.Sent()), x.Sent(), ok, reject == RPC_MISMATCH || reject == AUTH_ERROR,
                  Words(DenyWords(reject, low, high)))
  {
    ghost var s0, head := x.Sent(), [MSG_DENIED, reject];
    ok := SendPair(x, MSG_DENIED, reject);
    if !ok { return; }
    ghost var s1 := x.Sent();
    if reject == RPC_MISMATCH {
      WordsAppend(head, [low, high]);
      assert head + [low, high] == DenyWords(reject, low, high);
      ok := SendPair(x, low, high);
      SendsThen(s0, s1, x.Sent(), ok, true, true, Words(head), Words([low, high]));
    } else if reject == AUTH_ERROR {
      WordsNext(head, low, DenyWords(reject, low, high));
      ok := x.SendUint32(low);
      SendsThen(s0, s1, x.Sent(), ok, true, true, Words(head), Be32(low));
    } else {
      ok := false;
    }
  }

  method XdrRecvAuth(x: Xdr) returns (r: Option<Auth>)
    requires x.Valid()
    modifies x`in_next
    ensures x.Valid() && Reads(DecAuth(x.Received(), old(x.in_next)), r, x.in_next)
  {
    var ok, flavor := x.RecvUint32();
    if !ok { return None; }
    var length;
    ok, length := x.RecvUint32();
    if !ok || length != 0 { return None; }
    r := Some(Auth(flavor, []));
  }

  method XdrRecvReplyHeader(x: Xdr) returns (r: Option<ReplyHeader>)
    requires x.Valid()
    modifies x`in_next
    ensures x.Valid() && Reads(DecReply(x.Received(), old(x.in_next)), r, x.in_next)
  {
    var ok, stat := x.RecvUint32();
    if !ok { return None; }
    if stat == MSG_ACCEPTED {
      r := XdrRecvAcceptedReplyHeader(x);
    } else if stat == MSG_DENIED {
      r := XdrRecvDeniedReply(x);
    } else {
      r := None;
    }
  }

  method XdrRecvAcceptedReplyHeader(x: Xdr) returns (r: Option<ReplyHeader>)
    requires x.Valid()
    modifies x`in_next
    ensures x.Valid() && Reads(DecAccepted(x.Received(), old(x.in_next)), r, x.in_next)
  {
    var verf := XdrRecvAuth(x);
    if verf.None? { return None; }
    var ok, stat := x.RecvUint32();
    if !ok { return None; }
    if stat == PROG_MISMATCH {
      var low, high;
      ok, low := x.RecvUint32();
      if !ok { return None; }
      ok, high := x.RecvUint32();
      return if ok then Some(Accepted(verf.value, stat, low, high)) else None;
    }
    r := if stat <= PROG_LOCKED then Some(Accepted(verf.value, stat, 0, 0)) else None;
  }

  method XdrRecvDeniedReply(x: Xdr) returns (r: Option<ReplyHeader>)
    requires x.Valid()
    modifies x`in_next
    ensures x.Valid() && Reads(DecDenied(x.Received(), old(x.in_next)), r, x.in_next)
  {
    var ok, stat := x.RecvUint32();
    if !ok { return None; }
    var low, high;
    if stat == RPC_MISMATCH {
      ok, low := x.RecvUint32();
      if !ok { return None; }
      ok, high := x.RecvUint32();
      r := if ok then Some(Denied(stat, low, high)) else None;
    } else if stat == AUTH_ERROR {
      ok, low := x.RecvUint32();
      r := if ok then Some(Denied(stat, low, 0)) else None;
    } else {
      r := None;
    }
  }
}
