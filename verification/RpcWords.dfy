/** The messages of a call, word by word with their numbers written out (section 9 of RFC 5531), and what either
    end makes of the words it finds. */
module RpcWords {
  import opened Base
  import opened XdrSpec
  import opened XdrLayout
  import opened RpcSpec
  import opened Rpc
  import opened RpcCalls

  lemma NthWord(ws: seq<U32>, rest: seq<Byte>, i: nat)
    requires i < |ws|
    ensures |Words(ws) + rest| >= 4 * |ws| && Word(Words(ws) + rest, 4 * i) == ws[i]
  {
    var m := Words(ws) + rest;
    assert m[0..|Words(ws)|] == Words(ws);
    WordsRead(ws, m, 0, i);
  }

  /** A call is ten words, the last four empty credentials, and the arguments. */
  lemma CallLayout(xid: U32, prog: U32, vers: U32, proc: U32, t: XdrType, args: XdrVal)
    requires HasType(t, args)
    ensures var m := CallMessage(xid, prog, vers, proc, t, args);
      && |m| >= 40 && Word(m, 0) == xid && Word(m, 4) == 0 && Word(m, 8) == 2
      && Word(m, 12) == prog && Word(m, 16) == vers && Word(m, 20) == proc
      && Word(m, 24) == 0 && Word(m, 28) == 0 && Word(m, 32) == 0 && Word(m, 36) == 0 && m[40..] == Enc(t, args)
  {
    var ws, rest := CallHeader(xid, prog, vers, proc), Enc(t, args);
    NthWord(ws, rest, 0);
    NthWord(ws, rest, 1);
    NthWord(ws, rest, 2);
    NthWord(ws, rest, 3);
    NthWord(ws, rest, 4);
    NthWord(ws, rest, 5);
    NthWord(ws, rest, 6);
    NthWord(ws, rest, 7);
    NthWord(ws, rest, 8);
    NthWord(ws, rest, 9);
    assert (Words(ws) + rest)[|Words(ws)|..] == rest;
  }

  /** A reply that succeeds is six words and the results. */
  lemma ReplyLayout(xid: U32, t: XdrType, res: XdrVal)
    requires HasType(t, res)
    ensures var m := ReplyMessage(xid, t, res);
      && |m| >= 24 && Word(m, 0) == xid && Word(m, 4) == 1 && Word(m, 8) == 0
      && Word(m, 12) == 0 && Word(m, 16) == 0 && Word(m, 20) == 0 && m[24..] == Enc(t, res)
  {
    var ws, rest := ReplyPrefix(xid), Enc(t, res);
    NthWord(ws, rest, 0);
    NthWord(ws, rest, 1);
    NthWord(ws, rest, 2);
    NthWord(ws, rest, 3);
    NthWord(ws, rest, 4);
    NthWord(ws, rest, 5);
    assert (Words(ws) + rest)[|Words(ws)|..] == rest;
  }

  /** Messages fit 18432 bytes, and nothing else stops them but the limits of their types. */
  lemma FitsIff(t: XdrType, v: XdrVal)
    requires HasType(t, v)
    ensures CallFits(t, v) <==> WithinLimits(t, v) && |Enc(t, v)| <= 18392
    ensures ReplyFits(t, v) <==> WithinLimits(t, v) && |Enc(t, v)| <= 18408
  {
    assert |Words(ReplyPrefix(0))| == 24;
  }

  /** Credentials and verifiers are a flavour, a length and that much data. */
  lemma AuthLayout(a: Auth)
    requires |a.body| < INT_LIMIT
    ensures var part := AuthBytes(a);
      |part| >= 8 && Word(part, 0) == a.flavor && Word(part, 4) == |a.body| && DataThenZeros(part[8..], a.body)
  {
    var ws := [a.flavor, |a.body|];
    NthWord(ws, Padded(a.body), 0);
    NthWord(ws, Padded(a.body), 1);
    assert AuthBytes(a)[8..] == Padded(a.body);
  }

  /** The start of a call with any credentials and verifier. */
  lemma CallStartLayout(xid: U32, prog: U32, vers: U32, proc: U32, cred: Auth, verf: Auth)
    requires |cred.body| < INT_LIMIT && |verf.body| < INT_LIMIT
    ensures CallStart(xid, prog, vers, proc, cred, verf)
         == Words([xid, 0, 2, prog, vers, proc]) + (AuthBytes(cred) + AuthBytes(verf))
  {}

  /** What is sent of a reply besides its start: accepted with a verifier and a status, to which a mismatch adds
      its versions, or denied for a mismatch or an authentication error. */
  lemma HeaderLayout(h: ReplyHeader)
    requires Sendable(h) && (h.Accepted? ==> |h.verf.body| < INT_LIMIT)
    ensures HeaderBytes(h)
         == match h
            case Accepted(verf, stat, low, high) =>
              Words([0]) + (AuthBytes(verf) + Words(if stat == 2 then [2, low, high] else [stat]))
            case Denied(reject, low, high) => Words(if reject == 0 then [1, 0, low, high] else [1, 1, low])
    ensures Sendable(h) <==> if h.Accepted? then h.stat <= 6 else h.reject <= 1
  {}

  // ---- What the caller makes of a reply ----

  lemma DeniedByWords(request: seq<Byte>, reply: seq<Byte>, t: XdrType)
    requires 4 <= |request| && 12 <= |reply| && Word(reply, 0) == Word(request, 0) && Word(reply, 8) != 0
    ensures CallOutcome(request, reply, t)
         == if |reply| >= 24 && Word(reply, 8) == 1 && Word(reply, 12) == 0 then Outcome(6, None)
            else if |reply| >= 20 && Word(reply, 8) == 1 && Word(reply, 12) == 1 then Outcome(7, None)
            else Outcome(4, None)
  {}

  lemma AcceptedByWords(request: seq<Byte>, reply: seq<Byte>, t: XdrType)
    requires 4 <= |request| && 8 <= |reply| && Word(reply, 0) == Word(request, 0)
    requires |reply| < 12 || Word(reply, 8) == 0
    ensures CallOutcome(request, reply, t)
         == if |reply| < 24 || Word(reply, 16) != 0 then Outcome(4, None)
            else if Word(reply, 20) == 0 then
              (match Dec(t, reply, 24) case None => Outcome(2, None) case Some(r) => Outcome(0, Some(r.v)))
            else if Word(reply, 20) in [1, 3, 4, 5, 6] then Outcome(7 + Word(reply, 20), None)
            else if Word(reply, 20) == 2 && |reply| >= 32 then Outcome(9, None)
            else Outcome(4, None)
  {}

  /** The outcome of every call, by the words of the reply: 0 with results for its own XID and an accepting header
      with an empty verifier, 2 if the results cannot be read, 7 more than the status of a call that was accepted
      and not carried out, 6 and 7 for the two denials, and 4 for what is not for this call or cannot be read. */
  lemma OutcomeByWords(request: seq<Byte>, reply: seq<Byte>, t: XdrType)
    requires 4 <= |request| && 8 <= |reply|
    ensures var n := |reply|;
      CallOutcome(request, reply, t)
      == if Word(reply, 0) != Word(request, 0) then Outcome(4, None)
         else if n >= 24 && Word(reply, 8) == 0 && Word(reply, 16) == 0 && Word(reply, 20) == 0 then
           (match Dec(t, reply, 24) case None => Outcome(2, None) case Some(r) => Outcome(0, Some(r.v)))
         else if n >= 24 && Word(reply, 8) == 0 && Word(reply, 16) == 0 && Word(reply, 20) in [1, 3, 4, 5, 6] then
           Outcome(7 + Word(reply, 20), None)
         else if n >= 32 && Word(reply, 8) == 0 && Word(reply, 16) == 0 && Word(reply, 20) == 2 then Outcome(9, None)
         else if n >= 24 && Word(reply, 8) == 1 && Word(reply, 12) == 0 then Outcome(6, None)
         else if n >= 20 && Word(reply, 8) == 1 && Word(reply, 12) == 1 then Outcome(7, None)
         else Outcome(4, None)
  {
    if Word(reply, 0) == Word(request, 0) {
      if |reply| >= 12 && Word(reply, 8) != 0 {
        DeniedByWords(request, reply, t);
      } else {
        AcceptedByWords(request, reply, t);
      }
    }
  }

  /** What a call returns besides: 26 for a reset, 1 for arguments that cannot be encoded, 3 for a failed send. */
  lemma ResultByFate(m: seq<Byte>, fits: bool, resType: XdrType, fate: Fate, carry: seq<Byte> -> seq<Byte>)
    requires |m| >= 4 && ReplyPacket(carry(m))
    ensures CallResult(m, fits, resType, fate, carry)
         == if fate == ResetAtEntry then Outcome(26, None)
            else if !fits then Outcome(1, None)
            else if fate == Answered then CallOutcome(m, carry(m), resType)
            else Outcome(if fate == SendFails then 3 else 26, None)
  {}

  // ---- What the server makes of a packet ----

  /** A server replies exactly to calls to its program and version whose arguments can be read behind the ten
      words and whose results are within limits and fit. */
  lemma RepliesIff(buf: seq<Byte>, len: nat, prog: U32, vers: U32, stub: Stub)
    requires StubOk(stub) && |buf| == 18432 && len <= 18432
    ensures ServerReply(buf, len, prog, vers, stub).Some? <==>
            && Word(buf, 4) == 0 && Word(buf, 12) == prog && Word(buf, 16) == vers
            && Dec(stub.args, buf[..len], 40).Some?
            && var res := stub.serve(Word(buf, 20), Dec(stub.args, buf[..len], 40).value.v);
               WithinLimits(stub.results, res) && |Enc(stub.results, res)| <= 18408
  {
    if Dec(stub.args, buf[..len], 40).Some? {
      FitsIff(stub.results, stub.serve(Word(buf, 20), Dec(stub.args, buf[..len], 40).value.v));
    }
  }
}
