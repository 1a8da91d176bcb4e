/** ONC RPC messages as librpc builds and reads them: call and reply headers as words in front of
    encoded values (section 9 of RFC 5531). */
module RpcSpec {
  import opened Base
  import opened XdrSpec
  import opened XdrBounds

  const MSG_CALL: U32 := 0
  const MSG_REPLY: U32 := 1
  const RPC_MSG_VERSION: U32 := 2
  const MSG_ACCEPTED: U32 := 0
  const MSG_DENIED: U32 := 1
  const ACCEPT_SUCCESS: U32 := 0
  const PROG_MISMATCH: U32 := 2
  const PROG_LOCKED: U32 := 6
  const RPC_MISMATCH: U32 := 0
  const AUTH_ERROR: U32 := 1
  const CALL_HEADER_SIZE: nat := 40

  // ---- Runs of words ----

  function Words(ws: seq<U32>): (bs: seq<Byte>)
    ensures |bs| == 4 * |ws|
  {
    if ws == [] then [] else Be32(ws[0]) + Words(ws[1..])
  }

  lemma {:induction false} WordsAppend(a: seq<U32>, b: seq<U32>)
    ensures Words(a + b) == Words(a) + Words(b)
  {
    if a == [] {
      assert a + b == b;
    } else {
      assert (a + b)[1..] == a[1..] + b;
      WordsAppend(a[1..], b);
    }
  }

  /** Reading a run of words where it stands gives the words back. */
  lemma {:induction false} WordsRead(ws: seq<U32>, bs: seq<Byte>, pos: nat, i: nat)
    requires StandsAt(bs, pos, Words(ws)) && i < |ws|
    ensures DecWord(bs, pos + 4 * i) == Some(Parsed(ws[i], pos + 4 * i + 4))
    ensures Word(bs, pos + 4 * i) == ws[i]
  {
    StandsSplit(bs, pos, Be32(ws[0]), Words(ws[1..]));
    if i == 0 {
      WordOfBe32(ws[0], bs, pos);
    } else {
      WordsRead(ws[1..], bs, pos + 4, i - 1);
    }
  }

  /** A word that is read in front of a run that stands makes the run longer. */
  lemma ConsStands(w: U32, tail: seq<U32>, bs: seq<Byte>, pos: nat)
    requires pos + 4 <= |bs| && w == Word(bs, pos) && StandsAt(bs, pos + 4, Words(tail))
    ensures StandsAt(bs, pos, Words([w] + tail))
  {
    assert ([w] + tail)[1..] == tail;
    WordStands(bs, pos);
    StandsJoin(bs, pos, Be32(w), Words(tail));
  }

  lemma PairStands(tail: seq<U32>, bs: seq<Byte>, pos: nat)
    requires pos + 8 <= |bs| && StandsAt(bs, pos + 8, Words(tail))
    ensures StandsAt(bs, pos, Words([Word(bs, pos)] + ([Word(bs, pos + 4)] + tail)))
  {
    ConsStands(Word(bs, pos + 4), tail, bs, pos + 4);
    ConsStands(Word(bs, pos), [Word(bs, pos + 4)] + tail, bs, pos);
  }

  // ---- Authentication and reply headers ----

  datatype Auth = Auth(flavor: U32, body: seq<Byte>)

  const AUTH_NONE := Auth(0, [])

  function AuthBytes(a: Auth): seq<Byte>
    requires |a.body| < INT_LIMIT
  {
    Words([a.flavor, |a.body|]) + Padded(a.body)
  }

  /** How the other side answered. The version range belongs to the mismatch answers only, and an
      authentication error keeps its reason in low; elsewhere both are zero. */
  datatype ReplyHeader =
    | Accepted(verf: Auth, stat: U32, low: U32, high: U32)
    | Denied(reject: U32, low: U32, high: U32)

  /** A header the library can send with an empty verifier. */
  predicate ValidHeader(h: ReplyHeader) {
    match h
    case Accepted(verf, stat, low, high) =>
      verf.body == [] && stat <= PROG_LOCKED && (stat != PROG_MISMATCH ==> low == 0 && high == 0)
    case Denied(reject, low, high) =>
      reject == RPC_MISMATCH || (reject == AUTH_ERROR && high == 0)
  }

  predicate Sendable(h: ReplyHeader) {
    match h
    case Accepted(_, stat, _, _) => stat <= PROG_LOCKED
    case Denied(reject, _, _) => reject == RPC_MISMATCH || reject == AUTH_ERROR
  }

  function AcceptWords(stat: U32, low: U32, high: U32): seq<U32> {
    if stat == PROG_MISMATCH then [stat, low, high] else [stat]
  }

  function DenyWords(reject: U32, low: U32, high: U32): seq<U32> {
    if reject == RPC_MISMATCH then [MSG_DENIED, reject, low, high] else [MSG_DENIED, reject, low]
  }

  function HeaderBytes(h: ReplyHeader): seq<Byte>
    requires h.Accepted? ==> |h.verf.body| < INT_LIMIT
  {
    match h
    case Accepted(verf, stat, low, high) =>
      Words([MSG_ACCEPTED]) + (AuthBytes(verf) + Words(AcceptWords(stat, low, high)))
    case Denied(reject, low, high) => Words(DenyWords(reject, low, high))
  }

  /** With an empty verifier a header is a run of words. */
  function HeaderWords(h: ReplyHeader): seq<U32>
    requires ValidHeader(h)
  {
    match h
    case Accepted(verf, stat, low, high) => [MSG_ACCEPTED] + ([verf.flavor, 0] + AcceptWords(stat, low, high))
    case Denied(reject, low, high) => DenyWords(reject, low, high)
  }

  lemma HeaderIsWords(h: ReplyHeader)
    requires ValidHeader(h)
    ensures HeaderBytes(h) == Words(HeaderWords(h))
  {
    if h.Accepted? {
      var aw := AcceptWords(h.stat, h.low, h.high);
      assert Padded(h.verf.body) == [];
      assert AuthBytes(h.verf) == Words([h.verf.flavor, 0]);
      WordsAppend([h.verf.flavor, 0], aw);
      WordsAppend([MSG_ACCEPTED], [h.verf.flavor, 0] + aw);
    }
  }

  // ---- Reading reply headers ----

  function DecPair(bs: seq<Byte>, pos: nat): Option<Parsed<(U32, U32)>> {
    if pos + 8 > |bs| then None else Some(Parsed((Word(bs, pos), Word(bs, pos + 4)), pos + 8))
  }

  function DecAuth(bs: seq<Byte>, pos: nat): Option<Parsed<Auth>> {
    match DecPair(bs, pos)
    case None => None
    case Some(p) => if p.v.1 != 0 then None else Some(Parsed(Auth(p.v.0, []), p.next))
  }

  function DecAccepted(bs: seq<Byte>, pos: nat): Option<Parsed<ReplyHeader>> {
    match DecAuth(bs, pos)
    case None => None
    case Some(a) =>
      match DecWord(bs, a.next)
      case None => None
      case Some(s) =>
        if s.v == PROG_MISMATCH then
          (match DecPair(bs, s.next)
           case None => None
           case Some(v) => Some(Parsed(Accepted(a.v, s.v, v.v.0, v.v.1), v.next)))
        else if s.v <= PROG_LOCKED then Some(Parsed(Accepted(a.v, s.v, 0, 0), s.next))
        else None
  }

  function DecDenied(bs: seq<Byte>, pos: nat): Option<Parsed<ReplyHeader>> {
    match DecWord(bs, pos)
    case None => None
    case Some(s) =>
      if s.v == RPC_MISMATCH then
        (match DecPair(bs, s.next)
         case None => None
         case Some(v) => Some(Parsed(Denied(s.v, v.v.0, v.v.1), v.next)))
      else if s.v == AUTH_ERROR then
        (match DecWord(bs, s.next)
         case None => None
         case Some(w) => Some(Parsed(Denied(s.v, w.v, 0), w.next)))
      else None
  }

  function DecReply(bs: seq<Byte>, pos: nat): Option<Parsed<ReplyHeader>> {
    match DecWord(bs, pos)
    case None => None
    case Some(s) =>
      if s.v == MSG_ACCEPTED then DecAccepted(bs, s.next)
      else if s.v == MSG_DENIED then DecDenied(bs, s.next)
      else None
  }

  /** The first of a run of words is read; the others stand behind it. */
  lemma FirstWord(w: U32, tail: seq<U32>, bs: seq<Byte>, pos: nat)
    requires StandsAt(bs, pos, Words([w] + tail))
    ensures DecWord(bs, pos) == Some(Parsed(w, pos + 4)) && StandsAt(bs, pos + 4, Words(tail))
  {
    assert ([w] + tail)[1..] == tail;
    StandsSplit(bs, pos, Be32(w), Words(tail));
    WordOfBe32(w, bs, pos);
  }

  lemma PairInverts(a: U32, b: U32, tail: seq<U32>, bs: seq<Byte>, pos: nat)
    requires StandsAt(bs, pos, Words([a] + ([b] + tail)))
    ensures DecPair(bs, pos) == Some(Parsed((a, b), pos + 8)) && StandsAt(bs, pos + 8, Words(tail))
  {
    FirstWord(a, [b] + tail, bs, pos);
    FirstWord(b, tail, bs, pos + 4);
  }

  lemma AcceptedInverts(flavor: U32, stat: U32, low: U32, high: U32, bs: seq<Byte>, pos: nat)
    requires ValidHeader(Accepted(Auth(flavor, []), stat, low, high))
    requires StandsAt(bs, pos, Words([flavor, 0] + AcceptWords(stat, low, high)))
    ensures DecAccepted(bs, pos)
         == Some(Parsed(Accepted(Auth(flavor, []), stat, low, high), pos + 8 + 4 * |AcceptWords(stat, low, high)|))
  {
    var aw := AcceptWords(stat, low, high);
    assert [flavor, 0] + aw == [flavor] + ([0] + aw);
    PairInverts(flavor, 0, aw, bs, pos);
    if stat == PROG_MISMATCH {
      assert aw == [stat] + ([low] + ([high] + []));
      FirstWord(stat, [low] + ([high] + []), bs, pos + 8);
      PairInverts(low, high, [], bs, pos + 12);
    } else {
      assert aw == [stat] + [];
      FirstWord(stat, [], bs, pos + 8);
    }
  }

  lemma DeniedInverts(h: ReplyHeader, bs: seq<Byte>, pos: nat)
    requires h.Denied? && ValidHeader(h) && StandsAt(bs, pos, Words(HeaderWords(h)))
    ensures DecReply(bs, pos) == Some(Parsed(h, pos + 4 * |HeaderWords(h)|))
  {
    var ws := DenyWords(h.reject, h.low, h.high);
    WordsRead(ws, bs, pos, 0);
    WordsRead(ws, bs, pos, 1);
    WordsRead(ws, bs, pos, 2);
    if h.reject == RPC_MISMATCH { WordsRead(ws, bs, pos, 3); }
  }

  lemma WordsInvert(h: ReplyHeader, bs: seq<Byte>, pos: nat)
    requires ValidHeader(h) && StandsAt(bs, pos, Words(HeaderWords(h)))
    ensures DecReply(bs, pos) == Some(Parsed(h, pos + 4 * |HeaderWords(h)|))
  {
    if h.Denied? {
      DeniedInverts(h, bs, pos);
    } else {
      var aw := AcceptWords(h.stat, h.low, h.high);
      assert h.verf == Auth(h.verf.flavor, []);
      FirstWord(MSG_ACCEPTED, [h.verf.flavor, 0] + aw, bs, pos);
      AcceptedInverts(h.verf.flavor, h.stat, h.low, h.high, bs, pos + 4);
    }
  }

  /** Receiving inverts sending for every header with an empty verifier. */
  lemma ReplyHeaderInverts(h: ReplyHeader, bs: seq<Byte>, pos: nat)
    requires ValidHeader(h) && StandsAt(bs, pos, HeaderBytes(h))
    ensures DecReply(bs, pos) == Some(Parsed(h, pos + |HeaderBytes(h)|))
  {
    HeaderIsWords(h);
    WordsInvert(h, bs, pos);
  }

  /** What an accepted header is read from. */
  lemma AcceptedStands(bs: seq<Byte>, pos: nat)
    requires DecAccepted(bs, pos).Some?
    ensures var p := DecAccepted(bs, pos).value;
      && p.v.Accepted? && ValidHeader(p.v)
      && p.next == pos + 8 + 4 * |AcceptWords(p.v.stat, p.v.low, p.v.high)|
      && StandsAt(bs, pos, Words([p.v.verf.flavor, 0] + AcceptWords(p.v.stat, p.v.low, p.v.high)))
  {
    var h := DecAccepted(bs, pos).value.v;
    var aw := AcceptWords(h.stat, h.low, h.high);
    StatusStands(bs, pos);
    PairStands(aw, bs, pos);
    assert [h.verf.flavor, 0] + aw == [h.verf.flavor] + ([0] + aw);
  }

  lemma StatusStands(bs: seq<Byte>, pos: nat)
    requires DecAccepted(bs, pos).Some?
    ensures var h := DecAccepted(bs, pos).value.v;
      h.Accepted? && StandsAt(bs, pos + 8, Words(AcceptWords(h.stat, h.low, h.high)))
  {
    var h := DecAccepted(bs, pos).value.v;
    if h.stat == PROG_MISMATCH {
      PairStands([], bs, pos + 12);
      ConsStands(h.stat, [h.low] + ([h.high] + []), bs, pos + 8);
      assert [h.stat] + ([h.low] + ([h.high] + [])) == [h.stat, h.low, h.high];
    } else {
      ConsStands(h.stat, [], bs, pos + 8);
      assert [h.stat] + [] == [h.stat];
    }
  }

  lemma DeniedStands(bs: seq<Byte>, pos: nat)
    requires pos + 4 <= |bs| && Word(bs, pos) == MSG_DENIED && DecDenied(bs, pos + 4).Some?
    ensures var p := DecDenied(bs, pos + 4).value;
      && p.v.Denied? && ValidHeader(p.v) && p.next == pos + 4 * |HeaderWords(p.v)|
      && StandsAt(bs, pos, Words(HeaderWords(p.v)))
  {
    var h := DecDenied(bs, pos + 4).value.v;
    if h.reject == RPC_MISMATCH {
      PairStands([], bs, pos + 8);
      PairStands([h.low] + ([h.high] + []), bs, pos);
      assert [MSG_DENIED] + ([h.reject] + ([h.low] + ([h.high] + []))) == [MSG_DENIED, h.reject, h.low, h.high];
    } else {
      ConsStands(h.low, [], bs, pos + 8);
      PairStands([h.low] + [], bs, pos);
      assert [MSG_DENIED] + ([h.reject] + ([h.low] + [])) == [MSG_DENIED, h.reject, h.low];
    }
  }

  /** Whatever header the receiver accepts, sending it again gives the bytes it was read from. */
  lemma AcceptedBytesReencode(bs: seq<Byte>, pos: nat)
    requires DecReply(bs, pos).Some?
    ensures var p := DecReply(bs, pos).value;
      ValidHeader(p.v) && p.next == pos + |HeaderBytes(p.v)| && StandsAt(bs, pos, HeaderBytes(p.v))
  {
    var h := DecReply(bs, pos).value.v;
    if Word(bs, pos) == MSG_ACCEPTED {
      AcceptedStands(bs, pos + 4);
      ConsStands(MSG_ACCEPTED, [h.verf.flavor, 0] + AcceptWords(h.stat, h.low, h.high), bs, pos);
    } else {
      DeniedStands(bs, pos);
    }
    HeaderIsWords(h);
  }

  // ---- Whole messages ----

  function CallHeader(xid: U32, prog: U32, vers: U32, proc: U32): seq<U32> {
    [xid, MSG_CALL, RPC_MSG_VERSION, prog, vers, proc, 0, 0, 0, 0]
  }

  function CallMessage(xid: U32, prog: U32, vers: U32, proc: U32, t: XdrType, args: XdrVal): seq<Byte>
    requires HasType(t, args)
  {
    Words(CallHeader(xid, prog, vers, proc)) + Enc(t, args)
  }

  function ReplyPrefix(xid: U32): seq<U32> {
    [xid, MSG_REPLY, MSG_ACCEPTED, 0, 0, ACCEPT_SUCCESS]
  }

  function ReplyMessage(xid: U32, t: XdrType, res: XdrVal): seq<Byte>
    requires HasType(t, res)
  {
    Words(ReplyPrefix(xid)) + Enc(t, res)
  }

  // ---- The two ends of a call ----

  /** A generated dispatch function: decode the arguments, call the procedure, reply. The results are
      values in its memory. */
  datatype Stub = Stub(args: XdrType, results: XdrType, serve: (U32, XdrVal) -> XdrVal)

  ghost predicate StubOk(stub: Stub) {
    && TypeOk(stub.args) && TypeOk(stub.results)
    && forall proc, v :: HasType(stub.results, stub.serve(proc, v)) && InMemory(stub.results, stub.serve(proc, v))
  }

  /** The reply a registered server gives to the first len bytes of its input buffer, if it gives one. */
  ghost function ServerReply(buf: seq<Byte>, len: nat, prog: U32, vers: U32, stub: Stub): Option<seq<Byte>>
    requires StubOk(stub) && |buf| == RPCROUTER_MSGSIZE_MAX && len <= RPCROUTER_MSGSIZE_MAX
  {
    if Word(buf, 4) != MSG_CALL || Word(buf, 12) != prog || Word(buf, 16) != vers then None
    else StubReply(buf, len, Word(buf, 20), stub)
  }

  ghost function StubReply(buf: seq<Byte>, len: nat, proc: U32, stub: Stub): Option<seq<Byte>>
    requires StubOk(stub) && |buf| == RPCROUTER_MSGSIZE_MAX && len <= RPCROUTER_MSGSIZE_MAX
  {
    match Dec(stub.args, buf[..len], CALL_HEADER_SIZE)
    case None => None
    case Some(a) =>
      var res := stub.serve(proc, a.v);
      if ReplyFits(stub.results, res) then Some(ReplyMessage(Word(buf, 0), stub.results, res)) else None
  }

  predicate ReplyFits(t: XdrType, res: XdrVal)
    requires HasType(t, res)
  {
    WithinLimits(t, res) && |Words(ReplyPrefix(0))| + |Enc(t, res)| <= RPCROUTER_MSGSIZE_MAX
  }

  predicate CallFits(t: XdrType, args: XdrVal)
    requires HasType(t, args)
  {
    WithinLimits(t, args) && CALL_HEADER_SIZE + |Enc(t, args)| <= RPCROUTER_MSGSIZE_MAX
  }

  // The client statuses a call can end with; a mismatch and the refusals of the other side are
  // offsets from 6 and 7.
  const RPC_SUCCESS: nat := 0
  const RPC_CANTENCODEARGS: nat := 1
  const RPC_CANTDECODERES: nat := 2
  const RPC_CANTSEND: nat := 3
  const RPC_CANTRECV: nat := 4
  const RPC_VERSMISMATCH: nat := 6
  const RPC_AUTHERROR: nat := 7
  const RPC_SUBSYSTEM_RESTART: nat := 26

  datatype Outcome = Outcome(stat: nat, results: Option<XdrVal>)

  /** A packet that wakes a caller up. */
  predicate ReplyPacket(packet: seq<Byte>) {
    8 <= |packet| <= RPCROUTER_MSGSIZE_MAX && Word(packet, 4) == MSG_REPLY
  }

  function CallOutcome(request: seq<Byte>, reply: seq<Byte>, t: XdrType): Outcome
    requires 4 <= |request| && 8 <= |reply|
  {
    if Word(reply, 0) != Word(request, 0) then Outcome(RPC_CANTRECV, None)
    else match DecReply(reply, 8)
      case None => Outcome(RPC_CANTRECV, None)
      case Some(h) =>
        if h.v.Denied? then Outcome(h.v.reject + RPC_VERSMISMATCH, None)
        else if h.v.stat != ACCEPT_SUCCESS then Outcome(h.v.stat + RPC_AUTHERROR, None)
        else match Dec(t, reply, h.next)
          case None => Outcome(RPC_CANTDECODERES, None)
          case Some(r) => Outcome(RPC_SUCCESS, Some(r.v))
  }

  /** The arguments of a call to this server have a length at which it goes astray. */
  ghost predicate CallStrays(buf: seq<Byte>, len: nat, prog: U32, vers: U32, stub: Stub)
    requires |buf| == RPCROUTER_MSGSIZE_MAX && len <= RPCROUTER_MSGSIZE_MAX
  {
    && Word(buf, 4) == MSG_CALL && Word(buf, 12) == prog && Word(buf, 16) == vers
    && Strays(stub.args, buf[..len], CALL_HEADER_SIZE)
  }

  /** The results of an accepting reply have one at which the caller does. */
  predicate ReplyStrays(reply: seq<Byte>, t: XdrType) {
    match DecReply(reply, 8)
    case None => false
    case Some(h) => h.v.Accepted? && h.v.stat == ACCEPT_SUCCESS && Strays(t, reply, h.next)
  }

  /** A call that is answered leads the server astray exactly when an array among its arguments does not
      fit in memory, and a reply that succeeds does so to the caller. */
  lemma AnsweredStraysIff(buf: seq<Byte>, len: nat, prog: U32, vers: U32, stub: Stub)
    requires StubOk(stub) && |buf| == RPCROUTER_MSGSIZE_MAX && len <= RPCROUTER_MSGSIZE_MAX
    requires ServerReply(buf, len, prog, vers, stub).Some?
    ensures Dec(stub.args, buf[..len], CALL_HEADER_SIZE).Some?
    ensures CallStrays(buf, len, prog, vers, stub)
       <==> !InMemory(stub.args, Dec(stub.args, buf[..len], CALL_HEADER_SIZE).value.v)
  {
    DecodedStraysIff(stub.args, buf[..len], CALL_HEADER_SIZE);
  }

  lemma SuccessStraysIff(request: seq<Byte>, reply: seq<Byte>, t: XdrType)
    requires 4 <= |request| && 8 <= |reply| <= RPCROUTER_MSGSIZE_MAX
    requires CallOutcome(request, reply, t).stat == RPC_SUCCESS
    ensures var ret := CallOutcome(request, reply, t);
      ret.results.Some? && (ReplyStrays(reply, t) <==> !InMemory(t, ret.results.value))
  {
    DecodedStraysIff(t, reply, DecReply(reply, 8).value.next);
  }

  /** A call succeeds exactly on a reply with its own XID, an accepting header with an empty
      verifier, and results that decode. */
  lemma SuccessIff(request: seq<Byte>, reply: seq<Byte>, t: XdrType)
    requires 4 <= |request| && 8 <= |reply|
    ensures CallOutcome(request, reply, t).stat == RPC_SUCCESS <==>
      && 24 <= |reply| && Word(reply, 0) == Word(request, 0) && Word(reply, 8) == MSG_ACCEPTED
      && Word(reply, 16) == 0 && Word(reply, 20) == ACCEPT_SUCCESS && Dec(t, reply, 24).Some?
  {}

  lemma CallHeaderReads(xid: U32, prog: U32, vers: U32, proc: U32, buf: seq<Byte>)
    requires StandsAt(buf, 0, Words(CallHeader(xid, prog, vers, proc)))
    ensures |Words(CallHeader(xid, prog, vers, proc))| == CALL_HEADER_SIZE <= |buf|
    ensures Word(buf, 0) == xid && Word(buf, 4) == MSG_CALL
    ensures Word(buf, 12) == prog && Word(buf, 16) == vers && Word(buf, 20) == proc
  {
    var h := CallHeader(xid, prog, vers, proc);
    WordsRead(h, buf, 0, 0);
    WordsRead(h, buf, 0, 1);
    WordsRead(h, buf, 0, 3);
    WordsRead(h, buf, 0, 4);
    WordsRead(h, buf, 0, 5);
  }

  /** What the server makes of a call that its buffer starts with, whatever stale bytes follow. */
  lemma ServerSeesCall(xid: U32, prog: U32, vers: U32, proc: U32, t: XdrType, args: XdrVal, buf: seq<Byte>)
    requires TypeOk(t) && HasType(t, args) && CallFits(t, args) && |buf| == RPCROUTER_MSGSIZE_MAX
    requires StandsAt(buf, 0, CallMessage(xid, prog, vers, proc, t, args))
    ensures |Words(CallHeader(xid, prog, vers, proc))| == CALL_HEADER_SIZE
    ensures Word(buf, 0) == xid && Word(buf, 4) == MSG_CALL
    ensures Word(buf, 12) == prog && Word(buf, 16) == vers && Word(buf, 20) == proc
    ensures var m := CallMessage(xid, prog, vers, proc, t, args);
      Dec(t, buf[..|m|], CALL_HEADER_SIZE) == Some(Parsed(args, |m|))
  {
    var h, m := CallHeader(xid, prog, vers, proc), CallMessage(xid, prog, vers, proc, t, args);
    StandsSplit(buf, 0, Words(h), Enc(t, args));
    CallHeaderReads(xid, prog, vers, proc, buf);
    StandsSplit(m, 0, Words(h), Enc(t, args));
    DecodeInvertsEncode(t, args, m, CALL_HEADER_SIZE);
  }

  lemma AcceptedOutcome(request: seq<Byte>, reply: seq<Byte>, t: XdrType, p: Parsed<XdrVal>)
    requires 4 <= |request| && 24 <= |reply| && Word(reply, 0) == Word(request, 0) && Word(reply, 8) == MSG_ACCEPTED
    requires Word(reply, 16) == 0 && Word(reply, 20) == ACCEPT_SUCCESS && Dec(t, reply, 24) == Some(p)
    ensures CallOutcome(request, reply, t) == Outcome(RPC_SUCCESS, Some(p.v))
  {}

  lemma ReplyPrefixReads(xid: U32, r: seq<Byte>)
    requires StandsAt(r, 0, Words(ReplyPrefix(xid)))
    ensures Word(r, 0) == xid && Word(r, 4) == MSG_REPLY && Word(r, 8) == MSG_ACCEPTED
    ensures Word(r, 16) == 0 && Word(r, 20) == ACCEPT_SUCCESS
  {
    var h := ReplyPrefix(xid);
    WordsRead(h, r, 0, 0);
    WordsRead(h, r, 0, 1);
    WordsRead(h, r, 0, 2);
    WordsRead(h, r, 0, 4);
    WordsRead(h, r, 0, 5);
  }

  lemma ReplyParts(xid: U32, t: XdrType, res: XdrVal)
    requires HasType(t, res)
    ensures var r := ReplyMessage(xid, t, res);
      |r| == 24 + |Enc(t, res)| && StandsAt(r, 0, Words(ReplyPrefix(xid))) && StandsAt(r, 24, Enc(t, res))
  {
    assert |Words(ReplyPrefix(xid))| == 24;
  }

  /** The caller decodes the results of a reply to its own call. */
  lemma ReplyIsTaken(request: seq<Byte>, xid: U32, t: XdrType, res: XdrVal)
    requires TypeOk(t) && HasType(t, res) && ReplyFits(t, res) && 4 <= |request| && Word(request, 0) == xid
    ensures var r := ReplyMessage(xid, t, res);
      ReplyPacket(r) && CallOutcome(request, r, t) == Outcome(RPC_SUCCESS, Some(res))
  {
    var r := ReplyMessage(xid, t, res);
    ReplyParts(xid, t, res);
    ReplyPrefixReads(xid, r);
    DecodeInvertsEncode(t, res, r, 24);
    AcceptedOutcome(request, r, t, Parsed(res, |r|));
  }

  /** Every reply a server sends, to whatever packet, is taken by the caller whose XID that packet
      carries, with the results of the procedure on the arguments the packet holds. */
  lemma EveryReplyIsTaken(buf: seq<Byte>, len: nat, prog: U32, vers: U32, stub: Stub, request: seq<Byte>)
    requires StubOk(stub) && |buf| == RPCROUTER_MSGSIZE_MAX && len <= RPCROUTER_MSGSIZE_MAX
    requires ServerReply(buf, len, prog, vers, stub).Some? && 4 <= |request| && Word(request, 0) == Word(buf, 0)
    ensures var a := Dec(stub.args, buf[..len], CALL_HEADER_SIZE);
      a.Some? && CallOutcome(request, ServerReply(buf, len, prog, vers, stub).value, stub.results)
        == Outcome(RPC_SUCCESS, Some(stub.serve(Word(buf, 20), a.value.v)))
  {
    var a := Dec(stub.args, buf[..len], CALL_HEADER_SIZE);
    ReplyIsTaken(request, Word(buf, 0), stub.results, stub.serve(Word(buf, 20), a.value.v));
  }

  lemma CallCarriesXid(xid: U32, prog: U32, vers: U32, proc: U32, t: XdrType, args: XdrVal)
    requires HasType(t, args)
    ensures var m := CallMessage(xid, prog, vers, proc, t, args); |m| >= CALL_HEADER_SIZE && Word(m, 0) == xid
  {
    var h, m := CallHeader(xid, prog, vers, proc), CallMessage(xid, prog, vers, proc, t, args);
    StandsSplit(m, 0, Words(h), Enc(t, args));
    CallHeaderReads(xid, prog, vers, proc, m);
  }

  /** End to end: the server recovers program, version, procedure and arguments of a call, and the
      caller gets the results of exactly that procedure on exactly those arguments. */
  lemma EndToEnd(xid: U32, prog: U32, vers: U32, proc: U32, args: XdrVal, stub: Stub, buf: seq<Byte>)
    requires StubOk(stub) && HasType(stub.args, args) && CallFits(stub.args, args)
    requires ReplyFits(stub.results, stub.serve(proc, args)) && |buf| == RPCROUTER_MSGSIZE_MAX
    requires StandsAt(buf, 0, CallMessage(xid, prog, vers, proc, stub.args, args))
    ensures var m := CallMessage(xid, prog, vers, proc, stub.args, args);
      var r := ServerReply(buf, |m|, prog, vers, stub);
      r.Some? && ReplyPacket(r.value)
      && CallOutcome(m, r.value, stub.results) == Outcome(RPC_SUCCESS, Some(stub.serve(proc, args)))
  {
    var m := CallMessage(xid, prog, vers, proc, stub.args, args);
    ServerSeesCall(xid, prog, vers, proc, stub.args, args, buf);
    CallCarriesXid(xid, prog, vers, proc, stub.args, args);
    ReplyIsTaken(m, xid, stub.results, stub.serve(proc, args));
  }
}
