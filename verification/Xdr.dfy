/** The XDR stream over the two message buffers of a transport handle: every primitive and every
    composite codec writes and reads exactly what the data representation says. */
module XdrStream {
  import opened Base
  import opened XdrSpec
  import opened XdrBounds

  class Xdr {
    var xid: U32
    var x_prog: U32
    var x_vers: U32
    var x_proc: U32
    const out_msg: array<Byte>
    var out_next: nat
    const in_msg: array<Byte>
    var in_next: nat
    var in_len: int

    ghost predicate Valid()
      reads this
    {
      && out_msg.Length == RPCROUTER_MSGSIZE_MAX && in_msg.Length == RPCROUTER_MSGSIZE_MAX && out_msg != in_msg
      && out_next <= RPCROUTER_MSGSIZE_MAX && out_next % 4 == 0
      && in_len <= RPCROUTER_MSGSIZE_MAX && in_next <= RPCROUTER_MSGSIZE_MAX
    }

    /** The message built so far. */
    ghost function Sent(): seq<Byte>
      requires Valid()
      reads this, out_msg
    {
      out_msg[..out_next]
    }

    /** The message last read; nothing after a failed read. */
    ghost function Received(): seq<Byte>
      requires Valid()
      reads this, in_msg
    {
      if in_len < 0 then [] else in_msg[..in_len]
    }

    constructor (prog: U32, vers: U32)
      ensures Valid() && xid == 0 && x_prog == prog && x_vers == vers
      ensures fresh(out_msg) && fresh(in_msg)
    {
      out_msg := new Byte[RPCROUTER_MSGSIZE_MAX](_ => 0);
      in_msg := new Byte[RPCROUTER_MSGSIZE_MAX](_ => 0);
      xid, x_prog, x_vers, x_proc := 0, prog, vers, 0;
      out_next, in_next, in_len := 0, 0, 0;
    }

    // ---- Primitives ----

    method SendUint32(value: U32) returns (ok: bool)
      requires Valid()
      modifies this`out_next, out_msg
      ensures Valid() && ok == (old(out_next) + 4 <= RPCROUTER_MSGSIZE_MAX)
      ensures Sent() == if ok then old(Sent()) + Be32(value) else old(Sent())
    {
      if out_next >= RPCROUTER_MSGSIZE_MAX - 3 { return false; }
      var w, n := Be32(value), out_next;
      out_msg[n], out_msg[n + 1], out_msg[n + 2], out_msg[n + 3] := w[0], w[1], w[2], w[3];
      out_next := n + 4;
      assert out_msg[..n + 4] == old(out_msg[..n]) + [w[0], w[1], w[2], w[3]];
      return true;
    }

    method SendBytes(buf: seq<Byte>) returns (ok: bool)
      requires Valid() && |buf| < INT_LIMIT
      modifies this`out_next, out_msg
      ensures Valid() && ok == (old(out_next) + |Padded(buf)| <= RPCROUTER_MSGSIZE_MAX)
      ensures Sent() == if ok then old(Sent()) + Padded(buf) else old(Sent())
    {
      RoundUpFits(out_next, |buf|, RPCROUTER_MSGSIZE_MAX);
      if out_next + |buf| > RPCROUTER_MSGSIZE_MAX { return false; }
      ghost var start := out_next;
      var i := 0;
      while i < |buf|
        invariant 0 <= i <= |buf| && out_next == start + i
        invariant out_msg[..out_next] == old(out_msg[..start]) + buf[..i]
      {
        out_msg[out_next] := buf[i];
        out_next := out_next + 1;
        i := i + 1;
      }
      ghost var k := 0;
      while out_next % 4 != 0
        invariant out_next == start + |buf| + k <= start + |Padded(buf)|
        invariant out_msg[..out_next] == old(out_msg[..start]) + buf + Zeros(k)
        decreases start + |Padded(buf)| - out_next
      {
        PaddingLeft(start, |buf|, out_next);
        out_msg[out_next] := 0;
        out_next := out_next + 1;
        k := k + 1;
      }
      PaddingDone(start, |buf|, out_next);
      return true;
    }

    method RecvUint32() returns (ok: bool, value: U32)
      requires Valid()
      modifies this`in_next
      ensures Valid()
      ensures match DecWord(Received(), old(in_next))
              case None => !ok && in_next == old(in_next)
              case Some(w) => ok && value == w.v && in_next == w.next
    {
      value := 0;
      if in_next + 4 > in_len { return false, value; }
      value := Word(in_msg[..in_len], in_next);
      in_next := in_next + 4;
      return true, value;
    }

    /** Copy n bytes from the cursor, after the test as the code makes it. Where that test lets an
        overrun through the code copies past the message; what it then has is not modelled. */
    method RecvBytes(n: U32) returns (r: Copy)
      requires Valid() && in_len >= 0
      modifies this`in_next
      ensures Valid()
      ensures r.PastEnd? <==> Overruns(old(in_next), n, in_len)
      ensures r.Refused? ==> old(in_next) + n > in_len
      ensures r.Copied? ==> old(in_next) + n <= in_len && in_next == RoundUp4(old(in_next) + n)
                            && r.bytes == in_msg[old(in_next)..old(in_next) + n]
    {
      if ToInt(ToU32(in_next + ToInt(n))) > in_len {
        RefusalIsRight(in_next, n, in_len);
        return Refused;
      }
      if in_next + n > in_len { return PastEnd; }
      r := Copied(in_msg[in_next..in_next + n]);
      CursorFits(in_next + n);
      in_next := in_next + n;
      in_next := RoundUp4(in_next);
    }

    /** Opaque data of a given length; a length of zero reads nothing. stray says that the code goes
        astray here; otherwise the result is the format's. */
    method XdrOpaqueDecode(n: U32) returns (r: Option<XdrVal>, stray: bool)
      requires Valid() && in_len >= 0
      modifies this`in_next
      ensures Valid() && stray == StrayOpaque(Received(), old(in_next), n)
      ensures !stray ==> Reads(DecOpaque(Received(), old(in_next), n), r, in_next)
    {
      if n == 0 { return Some(Raw([])), false; }
      ghost var msg := Received();
      var c := RecvBytes(n);
      match c
      case Refused => return None, false;
      case PastEnd => return None, true;
      case Copied(bytes) =>
        assert bytes == msg[old(in_next)..old(in_next) + n];
        return Some(Raw(bytes)), false;
    }

    // ---- Encoding ----

    method Encode(t: XdrType, v: XdrVal) returns (ok: bool)
      requires Valid() && TypeOk(t) && HasType(t, v)
      modifies this`out_next, out_msg
      ensures Valid() && Sends(old(Sent()), Sent(), ok, WithinLimits(t, v), Enc(t, v))
      decreases v, 1
    {
      match t
      case WordT(k) => ok := SendUint32(ToWord(k, v.n));
      case HyperT => ok := XdrUHyper(v.n);
      case OpaqueT(n) => ok := XdrOpaque(v.bs);
      case CountedT(max, text) =>
        if text { ok := XdrString(max, v.bs); } else { ok := XdrBytes(max, v.bs); }
      case VectorT(_, e) => ok := XdrVector(e, v.vs);
      case ArrayT(max, e, _) => ok := XdrArray(max, e, v.vs);
      case PointerT(e) => ok := XdrPointer(e, v);
    }

    method XdrUHyper(n: nat) returns (ok: bool)
      requires Valid() && n < WORD32 * WORD32
      modifies this`out_next, out_msg
      ensures Valid() && Sends(old(Sent()), Sent(), ok, true, Be32(n / WORD32) + Be32(n % WORD32))
    {
      ok := SendUint32(n / WORD32);
      if ok { ok := SendUint32(n % WORD32); }
    }

    method XdrOpaque(cp: seq<Byte>) returns (ok: bool)
      requires Valid() && |cp| < INT_LIMIT
      modifies this`out_next, out_msg
      ensures Valid() && Sends(old(Sent()), Sent(), ok, true, Padded(cp))
    {
      if |cp| == 0 { return true; }
      ok := SendBytes(cp);
    }

    method XdrBytes(maxsize: nat, cp: seq<Byte>) returns (ok: bool)
      requires Valid() && |cp| < INT_LIMIT
      modifies this`out_next, out_msg
      ensures Valid() && Sends(old(Sent()), Sent(), ok, |cp| <= maxsize, Be32(|cp|) + Padded(cp))
    {
      ok := SendUint32(|cp|);
      if ok { ok := |cp| <= maxsize; }
      if ok { ok := SendBytes(cp); }
    }

    method XdrString(maxsize: nat, cp: seq<Byte>) returns (ok: bool)
      requires Valid() && |cp| < INT_LIMIT
      modifies this`out_next, out_msg
      ensures Valid() && Sends(old(Sent()), Sent(), ok, |cp| <= maxsize, Be32(|cp|) + Padded(cp))
    {
      ok := SendUint32(|cp|);
      if !ok { return; }
      if |cp| > maxsize { return false; }
      ok := XdrOpaque(cp);
    }

    method XdrVector(e: XdrType, vs: seq<XdrVal>) returns (ok: bool)
      requires Valid() && TypeOk(e) && AllHaveType(e, vs)
      modifies this`out_next, out_msg
      ensures Valid() && Sends(old(Sent()), Sent(), ok, AllWithinLimits(e, vs), EncAll(e, vs))
      decreases vs, 0
    {
      ghost var s0 := Sent();
      var i := 0;
      assert vs[0..] == vs;
      while i < |vs|
        invariant 0 <= i <= |vs| && Valid() && Partway(e, vs, i, s0, Sent())
      {
        ghost var s1 := Sent();
        NextElement(e, vs, i);
        ok := Encode(e, vs[i]);
        NextSent(e, vs, i, s0, s1, Sent(), ok);
        if !ok { return; }
        i := i + 1;
      }
      AllSent(e, vs, s0, Sent());
      ok := true;
    }

    method XdrArray(maxsize: nat, e: XdrType, vs: seq<XdrVal>) returns (ok: bool)
      requires Valid() && TypeOk(e) && AllHaveType(e, vs) && |vs| < WORD32
      modifies this`out_next, out_msg
      ensures Valid()
      ensures Sends(old(Sent()), Sent(), ok, |vs| <= maxsize && AllWithinLimits(e, vs), Be32(|vs|) + EncAll(e, vs))
      decreases vs, 1
    {
      ghost var s0 := Sent();
      ok := SendUint32(|vs|);
      if !ok { return; }
      if |vs| > maxsize { return false; }
      ghost var s1 := Sent();
      ok := XdrVector(e, vs);
      SendsThen(s0, s1, Sent(), ok, true, AllWithinLimits(e, vs), Be32(|vs|), EncAll(e, vs));
    }

    method XdrPointer(e: XdrType, v: XdrVal) returns (ok: bool)
      requires Valid() && TypeOk(e) && HasType(PointerT(e), v)
      modifies this`out_next, out_msg
      ensures Valid() && Sends(old(Sent()), Sent(), ok, WithinLimits(PointerT(e), v), Enc(PointerT(e), v))
      decreases v, 0
    {
      ghost var s0 := Sent();
      ok := SendUint32(if v.Null? then 0 else 1);
      if !ok || v.Null? { return; }
      ghost var s1 := Sent();
      ok := Encode(e, v.v);
      SendsThen(s0, s1, Sent(), ok, true, WithinLimits(e, v.v), Be32(1), Enc(e, v.v));
    }

    // ---- Decoding ----

    /** stray is exactly the malformed lengths and outsized arrays at which the code goes astray; on every
        other message it finds the value and the cursor of the format, or fails where there is none. */
    method Decode(t: XdrType) returns (r: Option<XdrVal>, stray: bool)
      requires Valid() && TypeOk(t) && in_len >= 0
      modifies this`in_next
      ensures Valid() && stray == Strays(t, Received(), old(in_next))
      ensures !stray ==> Reads(Dec(t, Received(), old(in_next)), r, in_next)
      decreases t, 1
    {
      r, stray := None, false;
      match t
      case WordT(k) =>
        var ok, w := RecvUint32();
        r := if ok then Some(Num(FromWord(k, w))) else None;
      case HyperT => r := XdrUHyperDecode();
      case OpaqueT(n) => r, stray := XdrOpaqueDecode(n);
      case CountedT(max, text) =>
        if text { r, stray := XdrStringDecode(max); } else { r, stray := XdrBytesDecode(max); }
      case VectorT(n, e) => r, stray := XdrElementsDecode(e, n, n);
      case ArrayT(max, e, elsize) => r, stray := XdrArrayDecode(max, e, elsize);
      case PointerT(e) => r, stray := XdrPointerDecode(e);
    }

    /** The memory for the elements is allocated by a 32-bit product. */
    method XdrArrayDecode(maxsize: U32, e: XdrType, elsize: U32) returns (r: Option<XdrVal>, stray: bool)
      requires Valid() && TypeOk(e) && in_len >= 0
      modifies this`in_next
      ensures Valid() && stray == Strays(ArrayT(maxsize, e, elsize), Received(), old(in_next))
      ensures !stray ==> Reads(Dec(ArrayT(maxsize, e, elsize), Received(), old(in_next)), r, in_next)
      decreases e, 4
    {
      var ok, c := RecvUint32();
      if !ok || c > maxsize { return None, false; }
      var nodesize := ToU32((c as int) * elsize);
      assert DecAll(e, 0, Received(), in_next) == Some(Parsed([], in_next));
      if c == 0 { return Some(Many([])), false; }
      r, stray := XdrElementsDecode(e, c, if elsize == 0 then c else Quotient(nodesize, elsize));
    }

    method XdrPointerDecode(e: XdrType) returns (r: Option<XdrVal>, stray: bool)
      requires Valid() && TypeOk(e) && in_len >= 0
      modifies this`in_next
      ensures Valid() && stray == Strays(PointerT(e), Received(), old(in_next))
      ensures !stray ==> Reads(Dec(PointerT(e), Received(), old(in_next)), r, in_next)
      decreases e, 3
    {
      var ok, more := RecvUint32();
      if !ok { return None, false; }
      if more == 0 { return Some(Null), false; }
      var x;
      x, stray := Decode(e);
      r := if x.Some? then Some(Ref(x.value)) else None;
    }

    method XdrBytesDecode(maxsize: U32) returns (r: Option<XdrVal>, stray: bool)
      requires Valid() && in_len >= 0
      modifies this`in_next
      ensures Valid() && stray == Strays(CountedT(maxsize, false), Received(), old(in_next))
      ensures !stray ==> Reads(Dec(CountedT(maxsize, false), Received(), old(in_next)), r, in_next)
    {
      var ok, size := RecvUint32();
      if !ok || size > maxsize { return None, false; }
      r, stray := XdrOpaqueDecode(size);
    }

    /** The size with its NUL wraps to zero for the largest count, and the code then reports success. */
    method XdrStringDecode(maxsize: U32) returns (r: Option<XdrVal>, stray: bool)
      requires Valid() && in_len >= 0
      modifies this`in_next
      ensures Valid() && stray == Strays(CountedT(maxsize, true), Received(), old(in_next))
      ensures !stray ==> Reads(Dec(CountedT(maxsize, true), Received(), old(in_next)), r, in_next)
    {
      var ok, size := RecvUint32();
      if !ok { return None, false; }
      if size > maxsize { return None, false; }
      var nodesize := ToU32(size as int + 1);
      if nodesize == 0 { return Some(Raw([])), true; }
      r, stray := XdrOpaqueDecode(size);
    }

    method XdrUHyperDecode() returns (r: Option<XdrVal>)
      requires Valid()
      modifies this`in_next
      ensures Valid() && Reads(DecHyper(Received(), old(in_next)), r, in_next)
    {
      var ok, hi := RecvUint32();
      if !ok { return None; }
      var lo;
      ok, lo := RecvUint32();
      r := if ok then Some(Num(hi * WORD32 + lo)) else None;
    }

    method XdrElementsDecode(e: XdrType, n: nat, slots: nat) returns (r: Option<XdrVal>, stray: bool)
      requires Valid() && TypeOk(e) && in_len >= 0
      modifies this`in_next
      ensures Valid() && stray == StraysAll(e, n, slots, Received(), old(in_next))
      ensures !stray ==> Reads(AsMany(DecAll(e, n, Received(), old(in_next))), r, in_next)
      decreases e, 3
    {
      var vs;
      vs, stray := XdrVectorDecode(e, n, slots);
      r := if vs.Some? then Some(Many(vs.value)) else None;
    }

    /** The element loop over memory with room for so many slots. */
    method XdrVectorDecode(e: XdrType, n: nat, slots: nat) returns (r: Option<seq<XdrVal>>, stray: bool)
      requires Valid() && TypeOk(e) && in_len >= 0
      modifies this`in_next
      ensures Valid() && stray == StraysAll(e, n, slots, Received(), old(in_next))
      ensures !stray ==> Reads(DecAll(e, n, Received(), old(in_next)), r, in_next)
      decreases e, 2
    {
      var vs: seq<XdrVal> := [];
      var i := 0;
      ghost var msg, start := Received(), in_next;
      AlongFirst(e, n, slots, msg, start);
      while i < n
        invariant 0 <= i <= n && Valid() && Received() == msg
        invariant Along(e, n, slots, msg, start, i, vs, in_next)
      {
        ghost var pos := in_next;
        if i == slots {
          AlongFull(e, n, slots, msg, start, i, vs, pos);
          return None, true;
        }
        var x;
        x, stray := Decode(e);
        AlongNext(e, n, slots, msg, start, i, vs, pos, x, stray, in_next);
        if stray { return None, true; }
        if x.None? { return None, false; }
        vs := vs + [x.value];
        i := i + 1;
      }
      AlongLast(e, n, slots, msg, start, vs, in_next);
      r, stray := Some(vs), false;
    }
  }

  /** What the bounds test and the copy behind it come to. */
  datatype Copy = Copied(bytes: seq<Byte>) | Refused | PastEnd

  lemma CursorFits(next: nat)
    requires next <= RPCROUTER_MSGSIZE_MAX
    ensures RoundUp4(next) <= RPCROUTER_MSGSIZE_MAX
  {}

  /** The first i of n elements were read into slots from start on; what is left of them stands at pos. */
  ghost predicate Along(e: XdrType, n: nat, slots: nat, bs: seq<Byte>, start: nat, i: nat, vs: seq<XdrVal>, pos: nat) {
    && i <= n && i <= slots
    && DecAll(e, n, bs, start) == Prepend(vs, DecAll(e, n - i, bs, pos))
    && StraysAll(e, n, slots, bs, start) == StraysAll(e, n - i, slots - i, bs, pos)
  }

  lemma AlongFirst(e: XdrType, n: nat, slots: nat, bs: seq<Byte>, start: nat)
    ensures Along(e, n, slots, bs, start, 0, [], start)
  {
    PrependNone(DecAll(e, n, bs, start));
  }

  /** An element is left and no slot for it. */
  lemma AlongFull(e: XdrType, n: nat, slots: nat, bs: seq<Byte>, start: nat, i: nat, vs: seq<XdrVal>, pos: nat)
    requires Along(e, n, slots, bs, start, i, vs, pos) && i == slots < n
    ensures StraysAll(e, n, slots, bs, start)
  {}

  /** The next element goes astray, or cannot be read, or is read. */
  lemma AlongNext(e: XdrType, n: nat, slots: nat, bs: seq<Byte>, start: nat, i: nat, vs: seq<XdrVal>, pos: nat,
                  x: Option<XdrVal>, stray: bool, next: nat)
    requires Along(e, n, slots, bs, start, i, vs, pos) && i < n && i < slots
    requires stray == Strays(e, bs, pos) && (!stray ==> Reads(Dec(e, bs, pos), x, next))
    ensures if stray then StraysAll(e, n, slots, bs, start)
            else if x.None? then DecAll(e, n, bs, start).None? && !StraysAll(e, n, slots, bs, start)
            else Along(e, n, slots, bs, start, i + 1, vs + [x.value], next)
  {
    if !stray {
      if x.None? {
        ElementsStop(e, n - i, slots - i, bs, pos);
      } else {
        ElementsStep(e, n - i, slots - i, bs, pos, x.value, next);
        PrependOne(vs, x.value, DecAll(e, n - i - 1, bs, next));
      }
    }
  }

  lemma AlongLast(e: XdrType, n: nat, slots: nat, bs: seq<Byte>, start: nat, vs: seq<XdrVal>, pos: nat)
    requires Along(e, n, slots, bs, start, n, vs, pos)
    ensures DecAll(e, n, bs, start) == Some(Parsed(vs, pos)) && !StraysAll(e, n, slots, bs, start)
  {
    assert vs + [] == vs;
  }

  lemma ElementsStop(e: XdrType, n: nat, slots: nat, bs: seq<Byte>, pos: nat)
    requires n > 0 && slots > 0 && !Strays(e, bs, pos) && Dec(e, bs, pos).None?
    ensures DecAll(e, n, bs, pos).None? && !StraysAll(e, n, slots, bs, pos)
  {}

  lemma ElementsStep(e: XdrType, n: nat, slots: nat, bs: seq<Byte>, pos: nat, x: XdrVal, next: nat)
    requires n > 0 && slots > 0 && !Strays(e, bs, pos) && Dec(e, bs, pos) == Some(Parsed(x, next))
    ensures DecAll(e, n, bs, pos) == Prepend([x], DecAll(e, n - 1, bs, next))
    ensures StraysAll(e, n, slots, bs, pos) == StraysAll(e, n - 1, slots - 1, bs, next)
  {}

  /** What an encoding method does: it succeeds exactly when the value is good and its encoding
      fits, and then appends it; otherwise it may leave part of it behind what was there. */
  ghost predicate Sends(before: seq<Byte>, after: seq<Byte>, ok: bool, good: bool, enc: seq<Byte>) {
    && ok == (good && |before| + |enc| <= RPCROUTER_MSGSIZE_MAX)
    && (if ok then after == before + enc else before <= after)
  }

  /** Sending b after a was sent is sending both. */
  lemma SendsThen(s0: seq<Byte>, s1: seq<Byte>, s2: seq<Byte>, ok: bool, g1: bool, g2: bool, a: seq<Byte>, b: seq<Byte>)
    requires Sends(s0, s1, true, g1, a) && Sends(s1, s2, ok, g2, b)
    ensures Sends(s0, s2, ok, g1 && g2, a + b)
  {
    if ok { assert s0 + (a + b) == s0 + a + b; }
  }

  lemma NextElement(e: XdrType, vs: seq<XdrVal>, i: nat)
    requires i < |vs| && AllHaveType(e, vs[i..])
    ensures HasType(e, vs[i]) && AllHaveType(e, vs[i + 1..])
    ensures EncAll(e, vs[i..]) == Enc(e, vs[i]) + EncAll(e, vs[i + 1..])
    ensures AllWithinLimits(e, vs[i..]) <==> WithinLimits(e, vs[i]) && AllWithinLimits(e, vs[i + 1..])
  {
    assert vs[i..][0] == vs[i] && vs[i..][1..] == vs[i + 1..];
  }

  /** s1 is s0 with the first i elements sent. */
  ghost predicate Partway(e: XdrType, vs: seq<XdrVal>, i: nat, s0: seq<Byte>, s1: seq<Byte>) {
    && i <= |vs| && AllHaveType(e, vs) && AllHaveType(e, vs[i..])
    && s0 <= s1 && s1 + EncAll(e, vs[i..]) == s0 + EncAll(e, vs)
    && (AllWithinLimits(e, vs[i..]) <==> AllWithinLimits(e, vs))
  }

  lemma NextSent(e: XdrType, vs: seq<XdrVal>, i: nat, s0: seq<Byte>, s1: seq<Byte>, s2: seq<Byte>, ok: bool)
    requires i < |vs| && Partway(e, vs, i, s0, s1) && HasType(e, vs[i])
    requires Sends(s1, s2, ok, WithinLimits(e, vs[i]), Enc(e, vs[i]))
    ensures if ok then Partway(e, vs, i + 1, s0, s2) else Sends(s0, s2, false, AllWithinLimits(e, vs), EncAll(e, vs))
  {
    NextElement(e, vs, i);
    SendsOne(s0, s1, Enc(e, vs[i]), EncAll(e, vs[i + 1..]), EncAll(e, vs));
  }

  lemma AllSent(e: XdrType, vs: seq<XdrVal>, s0: seq<Byte>, s1: seq<Byte>)
    requires Partway(e, vs, |vs|, s0, s1) && |s1| <= RPCROUTER_MSGSIZE_MAX
    ensures Sends(s0, s1, true, AllWithinLimits(e, vs), EncAll(e, vs))
  {
    assert s1 + [] == s1;
  }

  /** Of what is left to send, a is next and b comes behind it. */
  lemma SendsOne(s0: seq<Byte>, s1: seq<Byte>, a: seq<Byte>, b: seq<Byte>, all: seq<Byte>)
    requires s0 <= s1 && s1 + (a + b) == s0 + all
    ensures s0 <= s1 + a && s1 + a + b == s0 + all
    ensures |s1| + |a| <= |s0| + |all|
  {
    assert s1 + (a + b) == s1 + a + b;
    assert |s1 + (a + b)| == |s0 + all|;
  }

  ghost function Prepend(acc: seq<XdrVal>, p: Option<Parsed<seq<XdrVal>>>): Option<Parsed<seq<XdrVal>>> {
    if p.None? then None else Some(Parsed(acc + p.value.v, p.value.next))
  }

  lemma PrependNone(p: Option<Parsed<seq<XdrVal>>>)
    ensures Prepend([], p) == p
  {
    if p.Some? { assert [] + p.value.v == p.value.v; }
  }

  lemma PrependOne(acc: seq<XdrVal>, x: XdrVal, p: Option<Parsed<seq<XdrVal>>>)
    ensures Prepend(acc, Prepend([x], p)) == Prepend(acc + [x], p)
  {
    if p.Some? { assert acc + ([x] + p.value.v) == acc + [x] + p.value.v; }
  }

  /** What a decoding method returns and where it leaves the cursor. */
  ghost predicate Reads<T>(p: Option<Parsed<T>>, r: Option<T>, next: nat) {
    match p
    case None => r.None?
    case Some(q) => r == Some(q.v) && next == q.next
  }

  /** With an aligned start, data fits a buffer of whole words exactly when its padding does. */
  lemma RoundUpFits(start: nat, n: nat, max: nat)
    requires start % 4 == 0 && max % 4 == 0
    ensures start + n <= max <==> start + RoundUp4(n) <= max
  {}

  lemma PaddingLeft(start: nat, n: nat, next: nat)
    requires start % 4 == 0 && start + n <= next <= start + RoundUp4(n) && next % 4 != 0
    ensures next < start + RoundUp4(n)
  {}

  lemma PaddingDone(start: nat, n: nat, next: nat)
    requires start % 4 == 0 && start + n <= next <= start + RoundUp4(n) && next % 4 == 0
    ensures next == start + RoundUp4(n)
  {}
}
