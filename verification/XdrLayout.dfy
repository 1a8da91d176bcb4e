/** What the bytes of an encoding are, position by position: numbers most significant byte first, data
    followed by zeros, elements in order (section 4 of RFC 4506). */
module XdrLayout {
  import opened Base
  import opened Bits
  import opened XdrSpec
  import opened XdrReencode

  /** The number some bytes write down, most significant first. */
  function Number(bs: seq<Byte>): nat {
    if bs == [] then 0 else 256 * Number(bs[..|bs| - 1]) + bs[|bs| - 1]
  }

  lemma FourBytes(a: Byte, b: Byte, c: Byte, d: Byte)
    ensures Number([a, b, c, d]) == (a as int) * 0x100_0000 + (b as int) * 0x1_0000 + (c as int) * 256 + d
  {
    AppendByte([], a);
    AppendByte([a], b);
    AppendByte([a, b], c);
    AppendByte([a, b, c], d);
    assert [] + [a] == [a] && [a] + [b] == [a, b] && [a, b] + [c] == [a, b, c] && [a, b, c] + [d] == [a, b, c, d];
  }

  lemma {:induction false} NumberOfTwo(a: seq<Byte>, b: seq<Byte>)
    requires |b| == 4
    ensures Number(a + b) == Number(a) * WORD32 + Number(b)
  {
    AppendByte(a, b[0]);
    AppendByte(a + [b[0]], b[1]);
    AppendByte(a + [b[0]] + [b[1]], b[2]);
    AppendByte(a + [b[0]] + [b[1]] + [b[2]], b[3]);
    FourBytes(b[0], b[1], b[2], b[3]);
    assert a + b == a + [b[0]] + [b[1]] + [b[2]] + [b[3]] && b == [b[0], b[1], b[2], b[3]];
  }

  lemma AppendByte(a: seq<Byte>, x: Byte)
    ensures Number(a + [x]) == 256 * Number(a) + x
  {
    assert (a + [x])[..|a|] == a;
  }

  /** A word is sent and received as four bytes that write it down. */
  lemma WordIsNumber(v: U32)
    ensures |Be32(v)| == 4 && Number(Be32(v)) == v
  {
    var w := Be32(v);
    FourBytes(w[0], w[1], w[2], w[3]);
    Digits(v);
  }

  lemma ReadWordIsNumber(bs: seq<Byte>, pos: nat)
    requires pos + 4 <= |bs|
    ensures DecWord(bs, pos) == Some(Parsed(Number(bs[pos..pos + 4]), pos + 4))
  {
    FourBytes(bs[pos], bs[pos + 1], bs[pos + 2], bs[pos + 3]);
    assert bs[pos..pos + 4] == [bs[pos], bs[pos + 1], bs[pos + 2], bs[pos + 3]];
  }

  // ---- Scalars ----

  /** Every scalar is sent as its value modulo 2^32, so TRUE as 1 and FALSE as 0. */
  lemma ScalarSent(k: Kind, n: int)
    requires InKind(k, n)
    ensures Number(Enc(WordT(k), Num(n))) == n % WORD32 && |Enc(WordT(k), Num(n))| == 4
  {
    WordIsNumber(ToWord(k, n));
  }

  /** Every scalar is received as the value of its kind that agrees with the word in the bits kept; a boolean
      as whether the word is zero. */
  lemma ScalarReceived(k: Kind, u: U32)
    ensures InKind(k, FromWord(k, u))
    ensures match k
      case IntK => FromWord(k, u) % WORD32 == u
      case UIntK => FromWord(k, u) % WORD32 == u
      case ShortK => FromWord(k, u) % 0x1_0000 == u % 0x1_0000
      case UShortK => FromWord(k, u) % 0x1_0000 == u % 0x1_0000
      case BoolK => FromWord(k, u) == 0 <==> u == 0
  {
    if k.ShortK? || k.UShortK? { ShortReceived(u); }
  }

  lemma ShortReceived(u: U32)
    ensures FromWord(ShortK, u) % 0x1_0000 == u % 0x1_0000 && FromWord(UShortK, u) % 0x1_0000 == u % 0x1_0000
  {
    var l := u % 0x1_0000;
    DivModUnique(l - 0x1_0000, 0x1_0000, -1, l);
    DivModUnique(l, 0x1_0000, 0, l);
  }

  /** Optional data is a boolean, then the data if there is any. */
  lemma FlagIsBoolean(e: XdrType, v: XdrVal)
    requires HasType(e, v)
    ensures Enc(PointerT(e), Null) == Enc(WordT(BoolK), Num(0))
    ensures Enc(PointerT(e), Ref(v)) == Enc(WordT(BoolK), Num(1)) + Enc(e, v)
  {}

  lemma HyperSent(n: nat)
    requires n < WORD32 * WORD32
    ensures Number(Enc(HyperT, Num(n))) == n && |Enc(HyperT, Num(n))| == 8
  {
    NumberOfTwo(Be32(n / WORD32), Be32(n % WORD32));
    WordIsNumber(n / WORD32);
    WordIsNumber(n % WORD32);
    Divides(n, WORD32);
  }

  lemma HyperReceived(bs: seq<Byte>, pos: nat)
    requires pos + 8 <= |bs|
    ensures Dec(HyperT, bs, pos) == Some(Parsed(Num(Number(bs[pos..pos + 8])), pos + 8))
  {
    ReadWordIsNumber(bs, pos);
    ReadWordIsNumber(bs, pos + 4);
    NumberOfTwo(bs[pos..pos + 4], bs[pos + 4..pos + 8]);
    assert bs[pos..pos + 8] == bs[pos..pos + 4] + bs[pos + 4..pos + 8];
  }

  // ---- What is accepted ----

  /** A scalar is read exactly where four bytes are left. */
  lemma WordAccepted(k: Kind, bs: seq<Byte>, pos: nat)
    ensures Dec(WordT(k), bs, pos).Some? <==> pos + 4 <= |bs|
    ensures pos + 4 <= |bs| ==>
              Dec(WordT(k), bs, pos) == Some(Parsed(Num(FromWord(k, Number(bs[pos..pos + 4]) % WORD32)), pos + 4))
  {
    if pos + 4 <= |bs| { ReadWordIsNumber(bs, pos); }
  }

  /** Opaque data is read exactly where so many bytes are left, with or without padding behind them. */
  lemma OpaqueAccepted(n: nat, bs: seq<Byte>, pos: nat)
    requires pos % 4 == 0 && pos <= |bs|
    ensures Dec(OpaqueT(n), bs, pos).Some? <==> pos + n <= |bs|
    ensures pos + n <= |bs| ==> Dec(OpaqueT(n), bs, pos) == Some(Parsed(Raw(bs[pos..pos + n]), pos + (n + 3) / 4 * 4))
  {
    if n == 0 { assert bs[pos..pos] == []; }
    RoundUpAligned(pos, n);
  }

  /** Counted data and strings are read exactly where the length is there, within the limit, and so many bytes
      are left behind it. */
  lemma CountedAccepted(max: nat, text: bool, bs: seq<Byte>, pos: nat)
    requires pos % 4 == 0
    ensures pos + 4 > |bs| ==> Dec(CountedT(max, text), bs, pos) == None
    ensures pos + 4 <= |bs| ==>
              var n := Number(bs[pos..pos + 4]);
              Dec(CountedT(max, text), bs, pos)
              == if n <= max && pos + 4 + n <= |bs| then
                   Some(Parsed(Raw(bs[pos + 4..pos + 4 + n]), pos + 4 + (n + 3) / 4 * 4))
                 else None
  {
    if pos + 4 <= |bs| {
      ReadWordIsNumber(bs, pos);
      OpaqueAccepted(Number(bs[pos..pos + 4]), bs, pos + 4);
    }
  }

  /** Optional data is absent for the flag 0 and present for every other. */
  lemma OptionalAccepted(e: XdrType, bs: seq<Byte>, pos: nat)
    ensures pos + 4 > |bs| ==> Dec(PointerT(e), bs, pos) == None
    ensures pos + 4 <= |bs| ==>
              Dec(PointerT(e), bs, pos)
              == if Number(bs[pos..pos + 4]) == 0 then Some(Parsed(Null, pos + 4))
                 else match Dec(e, bs, pos + 4)
                   case None => None
                   case Some(p) => Some(Parsed(Ref(p.v), p.next))
  {
    if pos + 4 <= |bs| { ReadWordIsNumber(bs, pos); }
  }

  /** Arrays are read exactly where the length is there, within the limit, and so many elements behind it. */
  lemma ArrayAccepted(max: nat, e: XdrType, elsize: U32, bs: seq<Byte>, pos: nat)
    ensures pos + 4 > |bs| ==> Dec(ArrayT(max, e, elsize), bs, pos) == None
    ensures pos + 4 <= |bs| ==>
              var n := Number(bs[pos..pos + 4]);
              Dec(ArrayT(max, e, elsize), bs, pos) == if n <= max then Dec(VectorT(n, e), bs, pos + 4) else None
  {
    if pos + 4 <= |bs| { ReadWordIsNumber(bs, pos); }
  }

  /** One element after the other. */
  lemma ElementsAccepted(e: XdrType, n: nat, bs: seq<Byte>, pos: nat)
    ensures Dec(VectorT(0, e), bs, pos) == Some(Parsed(Many([]), pos))
    ensures Dec(VectorT(n + 1, e), bs, pos)
         == match Dec(e, bs, pos)
            case None => None
            case Some(p) =>
              match Dec(VectorT(n, e), bs, p.next)
              case None => None
              case Some(q) => Some(Parsed(Many([p.v] + q.v.vs), q.next))
  {}

  // ---- Data and elements ----

  /** part is the data, then as few zeros as fill the last word. */
  predicate DataThenZeros(part: seq<Byte>, data: seq<Byte>) {
    && |part| % 4 == 0 && |data| <= |part| < |data| + 4
    && part[..|data|] == data && forall i :: |data| <= i < |part| ==> part[i] == 0
  }

  lemma OpaqueLayout(data: seq<Byte>)
    ensures DataThenZeros(Enc(OpaqueT(|data|), Raw(data)), data)
  {}

  /** Counted data and strings are their length, then the data. */
  lemma CountedLayout(max: nat, text: bool, data: seq<Byte>)
    requires HasType(CountedT(max, text), Raw(data))
    ensures var part := Enc(CountedT(max, text), Raw(data));
      |part| >= 4 && Number(part[..4]) == |data| && DataThenZeros(part[4..], data)
  {
    WordIsNumber(|data|);
    var part := Enc(CountedT(max, text), Raw(data));
    assert part[..4] == Be32(|data|) && part[4..] == Padded(data);
  }

  /** Arrays are their length, then their elements. */
  lemma ArrayLayout(max: nat, e: XdrType, elsize: U32, vs: seq<XdrVal>)
    requires |vs| < WORD32 && AllHaveType(e, vs)
    ensures var part := Enc(ArrayT(max, e, elsize), Many(vs));
      |part| >= 4 && Number(part[..4]) == |vs| && part[4..] == EncAll(e, vs)
  {
    WordIsNumber(|vs|);
    var part := Enc(ArrayT(max, e, elsize), Many(vs));
    assert part[..4] == Be32(|vs|) && part[4..] == EncAll(e, vs);
  }

  /** Elements stand one behind the other, in order. */
  lemma {:induction false} ElementsInOrder(e: XdrType, a: seq<XdrVal>, v: XdrVal, b: seq<XdrVal>)
    requires AllHaveType(e, a) && HasType(e, v) && AllHaveType(e, b)
    ensures AllHaveType(e, a + [v] + b) && EncAll(e, a + [v] + b) == EncAll(e, a) + Enc(e, v) + EncAll(e, b)
  {
    if a == [] {
      ConsEncodes(e, v, b);
      assert [] + [v] + b == [v] + b;
    } else {
      ElementsInOrder(e, a[1..], v, b);
      InOrderWith(e, a[0], a[1..], v, b);
      Regrouped(a, v, b);
    }
  }

  lemma Regrouped(a: seq<XdrVal>, v: XdrVal, b: seq<XdrVal>)
    requires a != []
    ensures a == [a[0]] + a[1..] && a + [v] + b == [a[0]] + (a[1..] + [v] + b)
  {}

  lemma InOrderWith(e: XdrType, x: XdrVal, a: seq<XdrVal>, v: XdrVal, b: seq<XdrVal>)
    requires HasType(e, x) && AllHaveType(e, a) && HasType(e, v) && AllHaveType(e, b)
    requires AllHaveType(e, a + [v] + b) && EncAll(e, a + [v] + b) == EncAll(e, a) + Enc(e, v) + EncAll(e, b)
    ensures AllHaveType(e, [x] + (a + [v] + b)) && AllHaveType(e, [x] + a)
    ensures EncAll(e, [x] + (a + [v] + b)) == EncAll(e, [x] + a) + Enc(e, v) + EncAll(e, b)
  {
    ConsEncodes(e, x, a + [v] + b);
    ConsEncodes(e, x, a);
    Gathered(Enc(e, x), EncAll(e, a), Enc(e, v), EncAll(e, b));
  }

  lemma Gathered(a: seq<Byte>, b: seq<Byte>, c: seq<Byte>, d: seq<Byte>)
    ensures a + (b + c + d) == a + b + c + d
  {}
}
