/** Which received bytes are the encoding of the value they decode to: those that leave the code's
    liberties in reading unused. */
module XdrReencode {
  import opened Base
  import opened XdrSpec

  /** The words a scalar is sent as. Reading keeps the low 16 bits of shorts and turns every
      non-zero boolean into one. */
  predicate TidyWord(k: Kind, u: U32) {
    match k
    case IntK => true
    case UIntK => true
    case ShortK => u < 0x8000 || u >= WORD32 - 0x8000
    case UShortK => u < 0x1_0000
    case BoolK => u <= 1
  }

  lemma TidyWordIff(k: Kind, u: U32)
    ensures ToWord(k, FromWord(k, u)) == u <==> TidyWord(k, u)
  {
    if k.ShortK? {
      ShortTidyIff(u);
    } else if k.UShortK? {
      if u >= 0x1_0000 { assert u % 0x1_0000 < 0x1_0000; }
    }
  }

  lemma ShortTidyIff(u: U32)
    ensures ToWord(ShortK, FromWord(ShortK, u)) == u <==> u < 0x8000 || u >= WORD32 - 0x8000
  {
    var h, l := u / 0x1_0000, u % 0x1_0000;
    assert u == h * 0x1_0000 + l;
  }

  /** The padding behind n bytes at pos is there and zero. */
  predicate TidyPad(bs: seq<Byte>, pos: nat, n: nat) {
    RoundUp4(pos + n) <= |bs| && forall i :: pos + n <= i < RoundUp4(pos + n) ==> bs[i] == 0
  }

  predicate Tidy(t: XdrType, bs: seq<Byte>, pos: nat)
    requires Dec(t, bs, pos).Some?
    decreases t, 0, 0
  {
    match t
    case WordT(k) => TidyWord(k, Word(bs, pos))
    case HyperT => true
    case OpaqueT(n) => n == 0 || TidyPad(bs, pos, n)
    case CountedT(_, _) => Word(bs, pos) == 0 || TidyPad(bs, pos + 4, Word(bs, pos))
    case VectorT(n, e) => TidyAll(e, n, bs, pos)
    case ArrayT(_, e, _) => TidyAll(e, Word(bs, pos), bs, pos + 4)
    case PointerT(e) => Word(bs, pos) == 0 || (Word(bs, pos) == 1 && Tidy(e, bs, pos + 4))
  }

  predicate TidyAll(e: XdrType, n: nat, bs: seq<Byte>, pos: nat)
    requires DecAll(e, n, bs, pos).Some?
    decreases e, 1, n
  {
    n == 0 || (Tidy(e, bs, pos) && TidyAll(e, n - 1, bs, Dec(e, bs, pos).value.next))
  }

  // ---- Pieces that stand ----

  lemma StandsBoth(bs: seq<Byte>, pos: nat, a: seq<Byte>, b: seq<Byte>)
    ensures StandsAt(bs, pos, a + b) <==> StandsAt(bs, pos, a) && StandsAt(bs, pos + |a|, b)
  {
    if StandsAt(bs, pos, a + b) { StandsSplit(bs, pos, a, b); }
    if StandsAt(bs, pos, a) && StandsAt(bs, pos + |a|, b) { StandsJoin(bs, pos, a, b); }
  }

  lemma WordStandsIff(v: U32, bs: seq<Byte>, pos: nat)
    requires pos + 4 <= |bs|
    ensures StandsAt(bs, pos, Be32(v)) <==> v == Word(bs, pos)
  {
    if StandsAt(bs, pos, Be32(v)) { WordOfBe32(v, bs, pos); }
    WordStands(bs, pos);
  }

  /** A count or flag read at pos stands there; what stands behind it decides. */
  lemma BehindWord(bs: seq<Byte>, pos: nat, v: U32, b: seq<Byte>)
    requires pos + 4 <= |bs|
    ensures StandsAt(bs, pos, Be32(v) + b) <==> v == Word(bs, pos) && StandsAt(bs, pos + 4, b)
  {
    StandsBoth(bs, pos, Be32(v), b);
    WordStandsIff(v, bs, pos);
  }

  lemma RoundUpAligned(pos: nat, n: nat)
    requires pos % 4 == 0
    ensures RoundUp4(pos + n) == pos + RoundUp4(n)
  {}

  lemma PadStandsIff(bs: seq<Byte>, pos: nat, n: nat)
    requires pos % 4 == 0 && pos + n <= |bs|
    ensures StandsAt(bs, pos, Padded(bs[pos..pos + n])) <==> TidyPad(bs, pos, n)
  {
    var data, k := bs[pos..pos + n], RoundUp4(n) - n;
    RoundUpAligned(pos, n);
    StandsBoth(bs, pos, data, Zeros(k));
    ZerosStandIff(bs, pos + n, k);
  }

  lemma ZerosStandIff(bs: seq<Byte>, pos: nat, k: nat)
    ensures StandsAt(bs, pos, Zeros(k)) <==> pos + k <= |bs| && forall i :: pos <= i < pos + k ==> bs[i] == 0
  {
    if pos + k <= |bs| {
      var part := bs[pos..pos + k];
      if part == Zeros(k) {
        forall i | pos <= i < pos + k ensures bs[i] == 0 { assert bs[i] == part[i - pos]; }
      }
    }
  }

  lemma OpaqueReencodes(bs: seq<Byte>, pos: nat, n: nat)
    requires pos % 4 == 0 && pos <= |bs| && DecOpaque(bs, pos, n).Some?
    ensures StandsAt(bs, pos, Padded(DecOpaque(bs, pos, n).value.v.bs)) <==> n == 0 || TidyPad(bs, pos, n)
  {
    if n == 0 {
      assert Padded([]) == [];
    } else {
      PadStandsIff(bs, pos, n);
    }
  }

  lemma HyperReencodes(bs: seq<Byte>, pos: nat)
    requires pos + 8 <= |bs|
    ensures var n := Word(bs, pos) * WORD32 + Word(bs, pos + 4);
      StandsAt(bs, pos, Be32(n / WORD32) + Be32(n % WORD32))
  {
    var hi, lo := Word(bs, pos), Word(bs, pos + 4);
    assert (hi * WORD32 + lo) / WORD32 == hi && (hi * WORD32 + lo) % WORD32 == lo;
    BehindWord(bs, pos, hi, Be32(lo));
    WordStands(bs, pos + 4);
  }

  lemma CountedReencodes(bs: seq<Byte>, pos: nat)
    requires pos % 4 == 0 && pos + 4 <= |bs| && DecOpaque(bs, pos + 4, Word(bs, pos)).Some?
    ensures var n := Word(bs, pos);
      var data := DecOpaque(bs, pos + 4, n).value.v.bs;
      |data| == n && (StandsAt(bs, pos, Be32(n) + Padded(data)) <==> n == 0 || TidyPad(bs, pos + 4, n))
  {
    var n := Word(bs, pos);
    OpaqueReencodes(bs, pos + 4, n);
    BehindWord(bs, pos, n, Padded(DecOpaque(bs, pos + 4, n).value.v.bs));
  }

  lemma WordReencodes(k: Kind, bs: seq<Byte>, pos: nat)
    requires pos + 4 <= |bs|
    ensures StandsAt(bs, pos, Be32(ToWord(k, FromWord(k, Word(bs, pos))))) <==> TidyWord(k, Word(bs, pos))
  {
    TidyWordIff(k, Word(bs, pos));
    WordStandsIff(ToWord(k, FromWord(k, Word(bs, pos))), bs, pos);
  }

  lemma FlatReencodes(t: XdrType, bs: seq<Byte>, pos: nat)
    requires Flat(t) && TypeOk(t) && pos % 4 == 0 && pos <= |bs| < INT_LIMIT && Dec(t, bs, pos).Some?
    ensures Again(t, bs, pos)
  {
    FlatSound(t, bs, pos);
    if t.WordT? {
      WordReencodes(t.kind, bs, pos);
    } else if t.HyperT? {
      HyperReencodes(bs, pos);
    } else if t.OpaqueT? {
      OpaqueReencodes(bs, pos, t.n);
    } else {
      CountedReencodes(bs, pos);
    }
  }

  // ---- The theorem ----

  ghost predicate Again(t: XdrType, bs: seq<Byte>, pos: nat)
    requires Dec(t, bs, pos).Some?
  {
    var v := Dec(t, bs, pos).value.v;
    HasType(Plain(t), v) && (StandsAt(bs, pos, Enc(Plain(t), v)) <==> Tidy(t, bs, pos))
  }

  ghost predicate AllAgain(e: XdrType, n: nat, bs: seq<Byte>, pos: nat)
    requires DecAll(e, n, bs, pos).Some?
  {
    var vs := DecAll(e, n, bs, pos).value.v;
    AllHaveType(Plain(e), vs) && (StandsAt(bs, pos, EncAll(Plain(e), vs)) <==> TidyAll(e, n, bs, pos))
  }

  /** Accepted bytes are the encoding of the value they decode to exactly when their padding is there
      and zero, their booleans and pointer flags are 0 or 1, and their shorts are in range. */
  lemma {:induction false} ReencodesIffTidy(t: XdrType, bs: seq<Byte>, pos: nat)
    requires TypeOk(t) && pos % 4 == 0 && pos <= |bs| < INT_LIMIT && Dec(t, bs, pos).Some?
    ensures Again(t, bs, pos)
    decreases t, 0, 0
  {
    if Flat(t) {
      FlatReencodes(t, bs, pos);
    } else if t.VectorT? {
      AllReencodeIffTidy(t.elem, t.n, bs, pos);
      DecodeIsSound(t, bs, pos);
    } else if t.ArrayT? {
      AllReencodeIffTidy(t.elem, Word(bs, pos), bs, pos + 4);
      ArrayAgain(t, bs, pos);
    } else {
      if Word(bs, pos) != 0 { ReencodesIffTidy(t.target, bs, pos + 4); }
      PointerAgain(t.target, bs, pos);
    }
  }

  lemma ArrayAgain(t: XdrType, bs: seq<Byte>, pos: nat)
    requires t.ArrayT? && TypeOk(t) && pos % 4 == 0 && pos <= |bs| < INT_LIMIT && Dec(t, bs, pos).Some?
    requires AllAgain(t.elem, Word(bs, pos), bs, pos + 4)
    ensures Again(t, bs, pos)
  {
    DecodeIsSound(t, bs, pos);
    var vs := DecAll(t.elem, Word(bs, pos), bs, pos + 4).value.v;
    BehindWord(bs, pos, |vs|, EncAll(Plain(t.elem), vs));
    DecodeAllIsSound(t.elem, Word(bs, pos), bs, pos + 4);
  }

  lemma PointerAgain(e: XdrType, bs: seq<Byte>, pos: nat)
    requires TypeOk(e) && pos % 4 == 0 && pos <= |bs| < INT_LIMIT && Dec(PointerT(e), bs, pos).Some?
    requires Word(bs, pos) != 0 ==> Again(e, bs, pos + 4)
    ensures Again(PointerT(e), bs, pos)
  {
    if Word(bs, pos) == 0 {
      WordStandsIff(0, bs, pos);
    } else {
      BehindWord(bs, pos, 1, Enc(Plain(e), Dec(e, bs, pos + 4).value.v));
    }
  }

  lemma {:induction false} AllReencodeIffTidy(e: XdrType, n: nat, bs: seq<Byte>, pos: nat)
    requires TypeOk(e) && pos % 4 == 0 && pos <= |bs| < INT_LIMIT && DecAll(e, n, bs, pos).Some?
    ensures AllAgain(e, n, bs, pos)
    decreases e, 1, n
  {
    if n == 0 {
      assert DecAll(e, 0, bs, pos) == Some(Parsed([], pos));
    } else {
      ReencodesIffTidy(e, bs, pos);
      HeadSound(e, n, bs, pos);
      var next := Dec(e, bs, pos).value.next;
      if next <= |bs| { AllReencodeIffTidy(e, n - 1, bs, next); }
      ConsAgain(e, n, bs, pos);
    }
  }

  /** The first element ends on a word boundary, and the elements behind it have their type. */
  lemma HeadSound(e: XdrType, n: nat, bs: seq<Byte>, pos: nat)
    requires n > 0 && TypeOk(e) && pos % 4 == 0 && |bs| < INT_LIMIT && DecAll(e, n, bs, pos).Some?
    ensures Dec(e, bs, pos).Some?
    ensures var d := Dec(e, bs, pos).value;
      && Sound(e, pos, d) && d.next % 4 == 0
      && DecAll(e, n - 1, bs, d.next).Some? && AllHaveType(Plain(e), DecAll(e, n - 1, bs, d.next).value.v)
  {
    var d := Dec(e, bs, pos).value;
    DecodeIsSound(e, bs, pos);
    EncAligned(Plain(e), d.v);
    AlignedSum(pos, |Enc(Plain(e), d.v)|);
    DecodeAllIsSound(e, n - 1, bs, d.next);
  }

  lemma ConsEncodes(e: XdrType, v: XdrVal, vs: seq<XdrVal>)
    requires HasType(e, v) && AllHaveType(e, vs)
    ensures AllHaveType(e, [v] + vs) && EncAll(e, [v] + vs) == Enc(e, v) + EncAll(e, vs)
  {
    assert ([v] + vs)[0] == v && ([v] + vs)[1..] == vs;
  }

  lemma ConsAgain(e: XdrType, n: nat, bs: seq<Byte>, pos: nat)
    requires n > 0 && DecAll(e, n, bs, pos).Some? && Again(e, bs, pos)
    requires var d := Dec(e, bs, pos).value;
      && d.next == pos + |Enc(Plain(e), d.v)| && AllHaveType(Plain(e), DecAll(e, n - 1, bs, d.next).value.v)
      && (d.next <= |bs| ==> AllAgain(e, n - 1, bs, d.next))
    ensures AllAgain(e, n, bs, pos)
  {
    var d := Dec(e, bs, pos).value;
    var rest := DecAll(e, n - 1, bs, d.next).value.v;
    ConsEncodes(Plain(e), d.v, rest);
    StandsBoth(bs, pos, Enc(Plain(e), d.v), EncAll(Plain(e), rest));
  }
}
