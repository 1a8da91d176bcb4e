/** External data representation of the values librpc can carry (RFC 4506): what each value is as
    bytes, and what each byte sequence is as a value. */
module XdrSpec {
  import opened Base

  const RPCROUTER_MSGSIZE_MAX: nat := 18432

  // ---- Words ----

  /** Four bytes, most significant first. */
  function Be32(v: nat): (bs: seq<Byte>)
    requires v < WORD32
    ensures |bs| == 4
  {
    [v / 0x100_0000, v / 0x1_0000 % 256, v / 256 % 256, v % 256]
  }

  function Word(bs: seq<Byte>, pos: nat): (v: nat)
    requires pos + 4 <= |bs|
    ensures v < WORD32
  {
    (bs[pos] as int) * 0x100_0000 + (bs[pos + 1] as int) * 0x1_0000 + (bs[pos + 2] as int) * 256 + bs[pos + 3] as int
  }

  function RoundUp4(n: nat): (r: nat)
    ensures r % 4 == 0 && n <= r < n + 4
  {
    (n + 3) / 4 * 4
  }

  function Zeros(n: nat): seq<Byte> {
    seq(n, _ => 0)
  }

  /** Bytes followed by zeros up to a multiple of four. */
  function Padded(bs: seq<Byte>): (r: seq<Byte>)
    ensures |r| == RoundUp4(|bs|)
  {
    bs + Zeros(RoundUp4(|bs|) - |bs|)
  }

  /** part stands in bs at position pos. */
  ghost predicate StandsAt(bs: seq<Byte>, pos: nat, part: seq<Byte>) {
    pos + |part| <= |bs| && bs[pos..pos + |part|] == part
  }

  lemma StandsSplit(bs: seq<Byte>, pos: nat, a: seq<Byte>, b: seq<Byte>)
    requires StandsAt(bs, pos, a + b)
    ensures StandsAt(bs, pos, a) && StandsAt(bs, pos + |a|, b)
  {
    var part := bs[pos..pos + |a + b|];
    assert bs[pos..pos + |a|] == part[..|a|] == a;
    assert bs[pos + |a|..pos + |a| + |b|] == part[|a|..] == b;
  }

  lemma StandsJoin(bs: seq<Byte>, pos: nat, a: seq<Byte>, b: seq<Byte>)
    requires StandsAt(bs, pos, a) && StandsAt(bs, pos + |a|, b)
    ensures StandsAt(bs, pos, a + b)
  {
    assert bs[pos..pos + |a + b|] == bs[pos..pos + |a|] + bs[pos + |a|..pos + |a| + |b|];
  }

  lemma AlignedSum(a: nat, b: nat)
    requires a % 4 == 0 && b % 4 == 0
    ensures (a + b) % 4 == 0
  {}

  // ---- Types and values ----

  /** Scalars that travel as one word. */
  datatype Kind = IntK | UIntK | ShortK | UShortK | BoolK

  datatype XdrType =
    | WordT(kind: Kind)
    | HyperT
    | OpaqueT(n: nat)                    // fixed-length opaque data
    | CountedT(max: nat, text: bool)     // counted opaque data, or a string
    | VectorT(n: nat, elem: XdrType)     // fixed-length array
    | ArrayT(max: nat, elem: XdrType, elsize: U32)   // counted array of elements of so many bytes in memory
    | PointerT(target: XdrType)          // optional data

  datatype XdrVal =
    | Num(n: int)
    | Raw(bs: seq<Byte>)
    | Many(vs: seq<XdrVal>)
    | Null
    | Ref(v: XdrVal)

  predicate InKind(k: Kind, n: int) {
    match k
    case IntK => -(INT_LIMIT as int) <= n < INT_LIMIT
    case UIntK => 0 <= n < WORD32
    case ShortK => -0x8000 <= n < 0x8000
    case UShortK => 0 <= n < 0x1_0000
    case BoolK => n == 0 || n == 1
  }

  /** The word a scalar is sent as: negative numbers in two's complement. */
  function ToWord(k: Kind, n: int): (u: nat)
    requires InKind(k, n)
    ensures u < WORD32
  {
    if n < 0 then n + WORD32 else n
  }

  /** What a received word is stored as: shorts keep the low 16 bits, booleans whether any bit is set. */
  function FromWord(k: Kind, u: nat): (n: int)
    requires u < WORD32
    ensures InKind(k, n)
  {
    match k
    case IntK => ToInt(u)
    case UIntK => u
    case ShortK => if u % 0x1_0000 >= 0x8000 then u % 0x1_0000 - 0x1_0000 else u % 0x1_0000
    case UShortK => u % 0x1_0000
    case BoolK => if u == 0 then 0 else 1
  }

  lemma WordInverts(k: Kind, n: int)
    requires InKind(k, n)
    ensures FromWord(k, ToWord(k, n)) == n
  {}

  /** Types as the code can name them: limits are words, fixed lengths fit a signed integer. */
  predicate TypeOk(t: XdrType) {
    match t
    case OpaqueT(n) => n < INT_LIMIT
    case CountedT(max, _) => max < WORD32
    case VectorT(n, e) => n < INT_LIMIT && TypeOk(e)
    case ArrayT(max, e, _) => max < WORD32 && TypeOk(e)
    case PointerT(e) => TypeOk(e)
    case _ => true
  }

  /** The C values a type describes. Strings carry no NUL; lengths may still exceed the limit of the
      type. */
  predicate HasType(t: XdrType, v: XdrVal)
    decreases v, 1
  {
    match t
    case WordT(k) => v.Num? && InKind(k, v.n)
    case HyperT => v.Num? && 0 <= v.n < WORD32 * WORD32
    case OpaqueT(n) => v.Raw? && |v.bs| == n
    case CountedT(_, text) => v.Raw? && |v.bs| < INT_LIMIT && (text ==> 0 !in v.bs)
    case VectorT(n, e) => v.Many? && |v.vs| == n && AllHaveType(e, v.vs)
    case ArrayT(_, e, _) => v.Many? && |v.vs| < WORD32 && AllHaveType(e, v.vs)
    case PointerT(e) => v.Null? || (v.Ref? && HasType(e, v.v))
  }

  predicate AllHaveType(e: XdrType, vs: seq<XdrVal>)
    decreases vs, 0
  {
    vs == [] || (HasType(e, vs[0]) && AllHaveType(e, vs[1..]))
  }

  /** Counted data within the limits of the type. */
  predicate WithinLimits(t: XdrType, v: XdrVal)
    requires HasType(t, v)
    decreases v, 1
  {
    match t
    case CountedT(max, _) => |v.bs| <= max
    case VectorT(_, e) => AllWithinLimits(e, v.vs)
    case ArrayT(max, e, _) => |v.vs| <= max && AllWithinLimits(e, v.vs)
    case PointerT(e) => v.Ref? ==> WithinLimits(e, v.v)
    case _ => true
  }

  predicate AllWithinLimits(e: XdrType, vs: seq<XdrVal>)
    requires AllHaveType(e, vs)
    decreases vs, 0
  {
    vs == [] || (WithinLimits(e, vs[0]) && AllWithinLimits(e, vs[1..]))
  }

  // ---- Encoding ----

  function Enc(t: XdrType, v: XdrVal): seq<Byte>
    requires HasType(t, v)
    decreases v, 1
  {
    match t
    case WordT(k) => Be32(ToWord(k, v.n))
    case HyperT => Be32(v.n / WORD32) + Be32(v.n % WORD32)
    case OpaqueT(_) => Padded(v.bs)
    case CountedT(_, _) => Be32(|v.bs|) + Padded(v.bs)
    case VectorT(_, e) => EncAll(e, v.vs)
    case ArrayT(_, e, _) => Be32(|v.vs|) + EncAll(e, v.vs)
    case PointerT(e) => if v.Null? then Be32(0) else Be32(1) + Enc(e, v.v)
  }

  function EncAll(e: XdrType, vs: seq<XdrVal>): seq<Byte>
    requires AllHaveType(e, vs)
    decreases vs, 0
  {
    if vs == [] then [] else Enc(e, vs[0]) + EncAll(e, vs[1..])
  }

  // ---- Decoding ----

  /** A value and the cursor behind it. */
  datatype Parsed<+T> = Parsed(v: T, next: nat)

  function DecWord(bs: seq<Byte>, pos: nat): Option<Parsed<nat>> {
    if pos + 4 > |bs| then None else Some(Parsed(Word(bs, pos), pos + 4))
  }

  function DecHyper(bs: seq<Byte>, pos: nat): Option<Parsed<XdrVal>> {
    if pos + 8 > |bs| then None else Some(Parsed(Num(Word(bs, pos) * WORD32 + Word(bs, pos + 4)), pos + 8))
  }

  /** Fixed-length data; the cursor does not move when there is none. */
  function DecOpaque(bs: seq<Byte>, pos: nat, n: nat): Option<Parsed<XdrVal>> {
    if n == 0 then Some(Parsed(Raw([]), pos))
    else if pos + n > |bs| then None
    else Some(Parsed(Raw(bs[pos..pos + n]), RoundUp4(pos + n)))
  }

  function Dec(t: XdrType, bs: seq<Byte>, pos: nat): (r: Option<Parsed<XdrVal>>)
    decreases t, 0, 0
  {
    match t
    case WordT(k) =>
      (match DecWord(bs, pos) case None => None case Some(w) => Some(Parsed(Num(FromWord(k, w.v)), w.next)))
    case HyperT => DecHyper(bs, pos)
    case OpaqueT(n) => DecOpaque(bs, pos, n)
    case CountedT(max, _) =>
      (match DecWord(bs, pos)
       case None => None
       case Some(w) => if w.v > max then None else DecOpaque(bs, w.next, w.v))
    case VectorT(n, e) => AsMany(DecAll(e, n, bs, pos))
    case ArrayT(max, e, _) =>
      (match DecWord(bs, pos)
       case None => None
       case Some(w) => if w.v > max then None else AsMany(DecAll(e, w.v, bs, w.next)))
    case PointerT(e) =>
      (match DecWord(bs, pos)
       case None => None
       case Some(w) => if w.v == 0 then Some(Parsed(Null, w.next)) else AsRef(Dec(e, bs, w.next)))
  }

  function AsMany(p: Option<Parsed<seq<XdrVal>>>): Option<Parsed<XdrVal>> {
    if p.None? then None else Some(Parsed(Many(p.value.v), p.value.next))
  }

  function AsRef(p: Option<Parsed<XdrVal>>): Option<Parsed<XdrVal>> {
    if p.None? then None else Some(Parsed(Ref(p.value.v), p.value.next))
  }

  function DecAll(e: XdrType, n: nat, bs: seq<Byte>, pos: nat): (r: Option<Parsed<seq<XdrVal>>>)
    decreases e, 1, n
  {
    if n == 0 then Some(Parsed([], pos))
    else match Dec(e, bs, pos)
      case None => None
      case Some(p) =>
        match DecAll(e, n - 1, bs, p.next)
        case None => None
        case Some(q) => Some(Parsed([p.v] + q.v, q.next))
  }

  // ---- Decoding inverts encoding ----

  lemma WordOfBe32(v: nat, bs: seq<Byte>, pos: nat)
    requires v < WORD32 && StandsAt(bs, pos, Be32(v))
    ensures DecWord(bs, pos) == Some(Parsed(v, pos + 4))
  {
    var part := bs[pos..pos + 4];
    assert bs[pos] == part[0] && bs[pos + 1] == part[1] && bs[pos + 2] == part[2] && bs[pos + 3] == part[3];
    Digits(v);
  }

  lemma Digits(v: nat)
    requires v < WORD32
    ensures v / 0x100_0000 * 0x100_0000 + v / 0x1_0000 % 256 * 0x1_0000 + v / 256 % 256 * 256 + v % 256 == v
  {
    var q2 := v / 256;
    var q1 := q2 / 256;
    var c := q2 % 256;
    DivBy16Bits(q1, c * 256 + v % 256);
    DivBy24Bits(q1 / 256, q1 % 256 * 0x1_0000 + c * 256 + v % 256);
  }

  lemma DivBy8Bits(q: nat, r: nat)
    requires r < 256
    ensures (q * 256 + r) / 256 == q && (q * 256 + r) % 256 == r
  {}

  lemma DivBy16Bits(q: nat, r: nat)
    requires r < 0x1_0000
    ensures (q * 0x1_0000 + r) / 0x1_0000 == q
  {}

  lemma DivBy24Bits(q: nat, r: nat)
    requires r < 0x100_0000
    ensures (q * 0x100_0000 + r) / 0x100_0000 == q
  {}

  /** A word stands where it is read. */
  lemma WordStands(bs: seq<Byte>, pos: nat)
    requires pos + 4 <= |bs|
    ensures StandsAt(bs, pos, Be32(Word(bs, pos)))
  {
    Bytes4(bs[pos] as int, bs[pos + 1] as int, bs[pos + 2] as int, bs[pos + 3] as int);
  }

  lemma Bytes4(a: nat, b: nat, c: nat, d: nat)
    requires a < 256 && b < 256 && c < 256 && d < 256
    ensures var v := a * 0x100_0000 + b * 0x1_0000 + c * 256 + d;
      v / 0x100_0000 == a && v / 0x1_0000 % 256 == b && v / 256 % 256 == c && v % 256 == d
  {
    DivBy24Bits(a, b * 0x1_0000 + c * 256 + d);
    DivBy16Bits(a * 256 + b, c * 256 + d);
    DivBy8Bits(a, b);
    DivBy8Bits((a * 256 + b) * 256 + c, d);
    DivBy8Bits(a * 256 + b, c);
  }

  lemma OpaqueInverts(data: seq<Byte>, bs: seq<Byte>, pos: nat)
    requires pos % 4 == 0 && StandsAt(bs, pos, Padded(data))
    ensures DecOpaque(bs, pos, |data|) == Some(Parsed(Raw(data), pos + |Padded(data)|))
  {
    StandsSplit(bs, pos, data, Zeros(RoundUp4(|data|) - |data|));
  }

  lemma HyperInverts(n: nat, bs: seq<Byte>, pos: nat)
    requires n < WORD32 * WORD32 && StandsAt(bs, pos, Be32(n / WORD32) + Be32(n % WORD32))
    ensures DecHyper(bs, pos) == Some(Parsed(Num(n), pos + 8))
  {
    StandsSplit(bs, pos, Be32(n / WORD32), Be32(n % WORD32));
    WordOfBe32(n / WORD32, bs, pos);
    WordOfBe32(n % WORD32, bs, pos + 4);
  }

  /** Encodings fill whole words. */
  lemma {:induction false} EncAligned(t: XdrType, v: XdrVal)
    requires HasType(t, v)
    ensures |Enc(t, v)| % 4 == 0
    decreases v, 1
  {
    if t.ArrayT? {
      ArrayAligned(t, v);
    } else if t.VectorT? {
      EncAllAligned(t.elem, v.vs);
    } else if t.PointerT? {
      PointerAligned(t, v);
    } else {
      FlatAligned(t, v);
    }
  }

  lemma FlatAligned(t: XdrType, v: XdrVal)
    requires Flat(t) && HasType(t, v)
    ensures |Enc(t, v)| % 4 == 0
  {}

  lemma {:induction false} PointerAligned(t: XdrType, v: XdrVal)
    requires t.PointerT? && HasType(t, v)
    ensures |Enc(t, v)| % 4 == 0
    decreases v, 0
  {
    if v.Ref? {
      EncAligned(t.target, v.v);
      AlignedSum(4, |Enc(t.target, v.v)|);
    }
  }

  lemma {:induction false} ArrayAligned(t: XdrType, v: XdrVal)
    requires t.ArrayT? && HasType(t, v)
    ensures |Enc(t, v)| % 4 == 0
    decreases v, 0
  {
    EncAllAligned(t.elem, v.vs);
    AlignedSum(4, |EncAll(t.elem, v.vs)|);
  }

  lemma {:induction false} EncAllAligned(e: XdrType, vs: seq<XdrVal>)
    requires AllHaveType(e, vs)
    ensures |EncAll(e, vs)| % 4 == 0
    decreases vs, 0
  {
    if vs != [] {
      EncAligned(e, vs[0]);
      EncAllAligned(e, vs[1..]);
      AlignedSum(|Enc(e, vs[0])|, |EncAll(e, vs[1..])|);
    }
  }

  /** Types without component types. */
  predicate Flat(t: XdrType) {
    t.WordT? || t.HyperT? || t.OpaqueT? || t.CountedT?
  }

  lemma FlatInverts(t: XdrType, v: XdrVal, bs: seq<Byte>, pos: nat)
    requires Flat(t) && HasType(t, v) && WithinLimits(t, v)
    requires pos % 4 == 0 && StandsAt(bs, pos, Enc(t, v))
    ensures Dec(t, bs, pos) == Some(Parsed(v, pos + |Enc(t, v)|))
  {
    match t
    case WordT(k) =>
      WordInverts(k, v.n);
      WordOfBe32(ToWord(k, v.n), bs, pos);
    case HyperT => HyperInverts(v.n, bs, pos);
    case OpaqueT(_) => OpaqueInverts(v.bs, bs, pos);
    case CountedT(max, text) => CountedInverts(max, text, v.bs, bs, pos);
  }

  lemma CountedInverts(max: nat, text: bool, data: seq<Byte>, bs: seq<Byte>, pos: nat)
    requires |data| < INT_LIMIT && |data| <= max && pos % 4 == 0 && StandsAt(bs, pos, Be32(|data|) + Padded(data))
    ensures Dec(CountedT(max, text), bs, pos) == Some(Parsed(Raw(data), pos + 4 + |Padded(data)|))
  {
    StandsSplit(bs, pos, Be32(|data|), Padded(data));
    WordOfBe32(|data|, bs, pos);
    OpaqueInverts(data, bs, pos + 4);
  }

  /** The encoding of a counted array is its count, then its elements. */
  lemma ArrayParts(t: XdrType, v: XdrVal, bs: seq<Byte>, pos: nat)
    requires t.ArrayT? && HasType(t, v) && StandsAt(bs, pos, Enc(t, v))
    ensures DecWord(bs, pos) == Some(Parsed(|v.vs|, pos + 4)) && StandsAt(bs, pos + 4, EncAll(t.elem, v.vs))
    ensures |Enc(t, v)| == 4 + |EncAll(t.elem, v.vs)|
  {
    StandsSplit(bs, pos, Be32(|v.vs|), EncAll(t.elem, v.vs));
    WordOfBe32(|v.vs|, bs, pos);
  }

  lemma ArrayInverts(t: XdrType, v: XdrVal, bs: seq<Byte>, pos: nat)
    requires t.ArrayT? && v.Many? && |v.vs| <= t.max && DecWord(bs, pos) == Some(Parsed(|v.vs|, pos + 4))
    requires DecAll(t.elem, |v.vs|, bs, pos + 4).Some? && DecAll(t.elem, |v.vs|, bs, pos + 4).value.v == v.vs
    ensures Dec(t, bs, pos) == Some(Parsed(v, DecAll(t.elem, |v.vs|, bs, pos + 4).value.next))
  {}

  /** The encoding of optional data is its flag, then the data. */
  lemma PointerParts(t: XdrType, v: XdrVal, bs: seq<Byte>, pos: nat)
    requires t.PointerT? && HasType(t, v) && StandsAt(bs, pos, Enc(t, v))
    ensures DecWord(bs, pos) == Some(Parsed(if v.Null? then 0 else 1, pos + 4))
    ensures v.Ref? ==> StandsAt(bs, pos + 4, Enc(t.target, v.v)) && |Enc(t, v)| == 4 + |Enc(t.target, v.v)|
  {
    if v.Ref? {
      StandsSplit(bs, pos, Be32(1), Enc(t.target, v.v));
      WordOfBe32(1, bs, pos);
    } else {
      WordOfBe32(0, bs, pos);
    }
  }

  lemma PointerInverts(t: XdrType, v: XdrVal, bs: seq<Byte>, pos: nat)
    requires t.PointerT? && v.Ref? && DecWord(bs, pos) == Some(Parsed(1, pos + 4))
    requires Dec(t.target, bs, pos + 4).Some? && Dec(t.target, bs, pos + 4).value.v == v.v
    ensures Dec(t, bs, pos) == Some(Parsed(v, Dec(t.target, bs, pos + 4).value.next))
  {}

  /** Decoding what was encoded gives the same value and the cursor behind it, whatever stands
      before and after. */
  lemma {:induction false} DecodeInvertsEncode(t: XdrType, v: XdrVal, bs: seq<Byte>, pos: nat)
    requires TypeOk(t) && HasType(t, v) && WithinLimits(t, v)
    requires pos % 4 == 0 && StandsAt(bs, pos, Enc(t, v))
    ensures Dec(t, bs, pos) == Some(Parsed(v, pos + |Enc(t, v)|))
    decreases v, 1
  {
    if Flat(t) {
      FlatInverts(t, v, bs, pos);
    } else if t.VectorT? {
      DecodeAllInverts(t.elem, v.vs, bs, pos);
    } else if t.ArrayT? {
      DecodeInvertsArray(t, v, bs, pos);
    } else {
      DecodeInvertsPointer(t, v, bs, pos);
    }
  }

  lemma {:induction false} DecodeInvertsArray(t: XdrType, v: XdrVal, bs: seq<Byte>, pos: nat)
    requires t.ArrayT? && TypeOk(t) && HasType(t, v) && WithinLimits(t, v)
    requires pos % 4 == 0 && StandsAt(bs, pos, Enc(t, v))
    ensures Dec(t, bs, pos) == Some(Parsed(v, pos + |Enc(t, v)|))
    decreases v, 0
  {
    ArrayParts(t, v, bs, pos);
    DecodeAllInverts(t.elem, v.vs, bs, pos + 4);
    ArrayInverts(t, v, bs, pos);
  }

  lemma {:induction false} DecodeInvertsPointer(t: XdrType, v: XdrVal, bs: seq<Byte>, pos: nat)
    requires t.PointerT? && TypeOk(t) && HasType(t, v) && WithinLimits(t, v)
    requires pos % 4 == 0 && StandsAt(bs, pos, Enc(t, v))
    ensures Dec(t, bs, pos) == Some(Parsed(v, pos + |Enc(t, v)|))
    decreases v, 0
  {
    PointerParts(t, v, bs, pos);
    if v.Ref? {
      DecodeInvertsEncode(t.target, v.v, bs, pos + 4);
      PointerInverts(t, v, bs, pos);
    }
  }

  ghost predicate Gives<T>(r: Option<Parsed<T>>, v: T, next: nat) {
    r == Some(Parsed(v, next))
  }

  lemma ConsInverts(e: XdrType, vs: seq<XdrVal>, bs: seq<Byte>, pos: nat, mid: nat, next: nat)
    requires vs != [] && Gives(Dec(e, bs, pos), vs[0], mid) && Gives(DecAll(e, |vs[1..]|, bs, mid), vs[1..], next)
    ensures Gives(DecAll(e, |vs|, bs, pos), vs, next)
  {
    assert vs == [vs[0]] + vs[1..];
  }

  /** The encoding of a non-empty sequence is that of its first element, then that of the rest. */
  lemma HeadStands(e: XdrType, vs: seq<XdrVal>, bs: seq<Byte>, pos: nat)
    requires vs != [] && AllHaveType(e, vs) && AllWithinLimits(e, vs)
    requires pos % 4 == 0 && StandsAt(bs, pos, EncAll(e, vs))
    ensures HasType(e, vs[0]) && AllHaveType(e, vs[1..]) && WithinLimits(e, vs[0]) && AllWithinLimits(e, vs[1..])
    ensures var a, b := Enc(e, vs[0]), EncAll(e, vs[1..]);
      |EncAll(e, vs)| == |a| + |b| && (pos + |a|) % 4 == 0 && StandsAt(bs, pos, a) && StandsAt(bs, pos + |a|, b)
  {
    StandsSplit(bs, pos, Enc(e, vs[0]), EncAll(e, vs[1..]));
    EncAligned(e, vs[0]);
    AlignedSum(pos, |Enc(e, vs[0])|);
  }

  lemma {:induction false} DecodeAllInverts(e: XdrType, vs: seq<XdrVal>, bs: seq<Byte>, pos: nat)
    requires TypeOk(e) && AllHaveType(e, vs) && AllWithinLimits(e, vs)
    requires pos % 4 == 0 && StandsAt(bs, pos, EncAll(e, vs))
    ensures DecAll(e, |vs|, bs, pos) == Some(Parsed(vs, pos + |EncAll(e, vs)|))
    decreases vs, 2
  {
    if vs == [] {
      assert EncAll(e, vs) == [] && DecAll(e, 0, bs, pos) == Some(Parsed([], pos));
    } else {
      DecodeConsInverts(e, vs, bs, pos);
    }
  }

  lemma {:induction false} DecodeConsInverts(e: XdrType, vs: seq<XdrVal>, bs: seq<Byte>, pos: nat)
    requires vs != [] && TypeOk(e) && AllHaveType(e, vs) && AllWithinLimits(e, vs)
    requires pos % 4 == 0 && StandsAt(bs, pos, EncAll(e, vs))
    ensures Gives(DecAll(e, |vs|, bs, pos), vs, pos + |EncAll(e, vs)|)
    decreases vs, 1
  {
    HeadStands(e, vs, bs, pos);
    HeadInverts(e, vs, bs, pos);
    TailInverts(e, vs, bs, pos);
    ConsInverts(e, vs, bs, pos, pos + |Enc(e, vs[0])|, pos + |EncAll(e, vs)|);
  }

  lemma {:induction false} HeadInverts(e: XdrType, vs: seq<XdrVal>, bs: seq<Byte>, pos: nat)
    requires vs != [] && TypeOk(e) && HasType(e, vs[0]) && WithinLimits(e, vs[0])
    requires pos % 4 == 0 && StandsAt(bs, pos, Enc(e, vs[0]))
    ensures Gives(Dec(e, bs, pos), vs[0], pos + |Enc(e, vs[0])|)
    decreases vs, 0
  {
    DecodeInvertsEncode(e, vs[0], bs, pos);
  }

  lemma {:induction false} TailInverts(e: XdrType, vs: seq<XdrVal>, bs: seq<Byte>, pos: nat)
    requires vs != [] && TypeOk(e) && AllHaveType(e, vs) && AllWithinLimits(e, vs)
    requires pos % 4 == 0 && StandsAt(bs, pos, EncAll(e, vs))
    ensures Gives(DecAll(e, |vs[1..]|, bs, pos + |Enc(e, vs[0])|), vs[1..], pos + |EncAll(e, vs)|)
    decreases vs, 0
  {
    HeadStands(e, vs, bs, pos);
    DecodeAllInverts(e, vs[1..], bs, pos + |Enc(e, vs[0])|);
  }

  // ---- What decoding accepts ----

  /** The type with its strings read as plain counted bytes: the wire may put NULs in them. */
  function Plain(t: XdrType): XdrType {
    match t
    case CountedT(max, _) => CountedT(max, false)
    case VectorT(n, e) => VectorT(n, Plain(e))
    case ArrayT(max, e, elsize) => ArrayT(max, Plain(e), elsize)
    case PointerT(e) => PointerT(Plain(e))
    case _ => t
  }

  ghost predicate Sound(t: XdrType, pos: nat, p: Parsed<XdrVal>) {
    HasType(Plain(t), p.v) && WithinLimits(Plain(t), p.v) && p.next == pos + |Enc(Plain(t), p.v)|
  }

  ghost predicate AllSound(e: XdrType, n: nat, pos: nat, p: Parsed<seq<XdrVal>>) {
    |p.v| == n && AllHaveType(Plain(e), p.v) && AllWithinLimits(Plain(e), p.v)
    && p.next == pos + |EncAll(Plain(e), p.v)|
  }

  lemma OpaqueSound(bs: seq<Byte>, pos: nat, n: nat)
    requires pos % 4 == 0
    ensures var r := DecOpaque(bs, pos, n);
      r.Some? ==> r.value.v.Raw? && |r.value.v.bs| == n && r.value.next == pos + |Padded(r.value.v.bs)|
  {}

  lemma FlatSound(t: XdrType, bs: seq<Byte>, pos: nat)
    requires Flat(t) && TypeOk(t) && pos % 4 == 0 && |bs| < INT_LIMIT
    ensures var r := Dec(t, bs, pos); r.Some? ==> Sound(t, pos, r.value)
  {
    match t
    case OpaqueT(n) => OpaqueSound(bs, pos, n);
    case CountedT(max, _) =>
      var w := DecWord(bs, pos);
      if w.Some? { OpaqueSound(bs, w.value.next, w.value.v); }
    case HyperT => HyperRange(bs, pos);
    case WordT(_) =>
  }

  lemma HyperRange(bs: seq<Byte>, pos: nat)
    ensures var r := DecHyper(bs, pos);
      r.Some? ==> 0 <= r.value.v.n < WORD32 * WORD32 && r.value.next == pos + 8
  {}

  /** Whatever decoding accepts is a value of the type within its limits, and the cursor has moved
      by exactly the size that value encodes to. */
  lemma {:induction false} DecodeIsSound(t: XdrType, bs: seq<Byte>, pos: nat)
    requires TypeOk(t) && pos % 4 == 0 && |bs| < INT_LIMIT
    ensures var r := Dec(t, bs, pos); r.Some? ==> Sound(t, pos, r.value)
    decreases t, 0, 0
  {
    if Flat(t) {
      FlatSound(t, bs, pos);
    } else if t.VectorT? {
      DecodeAllIsSound(t.elem, t.n, bs, pos);
    } else if pos + 4 <= |bs| {
      if t.ArrayT? {
        if Word(bs, pos) <= t.max { DecodeAllIsSound(t.elem, Word(bs, pos), bs, pos + 4); }
        ArraySound(t, bs, pos);
      } else {
        if Word(bs, pos) != 0 { DecodeIsSound(t.target, bs, pos + 4); }
        PointerSound(t, bs, pos);
      }
    }
  }

  lemma ArraySound(t: XdrType, bs: seq<Byte>, pos: nat)
    requires t.ArrayT? && TypeOk(t) && pos + 4 <= |bs|
    requires var n := Word(bs, pos);
      n <= t.max && DecAll(t.elem, n, bs, pos + 4).Some? ==>
        AllSound(t.elem, n, pos + 4, DecAll(t.elem, n, bs, pos + 4).value)
    ensures var r := Dec(t, bs, pos); r.Some? ==> Sound(t, pos, r.value)
  {}

  lemma PointerSound(t: XdrType, bs: seq<Byte>, pos: nat)
    requires t.PointerT? && pos + 4 <= |bs|
    requires Word(bs, pos) != 0 && Dec(t.target, bs, pos + 4).Some? ==>
               Sound(t.target, pos + 4, Dec(t.target, bs, pos + 4).value)
    ensures var r := Dec(t, bs, pos); r.Some? ==> Sound(t, pos, r.value)
  {}

  lemma {:induction false} DecodeAllIsSound(e: XdrType, n: nat, bs: seq<Byte>, pos: nat)
    requires TypeOk(e) && pos % 4 == 0 && |bs| < INT_LIMIT
    ensures var r := DecAll(e, n, bs, pos); r.Some? ==> AllSound(e, n, pos, r.value)
    decreases e, 1, n
  {
    if n == 0 {
    } else {
      var d := Dec(e, bs, pos);
      DecodeIsSound(e, bs, pos);
      if d.Some? {
        EncAligned(Plain(e), d.value.v);
        AlignedSum(pos, |Enc(Plain(e), d.value.v)|);
        DecodeAllIsSound(e, n - 1, bs, d.value.next);
        var q := DecAll(e, n - 1, bs, d.value.next);
        if q.Some? { ConsSound(e, n - 1, pos, d.value, q.value); }
      }
    }
  }

  lemma ConsSound(e: XdrType, n: nat, pos: nat, d: Parsed<XdrVal>, q: Parsed<seq<XdrVal>>)
    requires Sound(e, pos, d) && AllSound(e, n, d.next, q)
    ensures AllSound(e, n + 1, pos, Parsed([d.v] + q.v, q.next))
  {
    var vs := [d.v] + q.v;
    assert vs[0] == d.v && vs[1..] == q.v;
  }
}
