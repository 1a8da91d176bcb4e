/** Where the receiving code tests that data is there: on signed 32-bit integers, which wrap. The
    test is right for honest lengths, and lets a read past the message through for the others. */
module XdrBounds {
  import opened Base
  import opened Bits
  import opened XdrSpec

  /** in_next + (int) len > in_len does not hold. */
  predicate Accepts(next: int, n: U32, len: int) {
    ToInt(ToU32(next + ToInt(n))) <= len
  }

  /** The test lets n bytes through that are not there. */
  predicate Overruns(next: int, n: U32, len: int) {
    Accepts(next, n, len) && next + n > len
  }

  /** The test is right exactly when the sum does not wrap, or when a length of 2^31 or more, taken for a negative
      one, still leaves the cursor past the message. */
  lemma TestIsRightIff(next: nat, n: U32, len: nat)
    requires next <= RPCROUTER_MSGSIZE_MAX && len <= RPCROUTER_MSGSIZE_MAX
    ensures (Accepts(next, n, len) <==> next + n <= len)
       <==> next + n < INT_LIMIT || (n >= INT_LIMIT && next + n - WORD32 > len)
  {}

  /** What the test refuses is not there, wherever the cursor is. */
  lemma RefusalIsRight(next: nat, n: U32, len: nat)
    requires next <= RPCROUTER_MSGSIZE_MAX && len <= RPCROUTER_MSGSIZE_MAX && !Accepts(next, n, len)
    ensures next + n > len
  {}

  /** A full message, arguments behind the call header, and two counts that pass the test. */
  lemma CountsThatPass()
    ensures Overruns(44, 0x7FFF_FFFC, RPCROUTER_MSGSIZE_MAX) && Overruns(44, 0xFFFF_FFFF, RPCROUTER_MSGSIZE_MAX)
  {}

  /** Copying n bytes at pos, unless there are none to copy, would run past the message. */
  predicate StrayOpaque(bs: seq<Byte>, pos: nat, n: nat) {
    0 < n < WORD32 && Overruns(pos, n, |bs|)
  }

  /** ... or, for a string of 2^32 - 1 bytes, whose size with its NUL wraps to zero, reports success
      without reading. */
  predicate StrayCounted(text: bool, bs: seq<Byte>, pos: nat, n: U32) {
    (text && n == WORD32 - 1) || StrayOpaque(bs, pos, n)
  }

  // ---- Memory for arrays ----

  /** The elements that fit the buffer allocated for c of them: its size is a 32-bit product. */
  function Slots(c: U32, elsize: U32): nat {
    if elsize == 0 then c else Quotient(ToU32((c as int) * elsize), elsize)
  }

  function Quotient(a: nat, b: nat): nat
    requires b > 0
  {
    a / b
  }

  /** The buffer holds every element exactly when the product does not wrap. */
  lemma SlotsSufficeIff(c: U32, elsize: U32)
    ensures c <= Slots(c, elsize) <==> (c as int) * elsize < WORD32
  {
    if elsize > 0 {
      var size := (c as int) * elsize;
      if size < WORD32 {
        DivModUnique(size, elsize, c, 0);
      } else {
        var slots := ToU32(size) / elsize;
        Divides(ToU32(size), elsize);
        if slots >= c { MulMono(elsize, c, slots); }
      }
    }
  }

  /** The first count whose product wraps leaves no room for even one element. */
  lemma FirstWrapHasNoSlot(max: U32, elsize: U32) returns (c: U32)
    requires (max as int) * elsize >= WORD32
    ensures 0 < c <= max && Slots(c, elsize) == 0
  {
    var q, r := WORD32 / elsize, WORD32 % elsize;
    Divides(WORD32, elsize);
    if max <= q { MulMono(elsize, max, q); }
    if r == 0 {
      c := q;
      DivModUnique(WORD32, WORD32, 1, 0);
    } else {
      c := q + 1;
      Distribute(q, 1, elsize);
      DivModUnique((c as int) * elsize, WORD32, 1, elsize - r);
      DivModUnique(elsize - r, elsize, 0, elsize - r);
    }
  }

  /** The arrays in a value fit their memory. */
  predicate InMemory(t: XdrType, v: XdrVal)
    decreases v, 1
  {
    match t
    case VectorT(_, e) => v.Many? && AllInMemory(e, v.vs)
    case ArrayT(_, e, elsize) => v.Many? && |v.vs| * elsize < WORD32 && AllInMemory(e, v.vs)
    case PointerT(e) => v.Null? || (v.Ref? && InMemory(e, v.v))
    case _ => true
  }

  predicate AllInMemory(e: XdrType, vs: seq<XdrVal>)
    decreases vs, 0
  {
    vs == [] || (InMemory(e, vs[0]) && AllInMemory(e, vs[1..]))
  }

  // ---- Going astray ----

  /** Decoding a type meets a length that passes the test wrongly, or writes an element outside the
      memory allocated for its array. */
  predicate Strays(t: XdrType, bs: seq<Byte>, pos: nat)
    decreases t, 0, 0
  {
    match t
    case WordT(_) => false
    case HyperT => false
    case OpaqueT(n) => StrayOpaque(bs, pos, n)
    case CountedT(max, text) =>
      (match DecWord(bs, pos)
       case None => false
       case Some(w) => w.v <= max && StrayCounted(text, bs, w.next, w.v))
    case VectorT(n, e) => StraysAll(e, n, n, bs, pos)
    case ArrayT(max, e, elsize) =>
      (match DecWord(bs, pos)
       case None => false
       case Some(w) => w.v <= max && StraysAll(e, w.v, Slots(w.v, elsize), bs, w.next))
    case PointerT(e) =>
      (match DecWord(bs, pos)
       case None => false
       case Some(w) => w.v != 0 && Strays(e, bs, w.next))
  }

  /** One of n elements does, or there is one more than there are slots. */
  predicate StraysAll(e: XdrType, n: nat, slots: nat, bs: seq<Byte>, pos: nat)
    decreases e, 1, n
  {
    n > 0 &&
    (slots == 0 || Strays(e, bs, pos) ||
     match Dec(e, bs, pos)
     case None => false
     case Some(p) => StraysAll(e, n - 1, slots - 1, bs, p.next))
  }

  /** A message that holds a value of the type leads astray exactly when an array of that value does
      not fit in memory. */
  lemma {:induction false} DecodedStraysIff(t: XdrType, bs: seq<Byte>, pos: nat)
    requires |bs| <= RPCROUTER_MSGSIZE_MAX && Dec(t, bs, pos).Some?
    ensures Strays(t, bs, pos) <==> !InMemory(t, Dec(t, bs, pos).value.v)
    decreases t, 0, 0
  {
    if t.VectorT? {
      AllDecodedStrayIff(t.elem, t.n, t.n, bs, pos);
    } else if t.ArrayT? {
      SlotsSufficeIff(Word(bs, pos), t.elsize);
      AllDecodedStrayIff(t.elem, Word(bs, pos), Slots(Word(bs, pos), t.elsize), bs, pos + 4);
    } else if t.PointerT? && Word(bs, pos) != 0 {
      DecodedStraysIff(t.target, bs, pos + 4);
    }
  }

  lemma {:induction false} AllDecodedStrayIff(e: XdrType, n: nat, slots: nat, bs: seq<Byte>, pos: nat)
    requires |bs| <= RPCROUTER_MSGSIZE_MAX && DecAll(e, n, bs, pos).Some?
    ensures var vs := DecAll(e, n, bs, pos).value.v;
      |vs| == n && (StraysAll(e, n, slots, bs, pos) <==> !(n <= slots && AllInMemory(e, vs)))
    decreases e, 1, n
  {
    if n > 0 {
      var d := Dec(e, bs, pos).value;
      DecodedStraysIff(e, bs, pos);
      var m := if slots > 0 then slots - 1 else 0;
      AllDecodedStrayIff(e, n - 1, m, bs, d.next);
      var rest := DecAll(e, n - 1, bs, d.next).value.v;
      assert ([d.v] + rest)[1..] == rest;
    }
  }

  // ---- Safe types ----

  /** No message can lead a decoder of t astray, when at most room bytes are left in front of its end. */
  predicate Guarded(t: XdrType, room: nat) {
    match t
    case OpaqueT(n) => n + RPCROUTER_MSGSIZE_MAX < INT_LIMIT
    case CountedT(max, _) => room < 4 || max + RPCROUTER_MSGSIZE_MAX < INT_LIMIT
    case VectorT(n, e) => n == 0 || Guarded(e, room)
    case ArrayT(max, e, elsize) => room < 4 || max == 0 || (max * elsize < WORD32 && Guarded(e, room - 4))
    case PointerT(e) => room < 4 || Guarded(e, room - 4)
    case _ => true
  }

  ghost predicate Safe(t: XdrType) {
    forall bs: seq<Byte>, pos: nat :: |bs| <= RPCROUTER_MSGSIZE_MAX && pos <= RPCROUTER_MSGSIZE_MAX ==>
      !Strays(t, bs, pos)
  }

  lemma {:induction false} CursorStays(t: XdrType, bs: seq<Byte>, pos: nat)
    requires |bs| <= RPCROUTER_MSGSIZE_MAX && pos <= RPCROUTER_MSGSIZE_MAX
    ensures Dec(t, bs, pos).Some? ==> pos <= Dec(t, bs, pos).value.next <= RPCROUTER_MSGSIZE_MAX
    decreases t, 0, 0
  {
    if t.VectorT? {
      AllCursorsStay(t.elem, t.n, bs, pos);
    } else if t.ArrayT? || t.PointerT? {
      var w := DecWord(bs, pos);
      if w.Some? {
        if t.ArrayT? { AllCursorsStay(t.elem, w.value.v, bs, pos + 4); } else { CursorStays(t.target, bs, pos + 4); }
      }
    }
  }

  lemma {:induction false} AllCursorsStay(e: XdrType, n: nat, bs: seq<Byte>, pos: nat)
    requires |bs| <= RPCROUTER_MSGSIZE_MAX && pos <= RPCROUTER_MSGSIZE_MAX
    ensures DecAll(e, n, bs, pos).Some? ==> pos <= DecAll(e, n, bs, pos).value.next <= RPCROUTER_MSGSIZE_MAX
    decreases e, 1, n
  {
    if n > 0 {
      CursorStays(e, bs, pos);
      var d := Dec(e, bs, pos);
      if d.Some? { AllCursorsStay(e, n - 1, bs, d.value.next); }
    }
  }

  lemma {:induction false} GuardedNeverStrays(t: XdrType, room: nat, bs: seq<Byte>, pos: nat)
    requires Guarded(t, room) && |bs| <= RPCROUTER_MSGSIZE_MAX
    requires pos <= RPCROUTER_MSGSIZE_MAX <= pos + room
    ensures !Strays(t, bs, pos)
    decreases t, 0, 0
  {
    if t.VectorT? {
      if t.n > 0 { AllGuardedNeverStray(t.elem, room, t.n, t.n, bs, pos); }
    } else if t.ArrayT? {
      if pos + 4 <= |bs| { ArrayNeverStrays(t, room, bs, pos); }
    } else if t.PointerT? {
      if pos + 4 <= |bs| { GuardedNeverStrays(t.target, room - 4, bs, pos + 4); }
    } else {
      FlatNeverStrays(t, room, bs, pos);
    }
  }

  lemma FlatNeverStrays(t: XdrType, room: nat, bs: seq<Byte>, pos: nat)
    requires Flat(t) && Guarded(t, room) && |bs| <= RPCROUTER_MSGSIZE_MAX
    requires pos <= RPCROUTER_MSGSIZE_MAX <= pos + room
    ensures !Strays(t, bs, pos)
  {}

  lemma {:induction false} ArrayNeverStrays(t: XdrType, room: nat, bs: seq<Byte>, pos: nat)
    requires t.ArrayT? && Guarded(t, room) && pos + 4 <= |bs| <= RPCROUTER_MSGSIZE_MAX <= pos + room
    ensures !Strays(t, bs, pos)
    decreases t.elem, 2
  {
    var c := Word(bs, pos);
    if 0 < c <= t.max {
      MulMono(t.elsize, c, t.max);
      SlotsSufficeIff(c, t.elsize);
      AllGuardedNeverStray(t.elem, room - 4, c, Slots(c, t.elsize), bs, pos + 4);
    }
  }

  lemma {:induction false} AllGuardedNeverStray(e: XdrType, room: nat, n: nat, slots: nat, bs: seq<Byte>, pos: nat)
    requires Guarded(e, room) && n <= slots && |bs| <= RPCROUTER_MSGSIZE_MAX
    requires pos <= RPCROUTER_MSGSIZE_MAX <= pos + room
    ensures !StraysAll(e, n, slots, bs, pos)
    decreases e, 1, n
  {
    if n > 0 {
      GuardedNeverStrays(e, room, bs, pos);
      CursorStays(e, bs, pos);
      var d := Dec(e, bs, pos);
      if d.Some? { AllGuardedNeverStray(e, room, n - 1, slots - 1, bs, d.value.next); }
    }
  }

  /** bait at the end of a message leads a decoder of t astray. */
  ghost predicate Lures(t: XdrType, bait: seq<Byte>) {
    |bait| <= RPCROUTER_MSGSIZE_MAX &&
    forall bs: seq<Byte> :: |bs| == RPCROUTER_MSGSIZE_MAX && StandsAt(bs, |bs| - |bait|, bait) ==>
      Strays(t, bs, |bs| - |bait|)
  }

  /** A word, then the bait of what it announces. */
  lemma WordFirst(w: U32, bait: seq<Byte>, bs: seq<Byte>, pos: nat)
    requires StandsAt(bs, pos, Be32(w) + bait)
    ensures DecWord(bs, pos) == Some(Parsed(w, pos + 4)) && StandsAt(bs, pos + 4, bait)
  {
    StandsSplit(bs, pos, Be32(w), bait);
    WordOfBe32(w, bs, pos);
  }

  /** A type that is not guarded can be led astray from any distance that leaves room for the bait. */
  lemma {:induction false} UnguardedIsLured(t: XdrType, room: nat) returns (bait: seq<Byte>)
    requires TypeOk(t) && !Guarded(t, room) && room <= RPCROUTER_MSGSIZE_MAX
    ensures |bait| <= room && Lures(t, bait)
    decreases t, 1
  {
    match t
    case OpaqueT(n) =>
      bait := [];
      OpaqueLures(n);
    case CountedT(max, text) =>
      bait := Be32(max);
      CountLures(max, text);
    case VectorT(n, e) =>
      bait := UnguardedIsLured(e, room);
      VectorLures(n, e, bait);
    case ArrayT(_, _, _) => bait := ArrayIsLured(t, room);
    case PointerT(e) =>
      var b := UnguardedIsLured(e, room - 4);
      bait := Be32(1) + b;
      PointerLures(e, b);
  }

  lemma PointerLures(e: XdrType, b: seq<Byte>)
    requires Lures(e, b) && 4 + |b| <= RPCROUTER_MSGSIZE_MAX
    ensures Lures(PointerT(e), Be32(1) + b)
  {
    forall bs: seq<Byte> | |bs| == RPCROUTER_MSGSIZE_MAX && StandsAt(bs, |bs| - |Be32(1) + b|, Be32(1) + b)
      ensures Strays(PointerT(e), bs, |bs| - |Be32(1) + b|)
    {
      PointerStrays(e, b, bs, |bs| - |Be32(1) + b|);
    }
  }

  lemma PointerStrays(e: XdrType, b: seq<Byte>, bs: seq<Byte>, pos: nat)
    requires Lures(e, b) && |bs| == RPCROUTER_MSGSIZE_MAX == pos + 4 + |b| && StandsAt(bs, pos, Be32(1) + b)
    ensures Strays(PointerT(e), bs, pos)
  {
    WordFirst(1, b, bs, pos);
    assert pos + 4 == |bs| - |b|;
  }

  lemma OpaqueLures(n: nat)
    requires INT_LIMIT <= n + RPCROUTER_MSGSIZE_MAX && n < INT_LIMIT
    ensures Lures(OpaqueT(n), [])
  {}

  lemma VectorLures(n: nat, e: XdrType, b: seq<Byte>)
    requires n > 0 && Lures(e, b)
    ensures Lures(VectorT(n, e), b)
  {}
  lemma CountLures(max: U32, text: bool)
    requires max + RPCROUTER_MSGSIZE_MAX >= INT_LIMIT
    ensures Lures(CountedT(max, text), Be32(max))
  {
    forall bs: seq<Byte> | |bs| == RPCROUTER_MSGSIZE_MAX && StandsAt(bs, |bs| - 4, Be32(max))
      ensures Strays(CountedT(max, text), bs, |bs| - 4)
    {
      CountStrays(max, text, bs, |bs| - 4);
    }
  }

  lemma CountStrays(max: U32, text: bool, bs: seq<Byte>, pos: nat)
    requires max + RPCROUTER_MSGSIZE_MAX >= INT_LIMIT
    requires |bs| == RPCROUTER_MSGSIZE_MAX == pos + 4 && StandsAt(bs, pos, Be32(max))
    ensures Strays(CountedT(max, text), bs, pos)
  {
    WordOfBe32(max, bs, pos);
  }

  lemma {:induction false} ArrayIsLured(t: XdrType, room: nat) returns (bait: seq<Byte>)
    requires t.ArrayT? && TypeOk(t) && !Guarded(t, room) && room <= RPCROUTER_MSGSIZE_MAX
    ensures |bait| <= room && Lures(t, bait)
    decreases t, 0
  {
    if t.max * t.elsize >= WORD32 {
      var c := FirstWrapHasNoSlot(t.max, t.elsize);
      bait := Be32(c) + [];
      ArrayLures(t, c, []);
    } else {
      var b := UnguardedIsLured(t.elem, room - 4);
      SlotsSufficeIff(1, t.elsize);
      bait := Be32(1) + b;
      ArrayLures(t, 1, b);
    }
  }

  lemma ArrayLures(t: XdrType, c: U32, b: seq<Byte>)
    requires t.ArrayT? && 0 < c <= t.max && (Slots(c, t.elsize) == 0 || Lures(t.elem, b))
    requires 4 + |b| <= RPCROUTER_MSGSIZE_MAX
    ensures Lures(t, Be32(c) + b)
  {
    forall bs: seq<Byte> | |bs| == RPCROUTER_MSGSIZE_MAX && StandsAt(bs, |bs| - |Be32(c) + b|, Be32(c) + b)
      ensures Strays(t, bs, |bs| - |Be32(c) + b|)
    {
      ArrayStrays(t, c, b, bs, |bs| - |Be32(c) + b|);
    }
  }

  lemma ArrayStrays(t: XdrType, c: U32, b: seq<Byte>, bs: seq<Byte>, pos: nat)
    requires t.ArrayT? && 0 < c <= t.max && (Slots(c, t.elsize) == 0 || Lures(t.elem, b))
    requires |bs| == RPCROUTER_MSGSIZE_MAX == pos + 4 + |b| && StandsAt(bs, pos, Be32(c) + b)
    ensures Strays(t, bs, pos)
  {
    WordFirst(c, b, bs, pos);
    assert pos + 4 == |bs| - |b|;
  }

  /** Exactly the guarded types are safe from every message: those whose limits leave room for a cursor
      below 2^31 and whose largest arrays fit in memory, wherever a message can get at them. */
  lemma SafeIff(t: XdrType)
    requires TypeOk(t)
    ensures Safe(t) <==> Guarded(t, RPCROUTER_MSGSIZE_MAX)
  {
    if Guarded(t, RPCROUTER_MSGSIZE_MAX) {
      forall bs: seq<Byte>, pos: nat | |bs| <= RPCROUTER_MSGSIZE_MAX && pos <= RPCROUTER_MSGSIZE_MAX
        ensures !Strays(t, bs, pos)
      {
        GuardedNeverStrays(t, RPCROUTER_MSGSIZE_MAX, bs, pos);
      }
    } else {
      var bait := UnguardedIsLured(t, RPCROUTER_MSGSIZE_MAX);
      LuredIsNotSafe(t, bait);
    }
  }

  lemma LuredIsNotSafe(t: XdrType, bait: seq<Byte>)
    requires Lures(t, bait)
    ensures !Safe(t)
  {
    var bs := Zeros(RPCROUTER_MSGSIZE_MAX - |bait|) + bait;
    assert StandsAt(bs, |bs| - |bait|, bait);
    assert Strays(t, bs, |bs| - |bait|);
  }
}
