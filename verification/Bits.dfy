/** Machine words as natural numbers: the bitwise operators the sources apply to
    unsigned 32-bit words, defined digit by digit, with the arithmetic each mask stands for. */
module Bits {
  import opened Base

  const WORD_BITS: nat := 32

  function Pow2(k: nat): (p: nat)
    ensures p >= 1
  {
    if k == 0 then 1 else 2 * Pow2(k - 1)
  }

  /** Bit k of a. */
  predicate Bit(a: nat, k: nat) {
    if k == 0 then a % 2 == 1 else Bit(a / 2, k - 1)
  }

  /** a & b */
  function And(a: nat, b: nat): nat {
    if a == 0 || b == 0 then 0
    else (if a % 2 == 1 && b % 2 == 1 then 1 else 0) + 2 * And(a / 2, b / 2)
  }

  /** a | b */
  function Or(a: nat, b: nat): nat {
    if a == 0 then b
    else if b == 0 then a
    else (if a % 2 == 1 || b % 2 == 1 then 1 else 0) + 2 * Or(a / 2, b / 2)
  }

  /** ~a on a 32-bit word */
  function Not(a: nat): nat
    requires a < WORD32
  {
    WORD32 - 1 - a
  }

  /** -a on an unsigned 32-bit word */
  function Neg(a: nat): (r: nat)
    requires a < WORD32
    ensures r < WORD32
  {
    (WORD32 - a) % WORD32
  }

  lemma WordIsPow2()
    ensures Pow2(WORD_BITS) == WORD32
  {
    assert Pow2(8) == 0x100;
    Pow2Sum(8, 8);
    Pow2Sum(16, 16);
  }

  lemma {:induction false} Pow2Sum(j: nat, k: nat)
    ensures Pow2(j + k) == Pow2(j) * Pow2(k)
  {
    if j > 0 {
      Pow2Sum(j - 1, k);
      Associate(2, Pow2(j - 1), Pow2(k));
    }
  }

  lemma {:induction false} Pow2Mono(j: nat, k: nat)
    requires j < k
    ensures 2 * Pow2(j) <= Pow2(k)
  {
    if j + 1 < k {
      Pow2Mono(j, k - 1);
    }
  }

  /** Splitting a remainder into its lowest digit and the rest. */
  lemma ModDigit(a: nat, p: nat)
    requires p > 0
    ensures a % (2 * p) == a % 2 + 2 * ((a / 2) % p)
  {
    var h := a / 2;
    var q, r := h / p, h % p;
    assert h == p * q + r;
    assert a == 2 * (p * q + r) + a % 2;
    assert a == (2 * p) * q + (2 * r + a % 2) by { assert 2 * (p * q) == (2 * p) * q; }
    assert 0 <= 2 * r + a % 2 < 2 * p;
    DivModUnique(a, 2 * p, q, 2 * r + a % 2);
  }

  lemma DivModUnique(a: int, d: int, q: int, r: int)
    requires d > 0 && 0 <= r < d && a == d * q + r
    ensures a / d == q && a % d == r
  {
    var q', r' := a / d, a % d;
    assert a == d * q' + r';
    MulNear(d, q - q', r' - r);
  }

  lemma MulNear(d: int, m: int, r: int)
    requires d > 0 && d * m == r && -d < r < d
    ensures m == 0
  {}

  /** x & (2^k - 1) is the remainder modulo 2^k. */
  lemma {:induction false} AndLowMask(a: nat, k: nat)
    ensures And(a, Pow2(k) - 1) == a % Pow2(k)
  {
    if k == 0 {
    } else {
      var p := Pow2(k - 1);
      ModDigit(a, p);
      AndLowMask(a / 2, k - 1);
      assert (2 * p - 1) % 2 == 1 && (2 * p - 1) / 2 == p - 1;
      if a > 0 && a / 2 == 0 { assert And(a / 2, p - 1) == 0; }
    }
  }

  /** One digit of a conjunction. */
  lemma AndDigit(h: nat, x: nat, g: nat, y: nat)
    requires x <= 1 && y <= 1
    ensures And(2 * h + x, 2 * g + y) == (if x == 1 && y == 1 then 1 else 0) + 2 * And(h, g)
  {
    var a, b := 2 * h + x, 2 * g + y;
    assert a / 2 == h && a % 2 == x && b / 2 == g && b % 2 == y;
  }

  /** x & ~(2^k - 1) clears the remainder modulo 2^k. */
  lemma {:induction false} AndHighMask(a: nat, k: nat, w: nat)
    requires k <= w && a < Pow2(w)
    ensures Pow2(k) <= Pow2(w) && And(a, Pow2(w) - Pow2(k)) == a - a % Pow2(k)
    decreases k
  {
    if k == 0 {
      AndAllOnes(a, w);
    } else {
      var h, p, q := a / 2, Pow2(k - 1), Pow2(w - 1);
      assert a == 2 * h + a % 2 && Pow2(k) == 2 * p && Pow2(w) == 2 * q;
      AndHighMask(h, k - 1, w - 1);
      AndHighStep(h, a % 2, p, q, a, Pow2(k), Pow2(w));
    }
  }

  lemma {:induction false} AndAllOnes(a: nat, w: nat)
    requires a < Pow2(w)
    ensures And(a, Pow2(w) - 1) == a
  {
    if w > 0 {
      AndAllOnes(a / 2, w - 1);
      AndDigit(a / 2, a % 2, Pow2(w - 1) - 1, 1);
    }
  }

  lemma DoubleMod(h: nat, x: nat, p: nat)
    requires x <= 1 && p > 0
    ensures (2 * h + x) % (2 * p) == 2 * (h % p) + x
  {
    ModDigit(2 * h + x, p);
    assert (2 * h + x) / 2 == h;
  }

  lemma AndHighStep(h: nat, x: nat, p: nat, q: nat, a: nat, p2: nat, q2: nat)
    requires x <= 1 && 0 < p <= q && And(h, q - p) == h - h % p
    requires a == 2 * h + x && p2 == 2 * p && q2 == 2 * q
    ensures And(a, q2 - p2) == a - a % p2
  {
    AndDigit(h, x, q - p, 0);
    DoubleMod(h, x, p);
  }

  /** x & 2^k isolates bit k. */
  lemma {:induction false} AndPow2(a: nat, k: nat)
    ensures And(a, Pow2(k)) == if Bit(a, k) then Pow2(k) else 0
  {
    if a == 0 {
      ZeroBit(k);
    } else if k == 0 {
    } else {
      AndPow2(a / 2, k - 1);
    }
  }

  lemma {:induction false} ZeroBit(k: nat)
    ensures !Bit(0, k)
  {
    if k > 0 { ZeroBit(k - 1); }
  }

  /** x | 2^k sets bit k: it adds 2^k exactly when the bit was clear. */
  lemma {:induction false} OrPow2(a: nat, k: nat)
    ensures Or(a, Pow2(k)) == if Bit(a, k) then a else a + Pow2(k)
  {
    if a == 0 {
      ZeroBit(k);
    } else if k == 0 {
      assert Or(a, 1) == 1 + 2 * Or(a / 2, 0);
    } else {
      OrPow2(a / 2, k - 1);
    }
  }

  /** x & ~2^k clears bit k: it subtracts 2^k exactly when the bit was set. */
  lemma {:induction false} AndNotPow2(a: nat, k: nat, w: nat)
    requires k < w && a < Pow2(w)
    ensures Pow2(k) < Pow2(w)
    ensures And(a, Pow2(w) - 1 - Pow2(k)) == if Bit(a, k) then a - Pow2(k) else a
    ensures Bit(a, k) ==> a >= Pow2(k)
  {
    if k == 0 {
      AndNotOne(a, w);
    } else {
      var h, p, q := a / 2, Pow2(k - 1), Pow2(w - 1);
      assert a == 2 * h + a % 2 && Pow2(k) == 2 * p && Pow2(w) == 2 * q;
      AndNotPow2(h, k - 1, w - 1);
      AndNotStep(h, a % 2, p, q, Bit(h, k - 1), a, Pow2(k), Pow2(w));
    }
  }

  lemma AndNotOne(a: nat, w: nat)
    requires 0 < w && a < Pow2(w)
    ensures And(a, Pow2(w) - 2) == a - a % 2
  {
    AndAllOnes(a / 2, w - 1);
    AndDigit(a / 2, a % 2, Pow2(w - 1) - 1, 0);
  }

  lemma AndNotStep(h: nat, x: nat, p: nat, q: nat, b: bool, a: nat, p2: nat, q2: nat)
    requires x <= 1 && p < q && (b ==> h >= p)
    requires And(h, q - 1 - p) == if b then h - p else h
    requires a == 2 * h + x && p2 == 2 * p && q2 == 2 * q
    ensures And(a, q2 - 1 - p2) == if b then a - p2 else a
  {
    AndDigit(h, x, q - 1 - p, 1);
  }

  /** Bit k read off the quotient. */
  lemma {:induction false} BitIsQuotient(a: nat, k: nat)
    ensures Bit(a, k) <==> (a / Pow2(k)) % 2 == 1
  {
    if k == 0 {
    } else {
      BitIsQuotient(a / 2, k - 1);
      var p := Pow2(k - 1);
      DivDiv(a, p);
    }
  }

  lemma DivDiv(a: nat, p: nat)
    requires p > 0
    ensures a / (2 * p) == (a / 2) / p
  {
    var h := a / 2;
    var q, r := h / p, h % p;
    assert h == p * q + r;
    assert a == (2 * p) * q + (2 * r + a % 2) by { assert 2 * (p * q) == (2 * p) * q; }
    DivModUnique(a, 2 * p, q, 2 * r + a % 2);
  }

  /** Changing bit k changes no other bit. */
  lemma {:induction false} SetBit(a: nat, k: nat, j: nat)
    requires !Bit(a, k)
    ensures Bit(a + Pow2(k), j) <==> j == k || Bit(a, j)
  {
    if k == 0 {
      assert (a + 1) / 2 == a / 2;
      if j > 0 { assert Bit(a + 1, j) == Bit((a + 1) / 2, j - 1); }
    } else {
      var p := Pow2(k - 1);
      assert (a + 2 * p) / 2 == a / 2 + p && (a + 2 * p) % 2 == a % 2;
      if j > 0 { SetBit(a / 2, k - 1, j - 1); }
    }
  }

  /** Setting a clear bit below n stays below 2^n. */
  lemma {:induction false} SetBitBound(a: nat, k: nat, n: nat)
    requires !Bit(a, k) && k < n && a < Pow2(n)
    ensures a + Pow2(k) < Pow2(n)
  {
    var h := a / 2;
    if k > 0 {
      SetBitBound(h, k - 1, n - 1);
    } else {
      assert a == 2 * h;
    }
  }

  /** A set bit k means a is at least 2^k, and taking 2^k away clears bit k and no other. */
  lemma {:induction false} ClearBit(a: nat, k: nat, j: nat)
    requires Bit(a, k)
    ensures a >= Pow2(k) && (Bit(a - Pow2(k), j) <==> j != k && Bit(a, j))
  {
    if k == 0 {
      assert (a - 1) / 2 == a / 2;
      if j > 0 { assert Bit(a - 1, j) == Bit((a - 1) / 2, j - 1); }
    } else {
      var p := Pow2(k - 1);
      ClearBit(a / 2, k - 1, if j > 0 then j - 1 else 0);
      assert (a - 2 * p) / 2 == a / 2 - p && (a - 2 * p) % 2 == a % 2;
    }
  }

  /** The n low bits of a are all set. */
  ghost predicate AllSet(a: nat, n: nat) {
    forall k :: 0 <= k < n ==> Bit(a, k)
  }

  lemma {:induction false} OnesBit(n: nat, k: nat)
    requires k < n
    ensures Bit(Pow2(n) - 1, k)
  {
    if k > 0 {
      OnesBit(n - 1, k - 1);
      assert (Pow2(n) - 1) / 2 == Pow2(n - 1) - 1;
    }
  }

  lemma {:induction false} AllSetIsOnes(a: nat, n: nat)
    requires a < Pow2(n) && AllSet(a, n)
    ensures a == Pow2(n) - 1
  {
    if n > 0 {
      assert Bit(a, 0);
      forall k | 0 <= k < n - 1 ensures Bit(a / 2, k) {
        assert Bit(a, k + 1);
      }
      AllSetIsOnes(a / 2, n - 1);
    }
  }

  /** A word below 2^n equals 2^n - 1 exactly when its n low bits are all set. */
  lemma AllOnes(a: nat, n: nat)
    requires a < Pow2(n)
    ensures a == Pow2(n) - 1 <==> AllSet(a, n)
  {
    if a == Pow2(n) - 1 {
      forall k | 0 <= k < n ensures Bit(a, k) { OnesBit(n, k); }
    }
    if AllSet(a, n) { AllSetIsOnes(a, n); }
  }
}
