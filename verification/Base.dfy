/** What every component shares: bytes, 32-bit words, optional results and error numbers. */
module Base {

  const WORD32: nat := 0x1_0000_0000
  /** Signed 32-bit integers lie below this. */
  const INT_LIMIT: nat := 0x8000_0000

  type Byte = b: nat | b < 256

  type U32 = n: nat | n < WORD32

  datatype Option<+T> = None | Some(value: T)

  const ENOENT: int := 2
  const ENOMEM: int := 12
  const EBUSY: int := 16
  const EINVAL: int := 22

  /** An integer cut to a word, as unsigned arithmetic does. */
  function ToU32(n: int): U32 { n % WORD32 }

  /** A word read as a signed integer. */
  function ToInt(u: U32): int {
    if u >= INT_LIMIT then u - WORD32 else u
  }

  // ---- Products ----

  lemma Distribute(x: int, y: int, d: int)
    ensures (x + y) * d == x * d + y * d
  {}

  lemma Associate(a: int, b: int, c: int)
    ensures a * (b * c) == (a * b) * c
  {}

  lemma MulMono(p: nat, x: int, y: int)
    requires x <= y
    ensures p * x <= p * y && x * p <= y * p
  {}

  lemma Divides(v: nat, d: nat)
    requires d > 0
    ensures v == v / d * d + v % d && v / d >= 0
  {}
}
