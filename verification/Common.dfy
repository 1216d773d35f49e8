/** Option, Result and the integer widths shared by every module. */
module Common {
  datatype Option<+T> = None | Some(value: T)

  /** An exception thrown by the source is an `Err`. */
  datatype Result<+T> = Ok(value: T) | Err

  const MAX_U64: nat := 0xffff_ffff_ffff_ffff
  const TWO_64: nat := 0x1_0000_0000_0000_0000
  const TWO_32: nat := 0x1_0000_0000

  type byte = b: nat | b < 256
  type bytes = seq<byte>
  type u16 = n: nat | n < 0x1_0000
  type u32 = n: nat | n < TWO_32
  type u64 = n: nat | n < TWO_64

  /** SHA-1 values, ordered as 20-byte big-endian numbers. */
  const TWO_160: nat := 0x1_00000000_00000000_00000000_00000000_00000000
  type Hash = h: nat | h < TWO_160

  function Min(a: nat, b: nat): nat {
    if a <= b then a else b
  }

  function Max(a: nat, b: nat): nat {
    if a >= b then a else b
  }

  function Pow2(k: nat): nat {
    if k == 0 then 1 else 2 * Pow2(k - 1)
  }

  lemma AtLeastOnce(d: int, m: nat)
    ensures d > 0 ==> d * m >= m
    ensures d < 0 ==> d * m + m <= 0
  {}

  /** Quotient and remainder are unique. */
  lemma DivisionIs(n: nat, m: nat, q: nat, r: nat)
    requires r < m && n == q * m + r
    ensures n / m == q && n % m == r
  {
    var p := n / m;
    assert n == p * m + n % m;
    assert (q - p) * m == q * m - p * m;
    AtLeastOnce(q - p, m);
  }
}
