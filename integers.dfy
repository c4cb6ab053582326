/** Swift's fixed-width unsigned integer types, as ranges of Dafny's unbounded integers. */
module Integers {

  type uint8 = x: int | 0 <= x < 0x100
  type uint16 = x: int | 0 <= x < 0x1_0000
  type uint32 = x: int | 0 <= x < 0x1_0000_0000

  /** One more than the largest value of Swift's 64-bit `UInt`. */
  const UINT_LIMIT: nat := 0x1_0000_0000_0000_0000

  function Pow(base: nat, exp: nat): nat
  {
    if exp == 0 then 1 else base * Pow(base, exp - 1)
  }

  /** Raising a positive base to a larger exponent never gives less. */
  lemma {:induction false} PowMonotone(base: nat, m: nat, n: nat)
    requires 1 <= base && m <= n
    ensures Pow(base, m) <= Pow(base, n)
  {
    if m < n {
      PowMonotone(base, m, n - 1);
      assert Pow(base, n) == base * Pow(base, n - 1);
    }
  }

  /** A width of `n` bytes holds exactly as many values as `2 * n` hexadecimal digits. */
  lemma {:induction false} BytesAreNibblePairs(n: nat)
    ensures Pow(256, n) == Pow(16, 2 * n)
  {
    if n > 0 {
      BytesAreNibblePairs(n - 1);
      calc {
        Pow(16, 2 * n);
        16 * Pow(16, 2 * n - 1);
        16 * (16 * Pow(16, 2 * (n - 1)));
        256 * Pow(256, n - 1);
      }
    }
  }
}
