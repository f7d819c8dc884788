/**
 * The number of binary digits of a natural, which is what `128 - leading_zeros` computes.
 */
module BitWidth {
  import opened Polynomials

  /** Zero has no digits. */
  function BitLength(n: nat): nat { if n == 0 then 0 else 1 + BitLength(n / 2) }

  lemma {:induction false} BitLengthBound(n: nat)
    ensures n < Power(2, BitLength(n))
    ensures n > 0 ==> Power(2, BitLength(n) - 1) <= n
  {
    if n > 0 {
      BitLengthBound(n / 2);
      if n / 2 == 0 { assert BitLength(n) == 1; }
    }
  }
}
