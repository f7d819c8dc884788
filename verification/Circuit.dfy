/**
 * The few secret-integer operations the generated circuits are written in.
 */
module Circuit {
  import opened Intervals

  /** A comparison opens into a bit. */
  function Truth(b: bool): int { if b then 1 else 0 }

  /** `c.if_else(a, b)`: arithmetic, whatever c is. */
  function Mux(c: int, a: int, b: int): int { c * (a - b) + b }

  lemma MuxSelects(a: int, b: int)
    ensures Mux(1, a, b) == a && Mux(0, a, b) == b
  {}

  /** `x.equal(0, bits)`, which compares a signed word of that many bits. */
  function EqualsZero(x: int, ghost bits: nat): int
    requires FitsSigned(x, bits)
  {
    Truth(x == 0)
  }
}
