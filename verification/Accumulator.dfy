/** The two-word accumulator that sums cross products when no 128-bit integer is available. */
module Accumulators {
  import opened Limbs

  class Accumulator {
    var lower: uint64
    var upper: uint64

    ghost function Value(): (r: nat)
      reads this
      ensures r < 0x1_0000_0000_0000_0000_0000_0000_0000_0000
    {
      upper * 0x1_0000_0000_0000_0000 + lower
    }

    constructor ()
      ensures Value() == 0
    {
      lower, upper := 0, 0;
    }

    /** The conversion to a 32-bit word. */
    function Word(): (r: uint32)
      reads this
      ensures r == Value() % 0x1_0000_0000
    {
      lower % 0x1_0000_0000
    }

    /** Adding a word adds it to the 128-bit sum, whatever carries between the halves. */
    method Add(n: uint64)
      modifies this
      ensures Value() == (old(Value()) + n) % 0x1_0000_0000_0000_0000_0000_0000_0000_0000
      ensures old(Value()) + n < 0x1_0000_0000_0000_0000_0000_0000_0000_0000 ==> Value() == old(Value()) + n
    {
      WrapOnce(lower + n, 0x1_0000_0000_0000_0000);
      WrapOnce(upper + 1, 0x1_0000_0000_0000_0000);
      WrapOnce(Value() + n, 0x1_0000_0000_0000_0000_0000_0000_0000_0000);
      lower := (lower + n) % 0x1_0000_0000_0000_0000;
      if lower < n {
        upper := (upper + 1) % 0x1_0000_0000_0000_0000;
      }
    }

    method ShiftRight32()
      modifies this
      ensures Value() == old(Value()) / 0x1_0000_0000
    {
      lower := (upper % 0x1_0000_0000) * 0x1_0000_0000 + lower / 0x1_0000_0000;
      upper := upper / 0x1_0000_0000;
    }
  }

  lemma WrapOnce(x: nat, m: nat)
    requires x < 2 * m
    ensures x % m == if x < m then x else x - m
  {
  }
}
