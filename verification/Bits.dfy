/** Unsigned shift, mask and power-of-two facts that the hash table relies on. */
module Bits {
  function Pow2(k: nat): (p: nat)
    ensures p >= 1
  {
    if k == 0 then 1 else 2 * Pow2(k - 1)
  }

  /** The C operator `&` on unsigned values. */
  function And(a: nat, b: nat): (r: nat)
    ensures r <= a && r <= b
  {
    if a == 0 || b == 0 then 0
    else 2 * And(a / 2, b / 2) + (if a % 2 == 1 && b % 2 == 1 then 1 else 0)
  }

  /** The C operator `>>` on unsigned values. */
  function ShiftRight(a: nat, k: nat): nat {
    if k == 0 then a else ShiftRight(a / 2, k - 1)
  }

  /** The C operator `<<` without a width to run out of. */
  function ShiftLeft(a: nat, k: nat): nat {
    if k == 0 then a else 2 * ShiftLeft(a, k - 1)
  }

  lemma {:induction false} ShiftLeftIsTimes(a: nat, k: nat)
    ensures ShiftLeft(a, k) == a * Pow2(k)
  {
    if k > 0 {
      ShiftLeftIsTimes(a, k - 1);
      assert a * (2 * Pow2(k - 1)) == 2 * (a * Pow2(k - 1));
    }
  }

  lemma {:induction false} ShiftLeftAdds(a: nat, b: nat, k: nat)
    ensures ShiftLeft(a + b, k) == ShiftLeft(a, k) + ShiftLeft(b, k)
    ensures ShiftLeft(1, k) == Pow2(k)
  {
    if k > 0 {
      ShiftLeftAdds(a, b, k - 1);
    }
  }

  /** The mask that keeps one more bit, taken apart at the lowest bit. */
  lemma MaskStep(a: nat, k: nat)
    requires k > 0
    ensures And(a, Pow2(k) - 1) == 2 * And(a / 2, Pow2(k - 1) - 1) + a % 2
  {
    var p := Pow2(k - 1);
    assert (2 * p - 1) / 2 == p - 1 && (2 * p - 1) % 2 == 1;
  }

  /** Masking with one less than a power of two and shifting by its logarithm split a number in two. */
  lemma {:induction false} MaskAndShift(a: nat, k: nat)
    ensures a == ShiftLeft(ShiftRight(a, k), k) + And(a, Pow2(k) - 1)
    ensures And(a, Pow2(k) - 1) < Pow2(k)
  {
    if k > 0 {
      MaskAndShift(a / 2, k - 1);
      MaskStep(a, k);
    }
  }

  /** One more bit in the mask either keeps the masked value or adds that bit to it. */
  lemma {:induction false} WiderMask(a: nat, k: nat)
    ensures var low, wide := And(a, Pow2(k) - 1), And(a, Pow2(k + 1) - 1); wide == low || wide == low + Pow2(k)
  {
    hide And;
    MaskStep(a, k + 1);
    if k > 0 {
      MaskStep(a, k);
      WiderMask(a / 2, k - 1);
    } else {
      NoMask(a);
      NoMask(a / 2);
    }
  }

  lemma NoMask(a: nat)
    ensures And(a, Pow2(0) - 1) == 0
  {
  }

  /** The shift-and-mask form of a division rounded up. */
  function CeilShift(a: nat, k: nat): nat {
    ShiftRight(a, k) + (if And(a, Pow2(k) - 1) != 0 then 1 else 0)
  }

  lemma CeilShiftIsCeiling(a: nat, k: nat, c: nat)
    ensures CeilShift(a, k) <= c <==> a <= ShiftLeft(c, k)
  {
    MaskAndShift(a, k);
    var s := ShiftRight(a, k);
    if c < s {
      ShiftLeftAdds(c + 1, s - c - 1, k);
      ShiftLeftAdds(c, 1, k);
    } else {
      ShiftLeftAdds(s, c - s, k);
      if c > s {
        ShiftLeftAdds(1, c - s - 1, k);
      }
    }
  }

  /** The shift and the mask round the quotient by a power of two up. */
  lemma CeilShiftRoundsUp(a: nat, k: nat)
    requires a > 0
    ensures (CeilShift(a, k) - 1) * Pow2(k) < a <= CeilShift(a, k) * Pow2(k)
  {
    hide CeilShift;
    var c := CeilShift(a, k);
    CeilShiftPositive(a, k);
    CeilShiftIsCeiling(a, k, c);
    CeilShiftIsCeiling(a, k, c - 1);
    ShiftLeftIsTimes(c, k);
    ShiftLeftIsTimes(c - 1, k);
  }

  lemma ShiftOnce(a: nat)
    ensures ShiftRight(a, 1) == a / 2
  {
    assert ShiftRight(a / 2, 0) == a / 2;
  }

  lemma CeilShiftPositive(a: nat, k: nat)
    requires a > 0
    ensures CeilShift(a, k) > 0
  {
    CeilShiftIsCeiling(a, k, 0);
    ShiftLeftIsTimes(0, k);
  }
}
