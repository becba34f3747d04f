/** Division and remainder of unsigned values. */
module Division {
  /** The remainder of a division, by repeated subtraction. */
  function Remainder(a: nat, n: nat): (r: nat)
    requires n > 0
    ensures r < n
  {
    if a < n then a else Remainder(a - n, n)
  }

  lemma {:induction false} RemainderIsMod(a: nat, n: nat)
    requires n > 0
    ensures Remainder(a, n) == a % n
  {
    if a >= n {
      RemainderIsMod(a - n, n);
      ModStep(a - n, n);
    }
  }

  lemma ModStep(b: nat, n: nat)
    requires n > 0
    ensures (b + n) % n == b % n
  {
    var q, r := b / n, b % n;
    assert b == n * q + r;
    assert b + n == n * (q + 1) + r;
    QuotientIsUnique(b + n, n, q + 1, r);
  }

  lemma QuotientIsUnique(a: nat, n: nat, q: nat, r: nat)
    requires n > 0 && r < n && a == n * q + r
    ensures a % n == r && a / n == q
  {
    var d := a / n - q;
    assert n * d == r - a % n;
    assert d == 0 by {
      assert d >= 1 ==> n * d >= n;
      assert d <= -1 ==> n * d <= 0 - n;
    }
  }

  /** The quotient of a division, by repeated subtraction. */
  function Quotient(a: nat, n: nat): nat
    requires n > 0
  {
    if a < n then 0 else 1 + Quotient(a - n, n)
  }

  lemma {:induction false} QuotientRemainder(a: nat, n: nat)
    requires n > 0
    ensures a == Quotient(a, n) * n + Remainder(a, n)
  {
    if a >= n {
      QuotientRemainder(a - n, n);
      assert (Quotient(a - n, n) + 1) * n == Quotient(a - n, n) * n + n;
    }
  }

  lemma QuotientIsDiv(a: nat, n: nat)
    requires n > 0
    ensures Quotient(a, n) == a / n
  {
    QuotientRemainder(a, n);
    QuotientIsUnique(a, n, Quotient(a, n), Remainder(a, n));
  }

  lemma {:induction false} QuotientMonotone(a: nat, b: nat, n: nat)
    requires n > 0 && a <= b
    ensures Quotient(a, n) <= Quotient(b, n)
  {
    if a >= n {
      QuotientMonotone(a - n, b - n, n);
    }
  }

  /** A quotient is below a bound exactly when the dividend is below the bound times the divisor. */
  lemma {:induction false} QuotientBelow(a: nat, m: nat, n: nat)
    requires n > 0
    ensures Quotient(a, n) < m <==> a < m * n
  {
    if m > 0 {
      assert m * n == (m - 1) * n + n;
      if a >= n {
        QuotientBelow(a - n, m - 1, n);
      }
    } 
  }

  /** Fewer than n consecutive steps never come back to the same remainder. */
  lemma {:induction false} RemaindersDiffer(a: nat, d: nat, n: nat)
    requires 0 < d < n
    ensures Remainder(a, n) != Remainder(a + d, n)
  {
    if a >= n {
      RemaindersDiffer(a - n, d, n);
    }
  }

  lemma {:induction false} MultipleHasNoRemainder(q: nat, n: nat)
    requires n > 0
    ensures Remainder(q * n, n) == 0 && Quotient(q * n, n) == q
  {
    if q > 0 {
      assert q * n == (q - 1) * n + n;
      MultipleHasNoRemainder(q - 1, n);
    }
  }
}
