/** The few facts about division that sizes and alignments need. */
module DivMod {

  lemma MulSign(a: int, m: int)
    requires 0 < m
    ensures 0 < a ==> m <= a * m
    ensures a < 0 ==> a * m <= -m
    ensures a == 0 ==> a * m == 0
  {
  }

  /** Quotient and remainder are unique. */
  lemma DivModUnique(x: int, m: int, q: int, r: int)
    requires 0 < m && x == q * m + r && 0 <= r < m
    ensures x / m == q && x % m == r
  {
    MulSign(x / m - q, m);
    assert (x / m - q) * m == x / m * m - q * m;
  }

  lemma ModAddMultiple(a: int, b: int, m: int)
    requires 0 < m && b % m == 0
    ensures (a + b) % m == a % m
  {
    DivModUnique(a + b, m, a / m + b / m, a % m);
  }

  lemma MulMonotone(a: int, b: int, m: nat)
    requires a <= b
    ensures a * m <= b * m
  {
    assert (b - a) * m >= 0;
  }

  lemma LessByProduct(a: int, b: int, m: int)
    requires 0 < m && a * m < b * m
    ensures a < b
  {
    if b <= a {
      MulMonotone(b, a, m);
    }
  }

  lemma DivBounds(x: nat, m: nat)
    requires 0 < m
    ensures x / m * m <= x < (x / m + 1) * m
  {
    assert (x / m + 1) * m == x / m * m + m;
  }

  lemma CeilBounds(x: nat, m: nat)
    requires 0 < m
    ensures ((x + m - 1) / m - 1) * m < x <= (x + m - 1) / m * m
  {
    DivBounds(x + m - 1, m);
    assert ((x + m - 1) / m - 1) * m == (x + m - 1) / m * m - m;
  }
}
