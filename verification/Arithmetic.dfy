// Facts about multiples that the solver does not find by itself.

module Arithmetic {

  // No multiple of `unit` but zero lies strictly between -unit and unit.
  lemma MulBounds(k: int, unit: nat)
    ensures k >= 1 ==> k * unit >= unit
    ensures k <= -1 ==> k * unit + unit <= 0
    ensures k == 0 ==> k * unit == 0
  {
    if k >= 1 {
      assert k * unit == unit + (k - 1) * unit && (k - 1) * unit >= 0;
    } else if k <= -1 {
      assert k * unit + unit == (k + 1) * unit && (k + 1) * unit <= 0;
    }
  }

  // Quotient and remainder are unique.
  lemma DivModUnique(x: nat, unit: nat, q: int, r: nat)
    requires unit > 0 && x == q * unit + r && r < unit
    ensures x / unit == q && x % unit == r
  {
    assert x == x / unit * unit + x % unit;
    assert (q - x / unit) * unit == x % unit - r;
    MulBounds(q - x / unit, unit);
  }

  // The remainder, with what it is bounded by.
  function Remainder(x: nat, unit: nat): (r: nat)
    requires unit > 0
    ensures r < unit && r <= x
  {
    MulBounds(x / unit, unit);
    assert x == x / unit * unit + x % unit;
    x % unit
  }

  // The next whole number of four-byte words.
  function RoundUp4(n: nat): (m: nat)
    ensures n <= m < n + 4 && m % 4 == 0
    ensures n % 4 == 0 ==> m == n
  {
    (n + 3) / 4 * 4
  }
}
