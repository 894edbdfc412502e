/** Division facts with a variable divisor. */
module Arithmetic {

  lemma DivMod(n: nat, unit: nat)
    requires unit > 0
    ensures n == unit * (n / unit) + n % unit && 0 <= n % unit < unit
  {
  }

  lemma Product(unit: int, d: int)
    requires unit > 0
    ensures d >= 1 ==> unit * d >= unit
    ensures d <= -1 ==> unit * d <= -unit
  {
  }

  lemma QuotientIsUnique(n: nat, unit: nat, q: nat, r: nat)
    requires unit > 0 && n == unit * q + r && r < unit
    ensures n / unit == q && n % unit == r
  {
    DivMod(n, unit);
    var d := n / unit - q;
    assert unit * d == unit * (n / unit) - unit * q;
    Product(unit, d);
  }

  lemma MultipleMod(k: nat, unit: nat)
    requires unit > 0
    ensures (unit * k) % unit == 0
  {
    QuotientIsUnique(unit * k, unit, k, 0);
  }

  lemma SumOfMultiples(a: nat, b: nat, unit: nat)
    requires unit > 0 && a % unit == 0 && b % unit == 0
    ensures (a + b) % unit == 0
  {
    DivMod(a, unit);
    DivMod(b, unit);
    assert a + b == unit * (a / unit + b / unit);
    MultipleMod(a / unit + b / unit, unit);
  }

  /** A multiple that is less than one unit above another one is not above it. */
  lemma NearMultiples(a: nat, b: nat, unit: nat)
    requires unit > 0 && a % unit == 0 && b % unit == 0 && a < b + unit
    ensures a <= b
  {
    DivMod(a, unit);
    DivMod(b, unit);
    var d := a / unit - b / unit;
    assert unit * d == unit * (a / unit) - unit * (b / unit);
    Product(unit, d - 1);
    assert unit * (d - 1) == unit * d - unit;
  }
}
