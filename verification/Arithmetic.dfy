/** Products, quotients and residues. */
module Arithmetic {
  function Min(a: nat, b: nat): nat { if a <= b then a else b }

  function Max(a: int, b: int): int { if a < b then b else a }

  lemma ProductOrder(m: nat, a: int, b: int)
    requires a <= b
    ensures m * a <= m * b
  {
  }

  lemma DivisionBounds(x: nat, m: nat)
    requires m > 0
    ensures m * (x / m) <= x < m * (x / m) + m
  {
  }

  lemma Distribute(m: int, a: int, b: int)
    ensures m * (a - b) == m * a - m * b && m * a == a * m
  {
  }

  lemma ModDifference(a: int, b: int, m: nat)
    requires m > 0
    ensures (a % m - b % m) % m == (a - b) % m
  {
    SameResidue(a % m - b % m, a - b, b / m - a / m, m);
  }

  lemma ModSum(a: int, b: int, m: nat)
    requires m > 0
    ensures (a % m + b) % m == (a + b) % m
  {
    SameResidue(a % m + b, a + b, -(a / m), m);
  }

  lemma SameResidue(x: int, y: int, k: int, m: nat)
    requires m > 0 && x == y + k * m
    ensures x % m == y % m
  {
    var d := x / m - y / m - k;
    assert x == m * (x / m) + x % m && y == m * (y / m) + y % m;
    assert m * d == y % m - x % m by {
      assert m * d == m * (x / m) - m * (y / m) - m * k;
    }
    if d > 0 { ProductOrder(m, 1, d); }
    if d < 0 { ProductOrder(m, d, -1); }
  }

  lemma SmallMod(x: nat, m: nat)
    requires x < m
    ensures x % m == x
  {
  }
}
