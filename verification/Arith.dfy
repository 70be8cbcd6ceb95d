/** Division and multiplication facts that need a hint. */
module Arith {
  lemma MulMonotone(d: int, a: int, b: int)
    requires d >= 0 && a <= b
    ensures d * a <= d * b
  {
  }

  lemma SmallMultiple(d: int, k: int)
    requires d > 0 && -d < d * k && d * k < d
    ensures k == 0
  {
    if k >= 1 {
      MulMonotone(d, 1, k);
    } else if k <= -1 {
      MulMonotone(d, k, -1);
    }
  }

  lemma DivUnique(x: int, d: nat, q: int, r: nat)
    requires d > 0 && x == d * q + r && r < d
    ensures x / d == q && x % d == r
  {
    var q', r' := x / d, x % d;
    assert x == d * q' + r';
    assert d * (q - q') == r' - r;
    SmallMultiple(d, q - q');
  }

  lemma DivMul(x: nat, a: nat, b: nat)
    requires a > 0 && b > 0
    ensures x / (a * b) == x / a / b
  {
    var q, r := x / a, x % a;
    var q2, r2 := q / b, q % b;
    Regroup(x, a, b, q, r, q2, r2);
    DivUnique(x, a * b, q2, a * r2 + r);
  }

  lemma Regroup(x: int, a: int, b: int, q: int, r: int, q2: int, r2: int)
    requires x == a * q + r && q == b * q2 + r2 && 0 <= r < a && 0 <= r2 < b
    ensures a * b > 0 && x == (a * b) * q2 + (a * r2 + r) && 0 <= a * r2 + r < a * b
  {
    MulMonotone(a, 0, r2);
    MulMonotone(a, r2, b - 1);
  }

  lemma Assoc(a: int, b: int, c: int)
    ensures a * (b * c) == (a * b) * c
  {
  }

  lemma Rotate(d: int, m: int, p: int)
    ensures m * (d * p) == d * (m * p)
  {
  }

  lemma Distribute(p: int, x: int, y: int)
    ensures p * (x + y) == p * x + p * y
  {
  }

  lemma MulNat(a: nat, b: nat)
    ensures a * b >= 0
  {
  }

  lemma DivNat(x: nat, d: nat)
    requires d > 0
    ensures x / d >= 0 && 0 <= x % d < d && x == d * (x / d) + x % d
  {
  }

  lemma ModAdd(x: nat, d: nat, m: nat)
    requires d < m
    ensures (x % m + d) % m == (x + d) % m
  {
    DivNat(x, m);
    var q, r := x / m, x % m;
    Distribute(m, q, 1);
    if r + d < m {
      DivUnique(r + d, m, 0, r + d);
      DivUnique(x + d, m, q, r + d);
    } else {
      DivUnique(r + d, m, 1, r + d - m);
      DivUnique(x + d, m, q + 1, r + d - m);
    }
  }
}
