/** Congruence of integers. */
module Modular {
  import opened Arith

  ghost predicate Cong(a: int, b: int, m: nat)
    requires m > 0
  {
    (a - b) % m == 0
  }

  lemma MultipleOf(q: int, m: nat)
    requires m > 0
    ensures m * q % m == 0
  {
    var r := m * q % m;
    var d := m * q / m - q;
    assert m * d == -r;
    SmallMultiple(m, d);
  }

  lemma Quotient(a: int, b: int, m: nat) returns (q: int)
    requires m > 0 && Cong(a, b, m)
    ensures a - b == m * q
  {
    q := (a - b) / m;
  }

  /** A difference that is a multiple of m. */
  lemma CongBy(a: int, b: int, q: int, m: nat)
    requires m > 0 && a == b + q * m
    ensures Cong(a, b, m)
  {
    MultipleOf(q, m);
  }

  lemma CongTrans(a: int, b: int, c: int, m: nat)
    requires m > 0 && Cong(a, b, m) && Cong(b, c, m)
    ensures Cong(a, c, m)
  {
    var q := Quotient(a, b, m);
    var r := Quotient(b, c, m);
    Distribute(m, q, r);
    MultipleOf(q + r, m);
  }

  lemma CongStep(v: int, a: int, b: int, x: int, m: nat)
    requires m > 0 && Cong(v, a, m) && a == b + x * m
    ensures Cong(v, b, m)
  {
    CongBy(a, b, x, m);
    CongTrans(v, a, b, m);
  }

  lemma CongAdd(a: int, b: int, c: int, d: int, m: nat)
    requires m > 0 && Cong(a, b, m) && Cong(c, d, m)
    ensures Cong(a + c, b + d, m)
  {
    var q := Quotient(a, b, m);
    var r := Quotient(c, d, m);
    Distribute(m, q, r);
    MultipleOf(q + r, m);
  }

  lemma CongMul(a: int, b: int, c: int, d: int, m: nat)
    requires m > 0 && Cong(a, b, m) && Cong(c, d, m)
    ensures Cong(a * c, b * d, m)
  {
    var q := Quotient(a, b, m);
    var r := Quotient(c, d, m);
    assert a * c - b * d == (a - b) * c + b * (c - d);
    Assoc(m, q, c);
    Rotate(b, m, r);
    Distribute(m, q * c, b * r);
    MultipleOf(q * c + b * r, m);
  }

  /** The canonical representative. */
  lemma CongUnique(v: int, r: int, m: nat)
    requires m > 0 && Cong(v, r, m) && 0 <= r < m
    ensures r == v % m
  {
    var q := Quotient(v, r, m);
    var p := v / m;
    assert v == m * p + v % m;
    assert m * (q - p) == v % m - r;
    SmallMultiple(m, q - p);
  }

  lemma CongMod(v: int, w: int, m: nat)
    requires m > 0 && Cong(v, w, m)
    ensures v % m == w % m
  {
    assert w - w % m == m * (w / m);
    CongBy(w, w % m, w / m, m);
    CongTrans(v, w, w % m, m);
    CongUnique(v, w % m, m);
  }
}
