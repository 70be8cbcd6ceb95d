/** The power functions of the field: inversion and the exponent of square roots. */
module FieldPower {
  import opened Arith
  import opened Binary
  import opened Modular
  import opened Field

  ghost function Power(z: int, n: nat): int {
    if n == 0 then 1 else z * Power(z, n - 1)
  }

  lemma {:induction false} PowerAdd(z: int, m: nat, n: nat)
    ensures Power(z, m + n) == Power(z, m) * Power(z, n)
  {
    if m > 0 {
      PowerAdd(z, m - 1, n);
      assert m + n - 1 == m - 1 + n;
      Assoc(z, Power(z, m - 1), Power(z, n));
    }
  }

  /** h is congruent to the n-th power of z, within the bounds of a product. */
  ghost predicate IsPower(h: fe, z: int, n: nat) {
    Congruent(Power(z, n), Value(h)) && Within(h, LOOSE)
  }

  lemma TightIsLoose(h: fe)
    requires Within(h, TIGHT)
    ensures Within(h, LOOSE)
  {
  }

  /** fe_mul of two powers. */
  method MulPower(f: fe, g: fe, ghost z: int, ghost m: nat, ghost n: nat) returns (h: fe)
    requires IsPower(f, z, m) && IsPower(g, z, n)
    ensures IsPower(h, z, m + n) && Within(h, TIGHT)
  {
    hide Value, Power, Congruent, Within;
    h := Mul(f, g);
    PowerAdd(z, m, n);
    Product(Power(z, m), Value(f), Power(z, n), Value(g), Value(h));
    TightIsLoose(h);
  }

  lemma Product(a: int, b: int, c: int, d: int, e: int)
    requires Congruent(a, b) && Congruent(c, d) && Congruent(b * d, e)
    ensures Congruent(a * c, e)
  {
    CongMul(a, b, c, d, PRIME);
    CongTrans(a * c, b * d, e, PRIME);
  }

  /** fe_sq, count times: once, and then in the loop for (i = 1; i < count; ++i). */
  method SqTimes(f: fe, count: nat, ghost z: int, ghost n: nat) returns (h: fe)
    requires IsPower(f, z, n) && 0 < count
    ensures IsPower(h, z, n * P2(count)) && Within(h, TIGHT)
  {
    hide Power, IsPower, Within;
    h := SqPower(f, z, n);
    P2Steps();
    var i := 1;
    while i < count
      invariant 1 <= i <= count && IsPower(h, z, n * P2(i)) && Within(h, TIGHT)
    {
      h := SqPower(h, z, n * P2(i));
      P2Next(i);
      i := i + 1;
      assert n * P2(i) == 2 * (n * P2(i - 1));
    }
  }

  method SqPower(f: fe, ghost z: int, ghost n: nat) returns (h: fe)
    requires IsPower(f, z, n)
    ensures IsPower(h, z, 2 * n) && Within(h, TIGHT)
  {
    hide Value, Power, Congruent, Within;
    h := Sq(f);
    PowerAdd(z, n, n);
    Product(Power(z, n), Value(f), Power(z, n), Value(f), Value(h));
    TightIsLoose(h);
  }

  /** 2^m - 1 shifted by n, plus 2^n - 1. */
  lemma Ones(m: nat, n: nat)
    ensures (P2(m) - 1) * P2(n) + (P2(n) - 1) == P2(m + n) - 1
  {
    P2Add(m, n);
  }

  lemma First(f: fe)
    requires Within(f, LOOSE)
    ensures IsPower(f, Value(f), 1)
  {
    hide Value;
    assert Power(Value(f), 1) == Value(f) * Power(Value(f), 0);
    Itself(Value(f));
  }

  lemma Top()
    ensures P2(250) > 0 && (P2(250) - 1) * P2(5) + 11 == PRIME - 2 && (P2(250) - 1) * P2(2) + 1 == (PRIME - 5) / 8
  {
    Two255();
    P2Add(250, 5);
    P2Steps();
  }

  /** fe_invert: the power p - 2, which Fermat's theorem makes the inverse. */
  method Invert(z: fe) returns (out: fe)
    requires Within(z, LOOSE)
    ensures Congruent(Power(Value(z), PRIME - 2), Value(out)) && Within(out, TIGHT)
  {
    hide Value, Power, Congruent, Within, P2;
    ghost var v := Value(z);
    First(z);
    P2Steps();
    var t0 := SqPower(z, v, 1);
    var t1 := SqTimes(t0, 2, v, 2);
    t1 := MulPower(z, t1, v, 1, 8);
    t0 := MulPower(t0, t1, v, 2, 9);
    var t2 := SqPower(t0, v, 11);
    t1 := MulPower(t1, t2, v, 9, 22);
    t2 := SqTimes(t1, 5, v, P2(5) - 1);
    t1 := MulPower(t2, t1, v, (P2(5) - 1) * P2(5), P2(5) - 1);
    Ones(5, 5);
    t2 := SqTimes(t1, 10, v, P2(10) - 1);
    t2 := MulPower(t2, t1, v, (P2(10) - 1) * P2(10), P2(10) - 1);
    Ones(10, 10);
    var t3 := SqTimes(t2, 20, v, P2(20) - 1);
    t2 := MulPower(t3, t2, v, (P2(20) - 1) * P2(20), P2(20) - 1);
    Ones(20, 20);
    t2 := SqTimes(t2, 10, v, P2(40) - 1);
    t1 := MulPower(t2, t1, v, (P2(40) - 1) * P2(10), P2(10) - 1);
    Ones(40, 10);
    t2 := SqTimes(t1, 50, v, P2(50) - 1);
    t2 := MulPower(t2, t1, v, (P2(50) - 1) * P2(50), P2(50) - 1);
    Ones(50, 50);
    t3 := SqTimes(t2, 100, v, P2(100) - 1);
    t2 := MulPower(t3, t2, v, (P2(100) - 1) * P2(100), P2(100) - 1);
    Ones(100, 100);
    t2 := SqTimes(t2, 50, v, P2(200) - 1);
    t1 := MulPower(t2, t1, v, (P2(200) - 1) * P2(50), P2(50) - 1);
    Ones(200, 50);
    t1 := SqTimes(t1, 5, v, P2(250) - 1);
    Top();
    out := MulPower(t1, t0, v, (P2(250) - 1) * P2(5), 11);
  }

  /** fe_pow22523: the power (p - 5) / 8. */
  method Pow22523(z: fe) returns (out: fe)
    requires Within(z, LOOSE)
    ensures Congruent(Power(Value(z), (PRIME - 5) / 8), Value(out)) && Within(out, TIGHT)
  {
    hide Value, Power, Congruent, Within, P2;
    ghost var v := Value(z);
    First(z);
    P2Steps();
    var t0 := SqPower(z, v, 1);
    var t1 := SqTimes(t0, 2, v, 2);
    t1 := MulPower(z, t1, v, 1, 8);
    t0 := MulPower(t0, t1, v, 2, 9);
    t0 := SqPower(t0, v, 11);
    t0 := MulPower(t1, t0, v, 9, 22);
    t1 := SqTimes(t0, 5, v, P2(5) - 1);
    t0 := MulPower(t1, t0, v, (P2(5) - 1) * P2(5), P2(5) - 1);
    Ones(5, 5);
    t1 := SqTimes(t0, 10, v, P2(10) - 1);
    t1 := MulPower(t1, t0, v, (P2(10) - 1) * P2(10), P2(10) - 1);
    Ones(10, 10);
    var t2 := SqTimes(t1, 20, v, P2(20) - 1);
    t1 := MulPower(t2, t1, v, (P2(20) - 1) * P2(20), P2(20) - 1);
    Ones(20, 20);
    t1 := SqTimes(t1, 10, v, P2(40) - 1);
    t0 := MulPower(t1, t0, v, (P2(40) - 1) * P2(10), P2(10) - 1);
    Ones(40, 10);
    t1 := SqTimes(t0, 50, v, P2(50) - 1);
    t1 := MulPower(t1, t0, v, (P2(50) - 1) * P2(50), P2(50) - 1);
    Ones(50, 50);
    t2 := SqTimes(t1, 100, v, P2(100) - 1);
    t1 := MulPower(t2, t1, v, (P2(100) - 1) * P2(100), P2(100) - 1);
    Ones(100, 100);
    t1 := SqTimes(t1, 50, v, P2(200) - 1);
    t0 := MulPower(t1, t0, v, (P2(200) - 1) * P2(50), P2(50) - 1);
    Ones(200, 50);
    t0 := SqTimes(t0, 2, v, P2(250) - 1);
    Top();
    out := MulPower(t0, z, v, (P2(250) - 1) * P2(2), 1);
  }
}
