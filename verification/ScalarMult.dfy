/** Multiples of group elements by 256-bit scalars, as the curve code computes them. */
module ScalarMult {
  import opened Bytes
  import opened Groups
  import opened Recoding
  import Arith
  import Binary

  // ---------- a * A + b * B ----------

  /** The odd multiples 1, 3, ..., 15 of p. */
  ghost predicate IsOddTable<T(!new)>(g: Group<T>, p: T, t: seq<T>) {
    |t| == 8 && forall k :: 0 <= k < 8 ==> t[k] == g.Multiple(2 * k + 1, p)
  }

  method OddMultiples<T(!new)>(g: Group<T>, A: T) returns (Ai: seq<T>)
    requires g.Lawful()
    ensures IsOddTable(g, A, Ai)
  {
    hide g.Multiple, g.Lawful;
    var A2 := g.add(A, A);
    g.Few(A);
    Ai := [A];
    NextOdd(g, A, 1);
    Ai := Ai + [g.add(A2, Ai[0])];
    NextOdd(g, A, 3);
    Ai := Ai + [g.add(A2, Ai[1])];
    NextOdd(g, A, 5);
    Ai := Ai + [g.add(A2, Ai[2])];
    NextOdd(g, A, 7);
    Ai := Ai + [g.add(A2, Ai[3])];
    NextOdd(g, A, 9);
    Ai := Ai + [g.add(A2, Ai[4])];
    NextOdd(g, A, 11);
    Ai := Ai + [g.add(A2, Ai[5])];
    NextOdd(g, A, 13);
    Ai := Ai + [g.add(A2, Ai[6])];
  }

  lemma NextOdd<T(!new)>(g: Group<T>, p: T, n: int)
    requires g.Lawful()
    ensures g.add(g.add(p, p), g.Multiple(n, p)) == g.Multiple(n + 2, p)
  {
    hide g.Multiple, g.Lawful;
    g.Few(p);
    g.MultipleAdd(2, n, p);
  }

  /** Adds the multiple that a signed digit asks for, from the table. */
  method AddDigit<T(!new)>(g: Group<T>, t: T, d: schar, table: seq<T>, ghost p: T) returns (u: T)
    requires g.Lawful() && IsOddTable(g, p, table) && Digit(d)
    ensures u == g.add(t, g.Multiple(d, p))
  {
    hide g.Lawful;
    if d > 0 {
      u := g.add(t, table[d / 2]);
    } else if d < 0 {
      u := g.add(t, g.neg(table[-d / 2]));
      g.MultipleNeg(-d, p);
    } else {
      u := t;
      g.Laws(t, t, t);
    }
  }

  /** n * p + m * q. */
  ghost function Both<T(!new)>(g: Group<T>, n: int, p: T, m: int, q: T): T {
    g.add(g.Multiple(n, p), g.Multiple(m, q))
  }

  lemma Doubled<T(!new)>(g: Group<T>, n: int, p: T, m: int, q: T, d: int, e: int)
    requires g.Lawful()
    ensures var r := Both(g, n, p, m, q);
            g.add(g.add(g.add(r, r), g.Multiple(d, p)), g.Multiple(e, q)) == Both(g, d + 2 * n, p, e + 2 * m, q)
  {
    hide g.Multiple, g.Lawful;
    var np, mq, dp, eq := g.Multiple(n, p), g.Multiple(m, q), g.Multiple(d, p), g.Multiple(e, q);
    g.Shuffle(np, mq, np, mq);
    g.MultipleAdd(n, n, p);
    g.MultipleAdd(m, m, q);
    var n2, m2 := g.add(np, np), g.add(mq, mq);
    g.Laws(g.add(n2, m2), dp, eq);
    g.Shuffle(n2, m2, dp, eq);
    g.MultipleAdd(n + n, d, p);
    g.MultipleAdd(m + m, e, q);
  }

  lemma Digits2(s: seq<int>, i: nat)
    requires i < |s|
    ensures Number(s[i..], 2) == s[i] + 2 * Number(s[i + 1..], 2)
  {
    assert s[i..][1..] == s[i + 1..];
  }

  /** r is what the digits above i contribute. */
  ghost predicate Evaluated<T(!new)>(g: Group<T>, s: seq<int>, A: T, t: seq<int>, B: T, i: int, r: T) {
    && |s| == |t| == 256 && -1 <= i <= 255
    && r == Both(g, Number(s[i + 1..], 2), A, Number(t[i + 1..], 2), B)
  }

  lemma NothingAbove<T(!new)>(g: Group<T>, s: seq<int>, A: T, t: seq<int>, B: T, i: int)
    requires g.Lawful() && |s| == |t| == 256 && -1 <= i <= 255
    requires forall j :: i < j < 256 ==> s[j] == 0 && t[j] == 0
    ensures Evaluated(g, s, A, t, B, i, g.zero)
  {
    hide g.Lawful;
    Zeros(s[i + 1..], 2);
    Zeros(t[i + 1..], 2);
    g.None(A);
    g.None(B);
    g.Laws(g.zero, g.zero, g.zero);
  }

  lemma OneMore<T(!new)>(g: Group<T>, s: seq<int>, A: T, t: seq<int>, B: T, i: nat, r: T)
    requires g.Lawful() && Evaluated(g, s, A, t, B, i, r)
    ensures Evaluated(g, s, A, t, B, i - 1, g.add(g.add(g.add(r, r), g.Multiple(s[i], A)), g.Multiple(t[i], B)))
  {
    hide g.Lawful, g.Multiple, Number;
    Digits2(s, i);
    Digits2(t, i);
    Doubled(g, Number(s[i + 1..], 2), A, Number(t[i + 1..], 2), B, s[i], t[i]);
  }

  lemma AllDigits<T(!new)>(g: Group<T>, s: seq<int>, a: seq<byte>, A: T, t: seq<int>, b: seq<byte>, B: T, r: T)
    requires IsSlide(s, a) && IsSlide(t, b) && Evaluated(g, s, A, t, B, -1, r)
    ensures r == g.add(g.Multiple(Binary.LeVal(a), A), g.Multiple(Binary.LeVal(b), B))
  {
    hide g.Multiple, Number;
    assert s[0..] == s && t[0..] == t;
  }

  lemma SlideDigits(s: seq<int>, a: seq<byte>)
    requires IsSlide(s, a)
    ensures |s| == 256 && forall i :: 0 <= i < 256 ==> Digit(s[i])
  {
  }

  /** ge_double_scalarmult_vartime, given the table of odd multiples of B. */
  method DoubleScalarMult<T(!new)>(g: Group<T>, a: seq<byte>, A: T, b: seq<byte>, ghost B: T, Bi: seq<T>) returns (r: T)
    requires g.Lawful() && |a| == |b| == 32 && a[31] < 128 && b[31] < 128 && IsOddTable(g, B, Bi)
    ensures r == g.add(g.Multiple(Binary.LeVal(a), A), g.Multiple(Binary.LeVal(b), B))
  {
    hide g.Multiple, g.Lawful, IsOddTable, IsSlide, Digit, Evaluated, Binary.LeVal;
    var aslide := new schar[256];
    var bslide := new schar[256];
    Slide(aslide, a);
    Slide(bslide, b);
    ghost var s, t := aslide[..], bslide[..];
    SlideDigits(s, a);
    SlideDigits(t, b);
    var Ai := OddMultiples(g, A);
    r := g.zero;
    var i := 255;
    while i >= 0
      invariant -1 <= i <= 255
      invariant forall j :: i < j < 256 ==> s[j] == 0 && t[j] == 0
      invariant aslide[..] == s && bslide[..] == t
    {
      if aslide[i] != 0 || bslide[i] != 0 { break; }
      i := i - 1;
    }
    NothingAbove(g, s, A, t, B, i);
    while i >= 0
      invariant -1 <= i <= 255 && Evaluated(g, s, A, t, B, i, r)
      invariant aslide[..] == s && bslide[..] == t
    {
      assert Digit(s[i]) && Digit(t[i]);
      OneMore(g, s, A, t, B, i, r);
      var u := g.add(r, r);
      u := AddDigit(g, u, aslide[i], Ai, A);
      r := AddDigit(g, u, bslide[i], Bi, B);
      i := i - 1;
    }
    AllDigits(g, s, a, A, t, b, B, r);
  }

  // ---------- a * B ----------

  /** 256 to the n. */
  ghost function Weight(n: nat): nat { Pow(256, n) }

  /** base[pos][j] is (j + 1) * 256^pos * B. */
  ghost predicate IsBaseTable<T(!new)>(g: Group<T>, B: T, base: seq<seq<T>>) {
    && |base| == 32
    && forall pos :: 0 <= pos < 32 ==> IsBaseRow(g, B, base[pos], pos)
  }

  ghost predicate IsBaseRow<T(!new)>(g: Group<T>, B: T, row: seq<T>, pos: nat) {
    |row| == 8 && forall j :: 0 <= j < 8 ==> row[j] == g.Multiple((j + 1) * Weight(pos), B)
  }

  const TWO63: nat := 0x8000_0000_0000_0000
  const TWO64: nat := 0x1_0000_0000_0000_0000

  /** The conversion of a signed char to an unsigned one. */
  lemma Unsigned(b: schar)
    ensures b % 256 == if b < 0 then b + 256 else b
  {
    Arith.DivUnique(b, 256, if b < 0 then -1 else 0, if b < 0 then b + 256 else b);
  }

  /** The top bit of a small number in 64 bits is its sign. */
  lemma TopBit(x: int)
    requires -256 <= x < 256
    ensures x % TWO64 / TWO63 == if x < 0 then 1 else 0
  {
    if x < 0 {
      Arith.DivUnique(x, TWO64, -1, x + TWO64);
      Arith.DivUnique(x + TWO64, TWO63, 1, x + TWO63);
    } else {
      Arith.DivUnique(x, TWO64, 0, x);
      Arith.DivUnique(x, TWO63, 0, x);
    }
  }

  /** equal: the borrow of a 64-bit subtraction of 1 from the bytes' exclusive or. */
  function Equal(b: schar, c: schar): (r: int)
    ensures r == if b == c then 1 else 0
  {
    Unsigned(b);
    Unsigned(c);
    var ub: int, uc: int := b % 256, c % 256;
    var x: int := Binary.Xor(ub, uc);
    TopBit(x - 1);
    (x - 1) % TWO64 / TWO63
  }

  /** negative: the top bit of the byte, sign-extended to 64 bits. */
  function Negative(b: schar): (r: int)
    ensures r == if b < 0 then 1 else 0
  {
    TopBit(b);
    b % TWO64 / TWO63
  }

  /** cmov. */
  function Cmov<T>(t: T, u: T, b: int): T {
    if b == 1 then u else t
  }

  /** select: b * 256^pos * B, by conditional moves over the whole row. */
  method Select<T(!new)>(g: Group<T>, base: seq<seq<T>>, pos: nat, b: schar, ghost B: T) returns (t: T)
    requires g.Lawful() && IsBaseTable(g, B, base) && pos < 32 && -8 <= b <= 8
    ensures t == g.Multiple(b * Weight(pos), B)
  {
    hide g.Lawful, g.Multiple, Weight, Equal, Negative;
    var bnegative := Negative(b);
    var babs: schar := b - 2 * (if bnegative == 1 then b else 0);
    var row := base[pos];
    assert IsBaseRow(g, B, row, pos);
    t := g.zero;
    t := Cmov(t, row[0], Equal(babs, 1));
    t := Cmov(t, row[1], Equal(babs, 2));
    t := Cmov(t, row[2], Equal(babs, 3));
    t := Cmov(t, row[3], Equal(babs, 4));
    t := Cmov(t, row[4], Equal(babs, 5));
    t := Cmov(t, row[5], Equal(babs, 6));
    t := Cmov(t, row[6], Equal(babs, 7));
    t := Cmov(t, row[7], Equal(babs, 8));
    g.None(B);
    assert t == g.Multiple(babs * Weight(pos), B) by {
      if babs > 0 {
        assert t == row[babs - 1];
      } else {
        assert 0 * Weight(pos) == 0;
      }
    }
    g.MultipleNeg(babs * Weight(pos), B);
    var minust := g.neg(t);
    t := Cmov(t, minust, bnegative);
    Negated(babs, Weight(pos));
  }

  lemma Negated(x: int, w: int)
    ensures -(x * w) == -x * w
  {
  }

  /** What the digits below n at positions of the given parity contribute, in units of 256^(i / 2). */
  ghost function Alternate(e: seq<int>, n: nat, odd: nat): int
    requires n <= |e|
  {
    if n == 0 then 0
    else if (n - 1) % 2 == odd then Alternate(e, n - 1, odd) + e[n - 1] * Weight((n - 1) / 2)
    else Alternate(e, n - 1, odd)
  }

  lemma {:induction false} Alternating(e: seq<int>, n: nat)
    requires n <= |e|
    ensures Number(e[..n], 16) == Alternate(e, n, 0) + 16 * Alternate(e, n, 1)
  {
    if n > 0 {
      var t := e[..n];
      Alternating(e, n - 1);
      Cut(t, 16, n - 1);
      assert t[..n - 1] == e[..n - 1] && t[n - 1..] == [e[n - 1]];
      assert Number([e[n - 1]], 16) == e[n - 1];
      Pow16(n - 1);
      Commute(e[n - 1], Weight((n - 1) / 2));
    }
  }

  lemma Commute(x: int, w: int)
    ensures w * x == x * w && (16 * w) * x == 16 * (x * w)
  {
  }

  lemma {:induction false} Pow16(n: nat)
    ensures Pow(16, n) == if n % 2 == 0 then Weight(n / 2) else 16 * Weight(n / 2)
  {
    if n >= 2 {
      Pow16(n - 2);
      assert n / 2 == (n - 2) / 2 + 1;
      assert Pow(16, n) == 16 * Pow(16, n - 1) && Pow(16, n - 1) == 16 * Pow(16, n - 2);
      assert Weight(n / 2) == 256 * Weight((n - 2) / 2);
    } else if n == 1 {
      assert Pow(16, 1) == 16 * Pow(16, 0);
    }
  }

  lemma Twofold<T(!new)>(g: Group<T>, n: int, B: T)
    requires g.Lawful()
    ensures g.add(g.Multiple(n, B), g.Multiple(n, B)) == g.Multiple(2 * n, B)
  {
    hide g.Lawful, g.Multiple;
    g.MultipleAdd(n, n, B);
  }

  /** The four doublings between the two passes. */
  method Sixteenfold<T(!new)>(g: Group<T>, h: T, ghost n: int, ghost B: T) returns (r: T)
    requires g.Lawful() && h == g.Multiple(n, B)
    ensures r == g.Multiple(16 * n, B)
  {
    hide g.Lawful, g.Multiple;
    Twofold(g, n, B);
    r := g.add(h, h);
    Twofold(g, 2 * n, B);
    r := g.add(r, r);
    Twofold(g, 4 * n, B);
    r := g.add(r, r);
    Twofold(g, 8 * n, B);
    r := g.add(r, r);
  }

  /** ge_scalarmult_base, given its table. */
  method ScalarMultBase<T(!new)>(g: Group<T>, base: seq<seq<T>>, ghost B: T, a: seq<byte>) returns (h: T)
    requires g.Lawful() && IsBaseTable(g, B, base) && |a| == 32 && a[31] <= 127
    ensures h == g.Multiple(Binary.LeVal(a), B)
  {
    hide g.Lawful, g.Multiple, IsBaseTable, Number, Weight, Alternate;
    var e := new schar[64];
    Radix16(e, a);
    ghost var s := e[..];
    h := g.zero;
    g.None(B);
    AlternateNone(s);
    var i := 1;
    while i < 64
      invariant 1 <= i <= 65 && i % 2 == 1 && e[..] == s
      invariant h == g.Multiple(Alternate(s, i - 1, 1), B)
    {
      AlternateSkip(s, i - 1, 1);
      AlternateStep(g, s, i, 1, 0, B);
      var t := Select(g, base, i / 2, e[i], B);
      h := g.add(h, t);
      i := i + 2;
    }
    ghost var n := Alternate(s, 64, 1);
    h := Sixteenfold(g, h, n, B);
    i := 0;
    while i < 64
      invariant 0 <= i <= 64 && i % 2 == 0 && e[..] == s
      invariant h == g.Multiple(16 * n + Alternate(s, i, 0), B)
    {
      AlternateSkip(s, i + 1, 0);
      var t := Select(g, base, i / 2, e[i], B);
      AlternateStep(g, s, i, 0, 16 * n, B);
      h := g.add(h, t);
      i := i + 2;
    }
    Alternating(s, 64);
    assert s[..64] == s;
  }

  lemma AlternateNone(e: seq<int>)
    ensures Alternate(e, 0, 0) == 0 && Alternate(e, 0, 1) == 0
  {
  }

  lemma AlternateSkip(e: seq<int>, i: nat, odd: nat)
    requires i < |e| && odd < 2 && i % 2 != odd
    ensures Alternate(e, i + 1, odd) == Alternate(e, i, odd)
  {
  }

  lemma AlternateStep<T(!new)>(g: Group<T>, e: seq<int>, i: nat, odd: nat, n: int, B: T)
    requires g.Lawful() && i % 2 == odd && i < |e|
    ensures g.add(g.Multiple(n + Alternate(e, i, odd), B), g.Multiple(e[i] * Weight(i / 2), B)) == g.Multiple(n + Alternate(e, i + 1, odd), B)
  {
    hide g.Lawful, g.Multiple, Weight;
    g.MultipleAdd(n + Alternate(e, i, odd), e[i] * Weight(i / 2), B);
  }
}
