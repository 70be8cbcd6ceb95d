/** Arithmetic modulo 2^255 - 19 on ten limbs of alternately 26 and 25 bits. */
module Field {
  import opened Arith
  import opened Binary
  import opened Modular

  /** 2^255 - 19. */
  const PRIME: nat := 0x7fff_ffff_ffff_ffff_ffff_ffff_ffff_ffff_ffff_ffff_ffff_ffff_ffff_ffff_ffff_ffed

  type int32 = x: int64 | -0x8000_0000 <= x < 0x8000_0000

  /** Ten limbs in an intermediate step. */
  type wide = s: seq<int64> | |s| == 10 witness seq(10, _ => 0)

  type fe = s: seq<int32> | |s| == 10 witness seq(10, _ => 0)

  // ---------- values ----------

  /** The weight of limb k: 2 to the ceiling of 25.5 * k. */
  ghost function Weight(k: nat): (r: nat)
    ensures r > 0
  {
    P2((51 * k + 1) / 2)
  }

  /** What d counts in limb k. */
  ghost function At(d: int, k: nat): int {
    d * Weight(k)
  }

  /** What the first n limbs stand for. */
  ghost function Prefix(s: seq<int64>, n: nat): int
    requires n <= |s|
  {
    if n == 0 then 0 else Prefix(s, n - 1) + At(s[n - 1] as int, n - 1)
  }

  ghost function Value(s: wide): int {
    Prefix(s, 10)
  }

  ghost predicate Congruent(a: int, b: int) {
    Cong(a, b, PRIME)
  }

  lemma Itself(v: int)
    ensures Congruent(v, v)
  {
  }

  lemma Stepped(v: int, a: int, b: int, x: int)
    requires Congruent(v, a) && a == b + x * PRIME
    ensures Congruent(v, b)
  {
    CongStep(v, a, b, x, PRIME);
  }

  lemma {:induction false} Change(s: seq<int64>, i: nat, x: int64, n: nat)
    requires i < |s| && n <= |s|
    ensures Prefix(s[i := x], n) == Prefix(s, n) + if i < n then At(x as int - s[i] as int, i) else 0
  {
    hide Weight;
    if n > 0 {
      Change(s, i, x, n - 1);
      AtSub(x as int, s[i] as int, i);
    }
  }

  lemma AtSub(x: int, y: int, k: nat)
    ensures At(x - y, k) == At(x, k) - At(y, k)
  {
    hide Weight;
  }

  /** The weights of two limbs multiply to the weight of the sum of their indices, doubled when both are odd. */
  lemma WeightProduct(i: nat, j: nat)
    ensures Weight(i) * Weight(j) == (if i % 2 == 1 && j % 2 == 1 then 2 else 1) * Weight(i + j)
  {
    hide P2;
    var a, b, c := (51 * i + 1) / 2, (51 * j + 1) / 2, (51 * (i + j) + 1) / 2;
    P2Add(a, b);
    if i % 2 == 1 && j % 2 == 1 {
      assert a + b == c + 1;
      P2Next(c);
    } else {
      assert a + b == c;
    }
  }

  lemma TopWeight(k: nat)
    ensures Weight(k + 10) == (PRIME + 19) * Weight(k)
  {
    hide P2;
    WeightProduct(10, k);
    Two255();
  }

  lemma Two255()
    ensures P2(255) == PRIME + 19
  {
    hide P2;
    P2Table();
    P2Add(32, 32);
    P2Add(64, 64);
    P2Add(128, 64);
    P2Add(192, 32);
    P2Add(224, 24);
    P2Steps();
    P2Add(248, 7);
  }

  // ---------- carries ----------

  /** Limb i holds this many values: 2^26 when i is even, 2^25 when it is odd. */
  function Size(i: nat): int64 { if i % 2 == 0 then 0x400_0000 else 0x200_0000 }

  /** Where the carry of limb i goes. */
  function Next(i: nat): nat { if i == 9 then 0 else i + 1 }

  /** (x + half) >> 26 or 25. */
  function Excess(x: int64, i: nat, half: int64): int64
    requires Small(x, 0x7000_0000_0000_0000) && (half == 0 || half == Size(i) / 2)
  {
    if i % 2 == 0 then (x + half) / 0x400_0000 else (x + half) / 0x200_0000
  }

  /** c << 26 or 25. */
  function Shifted(c: int64, i: nat): int64
    requires Small(c, if i % 2 == 0 then 0x1F_FFFF_FFFF else 0x3F_FFFF_FFFF)
  {
    if i % 2 == 0 then c * 0x400_0000 else c * 0x200_0000
  }

  /** The excess fits, and what it leaves is in range. */
  lemma ExcessFits(x: int64, i: nat, half: int64)
    requires Small(x, 0x7000_0000_0000_0000) && (half == 0 || half == Size(i) / 2)
    ensures var c := Excess(x, i, half);
            && Small(c, if i % 2 == 0 then 0x1F_FFFF_FFFF else 0x3F_FFFF_FFFF)
            && x as int + half as int - Size(i) as int < Shifted(c, i) as int <= x as int + half as int
            && Shifted(c, i) as int == c as int * Size(i) as int
  {
  }

  predicate Small(x: int64, bound: int) {
    -bound <= x as int <= bound
  }

  /**
   * Moves what exceeds limb i to the next limb, or nineteenfold from limb 9 to limb 0; half is half the size to
   * round to nearest, 0 to round down. The ghost v is any number that the limbs are congruent to.
   */
  method Carry(h: wide, i: nat, half: int64, ghost v: int) returns (r: wide)
    requires i < 10 && (half == 0 || half == Size(i) / 2)
    requires Small(h[i], 0x7000_0000_0000_0000) && Small(h[Next(i)], 0x6000_0000_0000_0000)
    requires Congruent(v, Value(h))
    ensures Congruent(v, Value(r)) && (i < 9 ==> Value(r) == Value(h))
    ensures 0 <= r[i] as int + half as int < Size(i) as int
    ensures forall j :: 0 <= j < 10 && j != i && j != Next(i) ==> r[j] == h[j]
    ensures Carried(h[Next(i)], r[Next(i)], h[i], i)
  {
    hide Congruent, Prefix, At, Excess, Shifted, Carried;
    ExcessFits(h[i], i, half);
    var carry := Excess(h[i], i, half);
    if i < 9 {
      r := h[i + 1 := h[i + 1] + carry];
      Change(h, i + 1, h[i + 1] + carry, 10);
    } else {
      r := h[0 := h[0] + carry * 19];
      Change(h, 0, h[0] + carry * 19, 10);
    }
    var low := r[i] - Shifted(carry, i);
    Change(r, i, low, 10);
    r := r[i := low];
    CarryValue(carry as int, i);
    CarriedFits(h[Next(i)], r[Next(i)], h[i], i, half);
    if i == 9 {
      Stepped(v, Value(h), Value(r), carry as int);
    }
  }

  /** y is x with the carry of limb i, which was d. */
  ghost predicate Carried(x: int64, y: int64, d: int64, i: nat) {
    var c := y as int - x as int;
    if i == 9 then 19 * (d as int - 0x200_0000) <= 0x200_0000 * c <= 19 * (d as int + 0x200_0000)
    else if i % 2 == 1 then d as int - 0x200_0000 <= 0x200_0000 * c <= d as int + 0x200_0000
    else d as int - 0x400_0000 <= 0x400_0000 * c <= d as int + 0x400_0000
  }

  lemma CarriedFits(x: int64, y: int64, d: int64, i: nat, half: int64)
    requires Small(d, 0x7000_0000_0000_0000) && (half == 0 || half == Size(i) / 2)
    requires y as int == x as int + (if i == 9 then 19 else 1) * Excess(d, i, half) as int
    ensures Carried(x, y, d, i)
  {
  }

  lemma CarryValue(c: int, i: nat)
    requires i < 10
    ensures i < 9 ==> At(c, i + 1) + At(-(c * Size(i) as int), i) == 0
    ensures i == 9 ==> At(c * 19, 0) + At(-(c * Size(i) as int), i) == -(c * PRIME)
  {
    hide P2;
    SizeWeight(i);
    Assoc(c, Size(i) as int, Weight(i));
    if i == 9 {
      Two255();
      P2Steps();
    }
  }

  lemma SizeWeight(i: nat)
    ensures Size(i) as int * Weight(i) == Weight(i + 1)
  {
    hide P2;
    var a := (51 * i + 1) / 2;
    NextExponent(i);
    LimbSizes();
    P2Add(a, if i % 2 == 0 then 26 else 25);
  }

  lemma NextExponent(i: nat)
    ensures (51 * (i + 1) + 1) / 2 == (51 * i + 1) / 2 + (if i % 2 == 0 then 26 else 25)
  {
    var h := i / 2;
    if i % 2 == 0 {
      assert i == 2 * h;
      DivUnique(51 * i + 1, 2, 51 * h, 1);
      DivUnique(51 * i + 52, 2, 51 * h + 26, 0);
    } else {
      assert i == 2 * h + 1;
      DivUnique(51 * i + 1, 2, 51 * h + 26, 0);
      DivUnique(51 * i + 52, 2, 51 * h + 51, 1);
    }
  }

  lemma LimbSizes()
    ensures P2(25) == 0x200_0000 && P2(26) == 0x400_0000
  {
    hide P2;
    P2Table();
    P2Steps();
    P2Add(1, 24);
    P2Add(2, 24);
  }

  // ---------- products ----------

  /** Even limbs are at most b in magnitude, odd ones at most half of b. */
  predicate Within(s: wide, b: int) {
    && Small(s[0], b) && Small(s[1], b / 2) && Small(s[2], b) && Small(s[3], b / 2) && Small(s[4], b)
    && Small(s[5], b / 2) && Small(s[6], b) && Small(s[7], b / 2) && Small(s[8], b) && Small(s[9], b / 2)
  }

  lemma WithinAt(s: wide, b: int, i: nat)
    requires Within(s, b) && i < 10
    ensures Small(s[i], if i % 2 == 0 then b else b / 2)
  {
  }

  /** 1.65 * 2^26, what a multiplication takes. */
  const LOOSE: int := 110729625
  /** 1.01 * 2^25, what it returns. */
  const TIGHT: int := 33889976

  lemma ProductBound(x: int, y: int, a: int, b: int)
    requires -a <= x <= a && -b <= y <= b
    ensures -(a * b) <= x * y <= a * b
  {
    var m, n := if x < 0 then -x else x, if y < 0 then -y else y;
    MulMonotone(m, n, b);
    MulMonotone(b, m, a);
    assert x * y == m * n || x * y == -(m * n);
  }

  /** The product of limbs i and j, with a factor 2 when both are odd and 19 when it wraps around. */
  function Term(f: fe, g: fe, i: nat, j: nat): (r: int64)
    requires Within(f, LOOSE) && Within(g, LOOSE) && i < 10 && j < 10
    ensures Small(r, LOOSE * 19 * LOOSE)
  {
    WithinAt(f, LOOSE, i);
    WithinAt(g, LOOSE, j);
    var x: int32 := if i % 2 == 1 && j % 2 == 1 then 2 * f[i] else f[i];
    var y: int32 := if i + j >= 10 then 19 * g[j] else g[j];
    ProductBound(x as int, y as int, LOOSE, 19 * LOOSE);
    x * y
  }

  /** Limb k of the product: the products of limbs whose indices add up to k or k + 10. */
  function Limb(f: fe, g: fe, k: nat): (r: int64)
    requires Within(f, LOOSE) && Within(g, LOOSE) && k < 10
    ensures Small(r, 10 * (LOOSE * 19 * LOOSE))
  {
    Term(f, g, 0, k) + Term(f, g, 1, (k + 9) % 10) + Term(f, g, 2, (k + 8) % 10) + Term(f, g, 3, (k + 7) % 10)
    + Term(f, g, 4, (k + 6) % 10) + Term(f, g, 5, (k + 5) % 10) + Term(f, g, 6, (k + 4) % 10) + Term(f, g, 7, (k + 3) % 10)
    + Term(f, g, 8, (k + 2) % 10) + Term(f, g, 9, (k + 1) % 10)
  }

  function ProductLimbs(f: fe, g: fe): (r: wide)
    requires Within(f, LOOSE) && Within(g, LOOSE)
  {
    seq(10, k requires 0 <= k < 10 => Limb(f, g, k))
  }

  /** The products of limb i with the first m limbs of g, at their places. */
  ghost function Row(f: fe, g: fe, i: nat, m: nat): int
    requires Within(f, LOOSE) && Within(g, LOOSE) && i < 10 && m <= 10
  {
    if m == 0 then 0 else Row(f, g, i, m - 1) + At(Term(f, g, i, m - 1) as int, (i + m - 1) % 10)
  }

  lemma TermProduct(f: fe, g: fe, i: nat, j: nat)
    requires Within(f, LOOSE) && Within(g, LOOSE) && i < 10 && j < 10
    ensures var two := if i % 2 == 1 && j % 2 == 1 then 2 else 1;
            Term(f, g, i, j) as int == (if i + j >= 10 then 19 else 1) * (two * (f[i] as int * g[j] as int))
  {
    hide Within, Small;
  }

  lemma TermValue(f: fe, g: fe, i: nat, j: nat)
    requires Within(f, LOOSE) && Within(g, LOOSE) && i < 10 && j < 10
    ensures Congruent(At(Term(f, g, i, j) as int, (i + j) % 10), At(f[i] as int, i) * At(g[j] as int, j))
  {
    hide Weight, Term, Within;
    var x, y := f[i] as int, g[j] as int;
    var two := if i % 2 == 1 && j % 2 == 1 then 2 else 1;
    TermProduct(f, g, i, j);
    WeightProduct(i, j);
    Exchange(x, Weight(i), y, Weight(j));
    Scaled(x * y, two, i + j);
  }

  /** Behind the tenth limb, a weight is congruent to nineteen times the weight ten limbs lower. */
  lemma Scaled(z: int, two: int, k: nat)
    requires k < 20
    ensures Congruent(At((if k >= 10 then 19 else 1) * (two * z), k % 10), z * (two * Weight(k)))
  {
    hide Weight, Congruent;
    var w := Weight(k % 10);
    if k >= 10 {
      TopWeight(k - 10);
      ScaledTop(z, two, w);
    } else {
      Commuted(z, two, w);
      Itself(two * z * w);
    }
  }

  lemma ScaledTop(z: int, two: int, w: int)
    ensures Congruent(19 * (two * z) * w, z * (two * ((PRIME + 19) * w)))
  {
    Wrap(two, z, w);
    CongBy(19 * (two * z) * w, z * (two * ((PRIME + 19) * w)), -(two * z * w), PRIME);
  }

  lemma Commuted(z: int, two: int, w: int)
    ensures z * (two * w) == two * z * w == 1 * (two * z) * w
  {
    Assoc(z, two, w);
    assert z * two == two * z;
  }

  lemma Exchange(x: int, u: int, y: int, v: int)
    ensures (x * u) * (y * v) == (x * y) * (u * v)
  {
    Assoc(x * u, y, v);
    Assoc(x * y, u, v);
    assert x * u * y == x * y * u;
  }

  lemma Wrap(t: int, z: int, w: int)
    ensures 19 * (t * z) * w - z * (t * ((PRIME + 19) * w)) == -(t * z * w) * PRIME
  {
    var c := t * z * w;
    Assoc(z, t, (PRIME + 19) * w);
    assert z * t == t * z;
    Rotate(PRIME + 19, t * z, w);
    assert z * (t * ((PRIME + 19) * w)) == (PRIME + 19) * c;
    Assoc(19, t * z, w);
    assert 19 * (t * z) * w == 19 * c;
  }

  lemma {:induction false} RowValue(f: fe, g: fe, i: nat, m: nat)
    requires Within(f, LOOSE) && Within(g, LOOSE) && i < 10 && m <= 10
    ensures Congruent(Row(f, g, i, m), At(f[i] as int, i) * Prefix(g, m))
    decreases m
  {
    hide Within, At, Term;
    if m == 0 {
      Itself(0);
    } else {
      RowValue(f, g, i, m - 1);
      TermValue(f, g, i, m - 1);
      var a := At(f[i] as int, i);
      Distribute(a, Prefix(g, m - 1), At(g[m - 1] as int, m - 1));
      CongAdd(Row(f, g, i, m - 1), a * Prefix(g, m - 1), At(Term(f, g, i, m - 1) as int, (i + m - 1) % 10), a * At(g[m - 1] as int, m - 1), PRIME);
    }
  }

  /** What limb i contributes to limb k of the product. */
  ghost function Cell(f: fe, g: fe, i: nat, k: nat): int
    requires Within(f, LOOSE) && Within(g, LOOSE) && i < 10 && k < 10
  {
    At(Term(f, g, i, (k + 10 - i) % 10) as int, k)
  }

  /** The first n cells of column k. */
  ghost function Column(f: fe, g: fe, k: nat, n: nat): int
    requires Within(f, LOOSE) && Within(g, LOOSE) && k < 10 && n <= 10
  {
    if n == 0 then 0 else Column(f, g, k, n - 1) + Cell(f, g, n - 1, k)
  }

  /** The first m cells of row i. */
  ghost function Cells(f: fe, g: fe, i: nat, m: nat): int
    requires Within(f, LOOSE) && Within(g, LOOSE) && i < 10 && m <= 10
  {
    if m == 0 then 0 else Cells(f, g, i, m - 1) + Cell(f, g, i, m - 1)
  }

  /** The first m cells of each of the first n rows. */
  ghost function Grid(f: fe, g: fe, n: nat, m: nat): int
    requires Within(f, LOOSE) && Within(g, LOOSE) && n <= 10 && m <= 10
  {
    if n == 0 then 0 else Grid(f, g, n - 1, m) + Cells(f, g, n - 1, m)
  }

  lemma {:induction false} GridColumn(f: fe, g: fe, n: nat, m: nat)
    requires Within(f, LOOSE) && Within(g, LOOSE) && n <= 10 && 0 < m <= 10
    ensures Grid(f, g, n, m) == Grid(f, g, n, m - 1) + Column(f, g, m - 1, n)
  {
    hide Within, Cell;
    if n > 0 {
      GridColumn(f, g, n - 1, m);
    }
  }

  lemma {:induction false} GridEmpty(f: fe, g: fe, n: nat)
    requires Within(f, LOOSE) && Within(g, LOOSE) && n <= 10
    ensures Grid(f, g, n, 0) == 0
  {
    if n > 0 {
      GridEmpty(f, g, n - 1);
    }
  }

  /** A limb of the product sums its column. */
  lemma LimbColumn(f: fe, g: fe, k: nat)
    requires Within(f, LOOSE) && Within(g, LOOSE) && k < 10
    ensures At(Limb(f, g, k) as int, k) == Column(f, g, k, 10)
  {
    hide Within, Term, At;
    TermsAdd(f, g, k, 10);
    assert (k + 10) % 10 == k;
    assert TermSum(f, g, k, 1) == TermSum(f, g, k, 0) + Term(f, g, 0, (k + 10) % 10) as int;
    assert TermSum(f, g, k, 2) == TermSum(f, g, k, 1) + Term(f, g, 1, (k + 9) % 10) as int;
    assert TermSum(f, g, k, 3) == TermSum(f, g, k, 2) + Term(f, g, 2, (k + 8) % 10) as int;
    assert TermSum(f, g, k, 4) == TermSum(f, g, k, 3) + Term(f, g, 3, (k + 7) % 10) as int;
    assert TermSum(f, g, k, 5) == TermSum(f, g, k, 4) + Term(f, g, 4, (k + 6) % 10) as int;
    assert TermSum(f, g, k, 6) == TermSum(f, g, k, 5) + Term(f, g, 5, (k + 5) % 10) as int;
    assert TermSum(f, g, k, 7) == TermSum(f, g, k, 6) + Term(f, g, 6, (k + 4) % 10) as int;
    assert TermSum(f, g, k, 8) == TermSum(f, g, k, 7) + Term(f, g, 7, (k + 3) % 10) as int;
    assert TermSum(f, g, k, 9) == TermSum(f, g, k, 8) + Term(f, g, 8, (k + 2) % 10) as int;
    assert TermSum(f, g, k, 10) == TermSum(f, g, k, 9) + Term(f, g, 9, (k + 1) % 10) as int;
  }

  ghost function TermSum(f: fe, g: fe, k: nat, n: nat): int
    requires Within(f, LOOSE) && Within(g, LOOSE) && k < 10 && n <= 10
  {
    if n == 0 then 0 else TermSum(f, g, k, n - 1) + Term(f, g, n - 1, (k + 10 - (n - 1)) % 10) as int
  }

  lemma {:induction false} TermsAdd(f: fe, g: fe, k: nat, n: nat)
    requires Within(f, LOOSE) && Within(g, LOOSE) && k < 10 && n <= 10
    ensures At(TermSum(f, g, k, n), k) == Column(f, g, k, n)
  {
    hide Within, Term, At;
    if n == 0 {
      AtZero(k);
    } else {
      TermsAdd(f, g, k, n - 1);
      AtAdd(TermSum(f, g, k, n - 1), Term(f, g, n - 1, (k + 10 - (n - 1)) % 10) as int, k);
    }
  }

  lemma AtZero(k: nat)
    ensures At(0, k) == 0
  {
  }

  lemma AtAdd(x: int, y: int, k: nat)
    ensures At(x + y, k) == At(x, k) + At(y, k)
  {
    hide Weight;
  }

  lemma {:induction false} ProductGrid(f: fe, g: fe, m: nat)
    requires Within(f, LOOSE) && Within(g, LOOSE) && m <= 10
    ensures Prefix(ProductLimbs(f, g), m) == Grid(f, g, 10, m)
  {
    hide Within, Limb, At, Column;
    if m == 0 {
      GridEmpty(f, g, 10);
    } else {
      ProductGrid(f, g, m - 1);
      GridColumn(f, g, 10, m);
      LimbColumn(f, g, m - 1);
    }
  }

  /** The cells of a row are the products of its limb, rotated. */
  lemma {:induction false} Rotated(f: fe, g: fe, i: nat, m: nat)
    requires Within(f, LOOSE) && Within(g, LOOSE) && i < 10 && m <= 10
    ensures Row(f, g, i, m) == (if i + m <= 10 then Cells(f, g, i, i + m) else Cells(f, g, i, 10) + Cells(f, g, i, i + m - 10)) - Cells(f, g, i, i)
    decreases m
  {
    hide Within, Term, At;
    if m > 0 {
      Rotated(f, g, i, m - 1);
      var k := if i + m <= 10 then i + m - 1 else i + m - 11;
      RotatedPlace(i, m, k);
      assert Row(f, g, i, m) == Row(f, g, i, m - 1) + Cell(f, g, i, k);
    }
  }

  lemma RotatedPlace(i: nat, m: nat, k: nat)
    requires i < 10 && 0 < m <= 10 && k == if i + m <= 10 then i + m - 1 else i + m - 11
    ensures (i + m - 1) % 10 == k && (k + 10 - i) % 10 == m - 1
  {
  }

  lemma {:induction false} GridValue(f: fe, g: fe, n: nat)
    requires Within(f, LOOSE) && Within(g, LOOSE) && n <= 10
    ensures Congruent(Grid(f, g, n, 10), Prefix(f, n) * Value(g))
  {
    hide Within, At, Cell, Prefix, Row;
    if n == 0 {
      PrefixNone(f);
      Itself(0);
    } else {
      GridValue(f, g, n - 1);
      RowValue(f, g, n - 1, 10);
      Rotated(f, g, n - 1, 10);
      PrefixNext(f, n);
      GridStep(Grid(f, g, n - 1, 10), Prefix(f, n - 1), Cells(f, g, n - 1, 10), At(f[n - 1] as int, n - 1), Value(g));
    }
  }

  lemma GridStep(x: int, p: int, y: int, a: int, v: int)
    requires Congruent(x, p * v) && Congruent(y, a * v)
    ensures Congruent(x + y, (p + a) * v)
  {
    CongAdd(x, p * v, y, a * v, PRIME);
    Distribute(v, p, a);
  }

  lemma PrefixNone(s: seq<int64>)
    ensures Prefix(s, 0) == 0
  {
  }

  lemma PrefixNext(s: seq<int64>, n: nat)
    requires 0 < n <= |s|
    ensures Prefix(s, n) == Prefix(s, n - 1) + At(s[n - 1] as int, n - 1)
  {
  }

  /** The limbs of the product are congruent to the product. */
  lemma ProductValue(f: fe, g: fe)
    requires Within(f, LOOSE) && Within(g, LOOSE)
    ensures Congruent(Value(f) * Value(g), Value(ProductLimbs(f, g)))
  {
    hide Within, Prefix, ProductLimbs;
    ProductGrid(f, g, 10);
    GridValue(f, g, 10);
    Symmetric(Value(ProductLimbs(f, g)), Value(f) * Value(g));
  }

  lemma Symmetric(a: int, b: int)
    requires Congruent(a, b)
    ensures Congruent(b, a)
  {
    var q := Modular.Quotient(a, b, PRIME);
    CongBy(b, a, -q, PRIME);
  }

  /** Bounds after the first eight carries of a product. */
  ghost predicate HalfCarried(r: wide) {
    && Small(r[0], 0x200_0000) && Small(r[1], 0x100_0000) && Small(r[2], 0x200_0000) && Small(r[3], 0x100_0000)
    && Small(r[4], 0x40_0000_0000) && Small(r[5], 0x100_0000) && Small(r[6], 0x200_0000) && Small(r[7], 0x100_0000)
    && Small(r[8], 0x4300_0000_0000_0000) && Small(r[9], 0x4300_0000_0000_0000)
  }

  method CarryLow(p: wide, ghost v: int) returns (r: wide)
    requires (forall i :: 0 <= i < 10 ==> Small(p[i], 0x4200_0000_0000_0000)) && Congruent(v, Value(p))
    ensures Congruent(v, Value(r)) && HalfCarried(r)
  {
    hide Value, Congruent;
    r := p;
    r := Carry(r, 0, 0x200_0000, v);
    r := Carry(r, 4, 0x200_0000, v);
    r := Carry(r, 1, 0x100_0000, v);
    r := Carry(r, 5, 0x100_0000, v);
    r := Carry(r, 2, 0x200_0000, v);
    r := Carry(r, 6, 0x200_0000, v);
    r := Carry(r, 3, 0x100_0000, v);
    r := Carry(r, 7, 0x100_0000, v);
  }

  method CarryHigh(p: wide, ghost v: int) returns (h: fe)
    requires HalfCarried(p) && Congruent(v, Value(p))
    ensures Congruent(v, Value(h)) && Within(h, TIGHT)
  {
    hide Value, Congruent;
    var r := p;
    r := Carry(r, 4, 0x200_0000, v);
    r := Carry(r, 8, 0x200_0000, v);
    r := Carry(r, 9, 0x100_0000, v);
    r := Carry(r, 0, 0x200_0000, v);
    h := r;
  }

  /** The twelve carries behind a product. */
  method CarryProduct(p: wide, ghost v: int) returns (h: fe)
    requires (forall i :: 0 <= i < 10 ==> Small(p[i], 0x4200_0000_0000_0000)) && Congruent(v, Value(p))
    ensures Congruent(v, Value(h)) && Within(h, TIGHT)
  {
    hide Value, Congruent;
    var r := CarryLow(p, v);
    h := CarryHigh(r, v);
  }

  /** fe_mul. */
  method Mul(f: fe, g: fe) returns (h: fe)
    requires Within(f, LOOSE) && Within(g, LOOSE)
    ensures Congruent(Value(f) * Value(g), Value(h)) && Within(h, TIGHT)
  {
    hide Value, Congruent;
    ProductValue(f, g);
    h := CarryProduct(ProductLimbs(f, g), Value(f) * Value(g));
  }

  /** f[i] * f[j] */
  ghost function Pair(f: fe, i: nat, j: nat): int
    requires i < 10 && j < 10
  {
    f[i] as int * f[j] as int
  }

  /** (a * f[i]) * (b * f[j]), with both factors of 32 bits. */
  function Prod(f: fe, a: nat, i: nat, b: nat, j: nat): (r: int64)
    requires Within(f, LOOSE) && i < 10 && j < 10 && 0 < a <= 2 && 0 < b && b <= if j % 2 == 1 then 38 else 19
    ensures Small(r, 38 * LOOSE * LOOSE) && r as int == a * b * Pair(f, i, j)
  {
    WithinAt(f, LOOSE, i);
    WithinAt(f, LOOSE, j);
    ScaleBound(f[i] as int, a, LOOSE, 2);
    ScaleBound(f[j] as int, b, if j % 2 == 0 then LOOSE else LOOSE / 2, if j % 2 == 0 then 19 else 38);
    var x: int32 := a as int64 * f[i];
    var y: int32 := b as int64 * f[j];
    ProductBound(x as int, y as int, 2 * LOOSE, 19 * LOOSE);
    Factors(a, f[i] as int, b, f[j] as int);
    x * y
  }

  lemma ScaleBound(x: int, a: nat, m: nat, n: nat)
    requires -(m as int) <= x <= m && a <= n
    ensures -(n * m) <= a * x <= n * m
  {
    ProductBound(a, x, n, m);
  }

  lemma Factors(a: int, x: int, b: int, y: int)
    ensures (a * x) * (b * y) == a * b * (x * y)
  {
    Assoc(a * x, b, y);
    Assoc(a * b, x, y);
    assert a * x * b == a * b * x;
  }

  /** The limbs of a square: equal products are taken once. */
  function SquareLimbs(f: fe): (r: seq<int64>)
    requires Within(f, LOOSE)
    ensures |r| == 10
  {
    [
      Prod(f, 1, 0, 1, 0) + Prod(f, 2, 1, 38, 9) + Prod(f, 2, 2, 19, 8) + Prod(f, 2, 3, 38, 7)
      + Prod(f, 2, 4, 19, 6) + Prod(f, 1, 5, 38, 5),
      Prod(f, 2, 0, 1, 1) + Prod(f, 1, 2, 38, 9) + Prod(f, 2, 3, 19, 8) + Prod(f, 1, 4, 38, 7) + Prod(f, 2, 5, 19, 6),
      Prod(f, 2, 0, 1, 2) + Prod(f, 2, 1, 1, 1) + Prod(f, 2, 3, 38, 9) + Prod(f, 2, 4, 19, 8)
      + Prod(f, 2, 5, 38, 7) + Prod(f, 1, 6, 19, 6),
      Prod(f, 2, 0, 1, 3) + Prod(f, 2, 1, 1, 2) + Prod(f, 1, 4, 38, 9) + Prod(f, 2, 5, 19, 8) + Prod(f, 1, 6, 38, 7),
      Prod(f, 2, 0, 1, 4) + Prod(f, 2, 1, 2, 3) + Prod(f, 1, 2, 1, 2) + Prod(f, 2, 5, 38, 9) + Prod(f, 2, 6, 19, 8)
      + Prod(f, 1, 7, 38, 7),
      Prod(f, 2, 0, 1, 5) + Prod(f, 2, 1, 1, 4) + Prod(f, 2, 2, 1, 3) + Prod(f, 1, 6, 38, 9) + Prod(f, 2, 7, 19, 8),
      Prod(f, 2, 0, 1, 6) + Prod(f, 2, 1, 2, 5) + Prod(f, 2, 2, 1, 4) + Prod(f, 2, 3, 1, 3) + Prod(f, 2, 7, 38, 9)
      + Prod(f, 1, 8, 19, 8),
      Prod(f, 2, 0, 1, 7) + Prod(f, 2, 1, 1, 6) + Prod(f, 2, 2, 1, 5) + Prod(f, 2, 3, 1, 4) + Prod(f, 1, 8, 38, 9),
      Prod(f, 2, 0, 1, 8) + Prod(f, 2, 1, 2, 7) + Prod(f, 2, 2, 1, 6) + Prod(f, 2, 3, 2, 5) + Prod(f, 1, 4, 1, 4)
      + Prod(f, 1, 9, 38, 9),
      Prod(f, 2, 0, 1, 9) + Prod(f, 2, 1, 1, 8) + Prod(f, 2, 2, 1, 7) + Prod(f, 2, 3, 1, 6) + Prod(f, 2, 4, 1, 5)
    ]
  }

  /** The two equal products of a square. */
  lemma Twice(f: fe, i: nat, j: nat)
    requires Within(f, LOOSE) && i < 10 && j < 10
    ensures Term(f, f, i, j) == Term(f, f, j, i)
    ensures Term(f, f, i, j) as int == (if i + j >= 10 then 19 else 1) * (if i % 2 == 1 && j % 2 == 1 then 2 else 1) * Pair(f, i, j)
  {
    hide Term;
    TermProduct(f, f, i, j);
    TermProduct(f, f, j, i);
  }

  lemma SquareLimb0(f: fe)
    requires Within(f, LOOSE)
    ensures SquareLimbs(f)[0] == Limb(f, f, 0)
  {
    hide Within, Small, Pair, Prod, Term;
    Twice(f, 0, 0);
    Twice(f, 1, 9);
    Twice(f, 2, 8);
    Twice(f, 3, 7);
    Twice(f, 4, 6);
    Twice(f, 5, 5);
  }

  lemma SquareLimb1(f: fe)
    requires Within(f, LOOSE)
    ensures SquareLimbs(f)[1] == Limb(f, f, 1)
  {
    hide Within, Small, Pair, Prod, Term;
    Twice(f, 0, 1);
    Twice(f, 2, 9);
    Twice(f, 3, 8);
    Twice(f, 4, 7);
    Twice(f, 5, 6);
  }

  lemma SquareLimb2(f: fe)
    requires Within(f, LOOSE)
    ensures SquareLimbs(f)[2] == Limb(f, f, 2)
  {
    hide Within, Small, Pair, Prod, Term;
    Twice(f, 0, 2);
    Twice(f, 1, 1);
    Twice(f, 3, 9);
    Twice(f, 4, 8);
    Twice(f, 5, 7);
    Twice(f, 6, 6);
  }

  lemma SquareLimb3(f: fe)
    requires Within(f, LOOSE)
    ensures SquareLimbs(f)[3] == Limb(f, f, 3)
  {
    hide Within, Small, Pair, Prod, Term;
    Twice(f, 0, 3);
    Twice(f, 1, 2);
    Twice(f, 4, 9);
    Twice(f, 5, 8);
    Twice(f, 6, 7);
  }

  lemma SquareLimb4(f: fe)
    requires Within(f, LOOSE)
    ensures SquareLimbs(f)[4] == Limb(f, f, 4)
  {
    hide Within, Small, Pair, Prod, Term;
    Twice(f, 0, 4);
    Twice(f, 1, 3);
    Twice(f, 2, 2);
    Twice(f, 5, 9);
    Twice(f, 6, 8);
    Twice(f, 7, 7);
  }

  lemma SquareLimb5(f: fe)
    requires Within(f, LOOSE)
    ensures SquareLimbs(f)[5] == Limb(f, f, 5)
  {
    hide Within, Small, Pair, Prod, Term;
    Twice(f, 0, 5);
    Twice(f, 1, 4);
    Twice(f, 2, 3);
    Twice(f, 6, 9);
    Twice(f, 7, 8);
  }

  lemma SquareLimb6(f: fe)
    requires Within(f, LOOSE)
    ensures SquareLimbs(f)[6] == Limb(f, f, 6)
  {
    hide Within, Small, Pair, Prod, Term;
    Twice(f, 0, 6);
    Twice(f, 1, 5);
    Twice(f, 2, 4);
    Twice(f, 3, 3);
    Twice(f, 7, 9);
    Twice(f, 8, 8);
  }

  lemma SquareLimb7(f: fe)
    requires Within(f, LOOSE)
    ensures SquareLimbs(f)[7] == Limb(f, f, 7)
  {
    hide Within, Small, Pair, Prod, Term;
    Twice(f, 0, 7);
    Twice(f, 1, 6);
    Twice(f, 2, 5);
    Twice(f, 3, 4);
    Twice(f, 8, 9);
  }

  lemma SquareLimb8(f: fe)
    requires Within(f, LOOSE)
    ensures SquareLimbs(f)[8] == Limb(f, f, 8)
  {
    hide Within, Small, Pair, Prod, Term;
    Twice(f, 0, 8);
    Twice(f, 1, 7);
    Twice(f, 2, 6);
    Twice(f, 3, 5);
    Twice(f, 4, 4);
    Twice(f, 9, 9);
  }

  lemma SquareLimb9(f: fe)
    requires Within(f, LOOSE)
    ensures SquareLimbs(f)[9] == Limb(f, f, 9)
  {
    hide Within, Small, Pair, Prod, Term;
    Twice(f, 0, 9);
    Twice(f, 1, 8);
    Twice(f, 2, 7);
    Twice(f, 3, 6);
    Twice(f, 4, 5);
  }

  lemma SquareIsProduct(f: fe)
    requires Within(f, LOOSE)
    ensures SquareLimbs(f) == ProductLimbs(f, f)
  {
    hide Within, SquareLimbs, Limb;
    SquareLimb0(f);
    SquareLimb1(f);
    SquareLimb2(f);
    SquareLimb3(f);
    SquareLimb4(f);
    SquareLimb5(f);
    SquareLimb6(f);
    SquareLimb7(f);
    SquareLimb8(f);
    SquareLimb9(f);
  }

  /** fe_sq. */
  method Sq(f: fe) returns (h: fe)
    requires Within(f, LOOSE)
    ensures Congruent(Value(f) * Value(f), Value(h)) && Within(h, TIGHT)
  {
    hide Value, Congruent, SquareLimbs, Within;
    ProductValue(f, f);
    SquareIsProduct(f);
    h := CarryProduct(SquareLimbs(f), Value(f) * Value(f));
  }

  /** fe_sq2: twice the square; the limbs are doubled before the carries. */
  method Sq2(f: fe) returns (h: fe)
    requires Within(f, LOOSE)
    ensures Congruent(2 * (Value(f) * Value(f)), Value(h)) && Within(h, TIGHT)
  {
    hide Value, Congruent, SquareLimbs, Within, Limb;
    ProductValue(f, f);
    SquareIsProduct(f);
    var p := SquareLimbs(f);
    LimbRange(f);
    var d: wide := [p[0] + p[0], p[1] + p[1], p[2] + p[2], p[3] + p[3], p[4] + p[4],
                    p[5] + p[5], p[6] + p[6], p[7] + p[7], p[8] + p[8], p[9] + p[9]];
    DoubleValue(p, d, 10);
    TwiceCongruent(Value(f) * Value(f), p, d);
    h := CarryProduct(d, 2 * (Value(f) * Value(f)));
  }

  lemma LimbRange(f: fe)
    requires Within(f, LOOSE)
    ensures forall k :: 0 <= k < 10 ==> Small(ProductLimbs(f, f)[k], 10 * (LOOSE * 19 * LOOSE))
  {
    hide Limb;
  }

  lemma {:induction false} DoubleValue(p: wide, d: wide, n: nat)
    requires n <= 10 && forall k :: 0 <= k < 10 ==> d[k] as int == 2 * p[k] as int
    ensures Prefix(d, n) == 2 * Prefix(p, n)
  {
    hide At;
    if n > 0 {
      DoubleValue(p, d, n - 1);
      AtAdd(p[n - 1] as int, p[n - 1] as int, n - 1);
    }
  }

  lemma TwiceCongruent(v: int, p: wide, d: wide)
    requires Congruent(v, Value(p)) && Prefix(d, 10) == 2 * Prefix(p, 10)
    ensures Congruent(2 * v, Value(d))
  {
    CongAdd(v, Value(p), v, Value(p), PRIME);
  }
}
