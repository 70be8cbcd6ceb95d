/** sc_reduce and sc_muladd: arithmetic modulo the order of the base point, on byte strings. */
module Scalar {
  import opened Arith
  import opened Binary
  import opened Modular
  import opened Bytes
  import opened ScalarLimbs
  import opened ScalarBytes

  /** sc_reduce: overwrites the first 32 of 64 bytes with their value modulo l. */
  method ScReduce(s: array<byte>)
    requires s.Length >= 64
    modifies s
    ensures LeVal(s[..32]) == LeVal(old(s[..64])) % L
    ensures forall i :: 32 <= i < s.Length ==> s[i] == old(s[i])
  {
    hide LeVal, Val, Limbs64;
    Limbs64Value(s[..64]);
    var r := ReduceLimbs(Limbs64(s[..64]));
    Store(r, s, 0);
    assert s[0..32] == s[..32];
  }

  /** sc_muladd: writes (a * b + c) modulo l to the 32 bytes at s + at. */
  method ScMulAdd(s: array<byte>, at: nat, a: seq<byte>, b: seq<byte>, c: seq<byte>)
    requires at + 32 <= s.Length && |a| == |b| == |c| == 32
    modifies s
    ensures LeVal(s[at..at + 32]) == (LeVal(a) * LeVal(b) + LeVal(c)) % L
    ensures forall i :: 0 <= i < s.Length && !(at <= i < at + 32) ==> s[i] == old(s[i])
  {
    hide LeVal, Val, Limbs32, ProductLimbs;
    Limbs32Value(a);
    Limbs32Value(b);
    Limbs32Value(c);
    var al, bl, cl := Limbs32(a), Limbs32(b), Limbs32(c);
    ProductValue(al, bl, cl);
    ghost var v := Val(ProductLimbs(al, bl, cl));
    Itself(v);
    var r := BalanceEvenLow(ProductLimbs(al, bl, cl), v);
    r := BalanceEvenHigh(r, v);
    r := BalanceOddLow(r, v);
    r := BalanceOddHigh(r, v);
    r := ReduceLimbs(r);
    SameRemainder(v, Val(r));
    Store(r, s, at);
  }

  // ---------- the product ----------

  /** A product of limbs. */
  function Mul(x: int64, y: int64): (r: int64)
    requires 0 <= x < 0x200_0000 && 0 <= y < 0x200_0000
    ensures 0 <= r < 0x4_0000_0000_0000 && r as int == x as int * y as int
  {
    MulMonotone(x as int, 0, y as int);
    MulMonotone(x as int, y as int, 0x200_0000);
    (x as int * y as int) as int64
  }

  predicate Loaded(a: seq<int64>) {
    |a| == 12 && forall i :: 0 <= i < 12 ==> 0 <= a[i] < 0x200_0000
  }

  /** a[i] * b[j] + a[i + 1] * b[j - 1] + ..., leaving out what is not there. */
  function Diagonal(a: seq<int64>, b: seq<int64>, i: nat, j: int): (r: int64)
    requires Loaded(a) && Loaded(b) && i <= 12
    ensures 0 <= r as int <= (12 - i) * 0x4_0000_0000_0000
    decreases 12 - i
  {
    if i == 12 || j < 0 then 0
    else if j < 12 then Mul(a[i], b[j]) + Diagonal(a, b, i + 1, j - 1)
    else Diagonal(a, b, i + 1, j - 1)
  }

  /** a * b + c without carries: limb k sums the products of limbs whose indices add up to k. */
  function ProductLimbs(a: seq<int64>, b: seq<int64>, c: seq<int64>): (r: limbs)
    requires Loaded(a) && Loaded(b) && Loaded(c)
    ensures forall k :: 0 <= k < 24 ==> 0 <= r[k] <= 0x40_0000_0000_0000
    ensures r[23] == 0
  {
    AllPast(a, b, 0, 23);
    seq(24, k requires 0 <= k < 24 => (if k < 12 then c[k] else 0) + Diagonal(a, b, 0, k))
  }

  lemma {:induction false} AllPast(a: seq<int64>, b: seq<int64>, i: nat, j: int)
    requires Loaded(a) && Loaded(b) && i <= 12 && i + j >= 23
    ensures Diagonal(a, b, i, j) == 0
    decreases 12 - i
  {
    if i < 12 {
      AllPast(a, b, i + 1, j - 1);
    }
  }

  /** The first n diagonals from row i on. */
  ghost function Columns(a: seq<int64>, b: seq<int64>, i: nat, n: nat): (r: seq<int64>)
    requires Loaded(a) && Loaded(b) && i <= 12
    ensures |r| == n
  {
    seq(n, j requires 0 <= j < n => Diagonal(a, b, i, j))
  }

  lemma {:induction false} ValAdd(p: seq<int64>, q: seq<int64>, r: seq<int64>)
    requires |p| == |q| == |r| && forall k :: 0 <= k < |r| ==> r[k] as int == p[k] as int + q[k] as int
    ensures Val(r) == Val(p) + Val(q)
  {
    if r != [] {
      ValAdd(p[1..], q[1..], r[1..]);
    }
  }

  /** x times b, followed by zeros. */
  ghost function Row(x: int64, b: seq<int64>, n: nat): (r: seq<int64>)
    requires 0 <= x < 0x200_0000 && |b| <= n && forall i :: 0 <= i < |b| ==> 0 <= b[i] < 0x200_0000
    ensures |r| == n
  {
    seq(n, j requires 0 <= j < n => if j < |b| then Mul(x, b[j]) else 0)
  }

  lemma {:induction false} RowValue(x: int64, b: seq<int64>, n: nat)
    requires 0 <= x < 0x200_0000 && |b| <= n && forall i :: 0 <= i < |b| ==> 0 <= b[i] < 0x200_0000
    ensures Val(Row(x, b, n)) == x as int * Val(b)
    decreases n
  {
    if b == [] {
      ValZero(Row(x, b, n));
    } else {
      RowValue(x, b[1..], n - 1);
      assert Row(x, b, n)[1..] == Row(x, b[1..], n - 1);
      Spread(x as int, b[0] as int, RADIX, Val(b[1..]));
    }
  }

  lemma Spread(x: int, y: int, m: int, v: int)
    ensures x * (y + m * v) == x * y + m * (x * v)
  {
    Distribute(x, y, m * v);
    Rotate(x, m, v);
  }

  lemma {:induction false} ColumnsValue(a: seq<int64>, b: seq<int64>, i: nat, n: nat)
    requires Loaded(a) && Loaded(b) && i <= 12 && i + n >= 24
    ensures Val(Columns(a, b, i, n)) == Val(a[i..]) * Val(b)
    decreases 12 - i
  {
    hide Diagonal, Val, Columns, Row;
    if i == 12 {
      NoRows(a, b, n);
    } else {
      var t := Columns(a, b, i + 1, n - 1);
      ColumnsValue(a, b, i + 1, n - 1);
      RowValue(a[i], b, n);
      FirstRow(a, b, i, n);
      ValAdd(Row(a[i], b, n), [0] + t, Columns(a, b, i, n));
      Shifted(t);
      Unshifted(a, i);
      Spread(Val(b), a[i] as int, RADIX, Val(a[i + 1..]));
    }
  }

  lemma Shifted(t: seq<int64>)
    ensures Val([0] + t) == RADIX * Val(t)
  {
    assert ([0] + t)[1..] == t;
  }

  lemma Unshifted(a: seq<int64>, i: nat)
    requires i < |a|
    ensures Val(a[i..]) == a[i] as int + RADIX * Val(a[i + 1..])
  {
    assert a[i..][1..] == a[i + 1..];
  }

  lemma NoRows(a: seq<int64>, b: seq<int64>, n: nat)
    requires Loaded(a) && Loaded(b)
    ensures Val(Columns(a, b, 12, n)) == 0 && Val(a[12..]) == 0
  {
    ValZero(Columns(a, b, 12, n));
  }

  lemma FirstRow(a: seq<int64>, b: seq<int64>, i: nat, n: nat)
    requires Loaded(a) && Loaded(b) && i < 12 && n > 0
    ensures n >= 12 ==>
              var s, r, t := Columns(a, b, i, n), Row(a[i], b, n), [0] + Columns(a, b, i + 1, n - 1);
              forall j :: 0 <= j < n ==> s[j] as int == r[j] as int + t[j] as int
  {
    if n >= 12 {
      var s, r, t := Columns(a, b, i, n), Row(a[i], b, n), [0] + Columns(a, b, i + 1, n - 1);
      forall j | 0 <= j < n ensures s[j] as int == r[j] as int + t[j] as int {
        assert j == 0 ==> Diagonal(a, b, i + 1, j - 1) == 0;
      }
    }
  }

  /** The limbs of the product stand for the product. */
  lemma ProductValue(a: seq<int64>, b: seq<int64>, c: seq<int64>)
    requires Loaded(a) && Loaded(b) && Loaded(c)
    ensures Val(ProductLimbs(a, b, c)) == Val(a) * Val(b) + Val(c)
  {
    hide Val, Diagonal, Pow;
    var c' := c + seq(12, _ => 0);
    ValAdd(c', Columns(a, b, 0, 24), ProductLimbs(a, b, c));
    ColumnsValue(a, b, 0, 24);
    Split(c', 12);
    ValZero(c'[12..]);
    assert a[0..] == a && c'[..12] == c;
  }

  // ---------- the carries before the reduction ----------

  /** Of the limbs below n, the even ones are balanced; the odd ones may have received a carry. */
  ghost predicate EvenBalanced(s: limbs, n: nat) {
    && (forall i :: 0 <= i < 24 ==> Small(s[i], if i >= n then 0x40_0000_0000_0000 else if i % 2 == 0 then 0x10_0000 else 0x50_0000_0000_0000))
    && Small(s[23], 0x3_0000_0000)
    && (n < 24 ==> s[23] == 0)
  }

  /** Of the limbs up to n, all are small; behind them only the even ones. */
  ghost predicate OddBalanced(s: limbs, n: nat) {
    && (forall i :: 0 <= i < 24 ==> Small(s[i], if i <= n then 0x4_0000_0000 else if i % 2 == 0 then 0x10_0000 else 0x50_0000_0000_0000))
    && Small(s[23], 0x3_0000_0000)
  }

  /** Balances limbs 0, 2, ..., 10. */
  method BalanceEvenLow(s: limbs, ghost v: int) returns (r: limbs)
    requires EvenBalanced(s, 0) && Congruent(v, Val(s))
    ensures Congruent(v, Val(r)) && EvenBalanced(r, 12)
  {
    hide Val, Congruent, At;
    r := s;
    r := Carry(r, 0, 0x10_0000, v);
    r := Carry(r, 2, 0x10_0000, v);
    r := Carry(r, 4, 0x10_0000, v);
    r := Carry(r, 6, 0x10_0000, v);
    r := Carry(r, 8, 0x10_0000, v);
    r := Carry(r, 10, 0x10_0000, v);
  }

  /** Balances limbs 12, 14, ..., 22. */
  method BalanceEvenHigh(s: limbs, ghost v: int) returns (r: limbs)
    requires EvenBalanced(s, 12) && Congruent(v, Val(s))
    ensures Congruent(v, Val(r)) && EvenBalanced(r, 24)
  {
    hide Val, Congruent, At;
    r := s;
    r := Carry(r, 12, 0x10_0000, v);
    r := Carry(r, 14, 0x10_0000, v);
    r := Carry(r, 16, 0x10_0000, v);
    r := Carry(r, 18, 0x10_0000, v);
    r := Carry(r, 20, 0x10_0000, v);
    r := Carry(r, 22, 0x10_0000, v);
  }

  /** Balances limbs 1, 3, ..., 11. */
  method BalanceOddLow(s: limbs, ghost v: int) returns (r: limbs)
    requires EvenBalanced(s, 24) && Congruent(v, Val(s))
    ensures Congruent(v, Val(r)) && OddBalanced(r, 12)
  {
    hide Val, Congruent, At;
    r := s;
    r := Carry(r, 1, 0x10_0000, v);
    r := Carry(r, 3, 0x10_0000, v);
    r := Carry(r, 5, 0x10_0000, v);
    r := Carry(r, 7, 0x10_0000, v);
    r := Carry(r, 9, 0x10_0000, v);
    r := Carry(r, 11, 0x10_0000, v);
  }

  /** Balances limbs 13, 15, ..., 21. */
  method BalanceOddHigh(s: limbs, ghost v: int) returns (r: limbs)
    requires OddBalanced(s, 12) && Congruent(v, Val(s))
    ensures Congruent(v, Val(r)) && AllSmall(r, 0x4_0000_0000)
  {
    hide Val, Congruent, At;
    r := s;
    r := Carry(r, 13, 0x10_0000, v);
    r := Carry(r, 15, 0x10_0000, v);
    r := Carry(r, 17, 0x10_0000, v);
    r := Carry(r, 19, 0x10_0000, v);
    r := Carry(r, 21, 0x10_0000, v);
  }

  lemma SameRemainder(v: int, w: int)
    requires Congruent(v, w)
    ensures v % L == w % L
  {
    CongMod(v, w, L);
  }
}
