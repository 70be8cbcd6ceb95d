/** Reduction modulo the group order l on 24 signed limbs of 21 bits. */
module ScalarLimbs {
  import opened Arith
  import opened Binary
  import opened Modular

  /** 2 to the 252. */
  const TWO252: nat := 0x1000000000000000000000000000000000000000000000000000000000000000

  /** The order of the base point. */
  const L: nat := TWO252 + 27742317777372353535851937790883648493

  const RADIX: int := 0x20_0000

  type limbs = s: seq<int64> | |s| == 24 witness seq(24, _ => 0)

  /** 2 to the 21 * n. */
  ghost function Pow(n: nat): (r: nat)
    ensures r > 0
  {
    if n == 0 then 1 else RADIX * Pow(n - 1)
  }

  /** The number that limbs stand for. */
  ghost function Val(s: seq<int64>): int {
    if s == [] then 0 else s[0] as int + RADIX * Val(s[1..])
  }

  ghost predicate Congruent(a: int, b: int) {
    Cong(a, b, L)
  }

  /** Limb i is at most bound in magnitude. */
  predicate Small(x: int64, bound: int) {
    -bound <= x as int <= bound
  }

  ghost predicate AllSmall(s: seq<int64>, bound: int) {
    forall i :: 0 <= i < |s| ==> Small(s[i], bound)
  }

  // ---------- values ----------

  lemma {:induction false} AddAt(s: seq<int64>, i: nat, x: int64)
    requires i < |s|
    ensures Val(s[i := x]) == Val(s) + (x as int - s[i] as int) * Pow(i)
  {
    if i == 0 {
      assert s[0 := x][1..] == s[1..];
    } else {
      assert s[i := x][1..] == s[1..][i - 1 := x];
      AddAt(s[1..], i - 1, x);
      Rotate(x as int - s[i] as int, RADIX, Pow(i - 1));
    }
  }

  lemma {:induction false} PowAdd(m: nat, n: nat)
    ensures Pow(m + n) == Pow(m) * Pow(n)
  {
    if m > 0 {
      PowAdd(m - 1, n);
      assert m + n - 1 == m - 1 + n;
      Assoc(RADIX, Pow(m - 1), Pow(n));
    }
  }

  lemma {:induction false} Split(s: seq<int64>, n: nat)
    requires n <= |s|
    ensures Val(s) == Val(s[..n]) + Pow(n) * Val(s[n..])
  {
    if n == 0 {
      assert s[0..] == s;
    } else {
      assert s[..n][1..] == s[1..][..n - 1] && s[1..][n - 1..] == s[n..];
      Split(s[1..], n - 1);
      Assoc(RADIX, Pow(n - 1), Val(s[n..]));
    }
  }

  lemma {:induction false} ValZero(s: seq<int64>)
    requires forall i :: 0 <= i < |s| ==> s[i] == 0
    ensures Val(s) == 0
  {
    if s != [] {
      ValZero(s[1..]);
    }
  }

  /** A number in proper 21-bit digits. */
  lemma {:induction false} DigitsBound(s: seq<int64>)
    requires forall i :: 0 <= i < |s| ==> 0 <= s[i] as int < RADIX
    ensures 0 <= Val(s) < Pow(|s|)
  {
    if s != [] {
      DigitsBound(s[1..]);
    }
  }

  /** With a top limb of at most half the radix, no amount of lower limbs up to 2^39 reaches the next power. */
  lemma {:induction false} BalancedBound(s: seq<int64>)
    requires |s| >= 2 && AllSmall(s, 0x80_0000_0000) && Small(s[|s| - 1], 0x10_0000)
    ensures 4 * Val(s) <= 3 * Pow(|s|) - 4 * 0x80_0000_0000
    ensures -4 * Val(s) <= 3 * Pow(|s|) - 4 * 0x80_0000_0000
  {
    assert Small(s[0], 0x80_0000_0000);
    if |s| == 2 {
      assert Val(s[1..]) == s[1] as int + RADIX * Val(s[1..][1..]);
      assert Pow(2) == RADIX * Pow(1) && Pow(1) == RADIX * Pow(0);
    } else {
      var t := s[1..];
      assert t[|t| - 1] == s[|s| - 1];
      BalancedBound(t);
    }
  }

  lemma Powers()
    ensures Pow(0) == 1 && Pow(1) == 0x20_0000 && Pow(2) == 0x400_0000_0000 && Pow(3) == 0x8000_0000_0000_0000
    ensures Pow(4) == 0x10_0000_0000_0000_0000_0000 && Pow(5) == 0x200_0000_0000_0000_0000_0000_0000
    ensures Pow(11) == TWO252 / 0x20_0000 && Pow(12) == TWO252
  {
    var p2 := Pow(2);
    assert Pow(2) == RADIX * Pow(1);
    assert Pow(3) == RADIX * Pow(2);
    assert Pow(4) == RADIX * Pow(3);
    assert Pow(5) == RADIX * Pow(4);
    assert Pow(6) == RADIX * Pow(5);
    assert Pow(7) == RADIX * Pow(6);
    assert Pow(8) == RADIX * Pow(7);
    assert Pow(9) == RADIX * Pow(8);
    assert Pow(10) == RADIX * Pow(9);
    assert Pow(11) == RADIX * Pow(10);
    assert Pow(12) == RADIX * Pow(11);
  }

  // ---------- the two steps ----------

  /** What d counts in limb i. */
  ghost function At(d: int, i: nat): int {
    d * Pow(i)
  }

  /** s with d added to limb i. */
  function Plus(s: limbs, i: nat, d: int64): (r: limbs)
    requires i < 24 && Small(s[i], 0x4000_0000_0000_0000) && Small(d, 0x3FFF_FFFF_FFFF_FFFF)
    ensures Val(r) == Val(s) + At(d as int, i)
  {
    AddAt(s, i, s[i] + d);
    s[i := s[i] + d]
  }

  /**
   * Moves limb k down by twelve limbs: 2^252 is congruent to minus the low part of l.
   * The ghost v is any number that the limbs are congruent to; b and c bound limb k and all limbs.
   */
  method Fold(s: limbs, k: nat, ghost b: int, ghost c: int, ghost v: int) returns (r: limbs)
    requires 12 <= k < 24 && Small(s[k], b) && b <= 0x80_0000_0000
    requires AllSmall(s, c) && c <= 0x4000_0000_0000_0000
    requires Congruent(v, Val(s))
    ensures Congruent(v, Val(r)) && Val(r) == Val(s) - At(s[k] as int, k - 12) * L
    ensures r[k] == 0 && AllSmall(r, c + 0x10_0000 * b)
    ensures forall i :: 0 <= i < 24 && i != k && !(k - 12 <= i < k - 6) ==> r[i] == s[i]
  {
    hide Val, Congruent, At;
    var x := s[k];
    assert -0x80_0000_0000 <= x as int <= 0x80_0000_0000;
    assert Small(s[k - 12], c) && Small(s[k - 11], c) && Small(s[k - 10], c);
    assert Small(s[k - 9], c) && Small(s[k - 8], c) && Small(s[k - 7], c);
    r := Plus(s, k - 12, x * 666643);
    r := Plus(r, k - 11, x * 470296);
    r := Plus(r, k - 10, x * 654183);
    r := Plus(r, k - 9, -(x * 997805));
    r := Plus(r, k - 8, x * 136657);
    r := Plus(r, k - 7, -(x * 683901));
    r := Plus(r, k, -x);
    FoldValue(x as int, k - 12);
    Stepped(v, Val(s), Val(r), At(x as int, k - 12));
  }

  lemma FoldValue(x: int, n: nat)
    ensures At(x * 666643, n) + At(x * 470296, n + 1) + At(x * 654183, n + 2) + At(-(x * 997805), n + 3)
            + At(x * 136657, n + 4) + At(-(x * 683901), n + 5) + At(-x, n + 12) == -(At(x, n) * L)
  {
    hide At;
    Powers();
    Term(x, 666643, n, 0);
    Term(x, 470296, n, 1);
    Term(x, 654183, n, 2);
    Term(x, -997805, n, 3);
    Term(x, 136657, n, 4);
    Term(x, -683901, n, 5);
    Term(x, -1, n, 12);
  }

  lemma Term(x: int, c: int, n: nat, j: nat)
    ensures At(x * c, n + j) == At(x, n) * (c * Pow(j))
  {
    PowAdd(n, j);
    Swap(x, c, Pow(n), Pow(j));
  }

  lemma Swap(x: int, c: int, p: int, q: int)
    ensures (x * c) * (p * q) == (x * p) * (c * q)
  {
    Assoc(x * c, p, q);
    Assoc(x * p, c, q);
    assert x * c * p == x * p * c;
  }

  /** Moves what exceeds 21 bits to the next limb; half is 2^20 to round to nearest, 0 to round down. */
  method Carry(s: limbs, i: nat, half: int64, ghost v: int) returns (r: limbs)
    requires i < 23 && half in {0, 0x10_0000}
    requires Small(s[i], 0x2000_0000_0000_0000) && Small(s[i + 1], 0x2000_0000_0000_0000)
    requires Congruent(v, Val(s))
    ensures Congruent(v, Val(r)) && Val(r) == Val(s)
    ensures 0 <= r[i] as int + half as int < 0x20_0000
    ensures forall j :: 0 <= j < 24 && j != i && j != i + 1 ==> r[j] == s[j]
    ensures Carried(s[i + 1], r[i + 1], s[i])
  {
    hide Val, Congruent, At;
    var carry := (s[i] + half) / 0x20_0000;
    r := Plus(s, i + 1, carry);
    r := Plus(r, i, -(carry * 0x20_0000));
    CarryValue(carry as int, i);
  }

  lemma Stepped(v: int, a: int, b: int, x: int)
    requires Congruent(v, a) && a == b + x * L
    ensures Congruent(v, b)
  {
    CongStep(v, a, b, x, L);
  }

  /** y is x with a carry out of a limb that was d. */
  ghost predicate Carried(x: int64, y: int64, d: int64) {
    -0x10_0000 <= 0x20_0000 * (y as int - x as int) - d as int + 0x10_0000 <= 0x20_0000
  }

  lemma CarryValue(c: int, i: nat)
    ensures At(c, i + 1) + At(-(c * 0x20_0000), i) == 0
  {
    Rotate(c, RADIX, Pow(i));
    Assoc(c, RADIX, Pow(i));
  }

  // ---------- the reduction, in the order of the source ----------

  /** Six limbs move down, the top one first. */
  method FoldSix(s: limbs, top: nat, ghost b: int, ghost v: int) returns (r: limbs)
    requires top in {17, 23} && 0 <= b <= 0x20_0000_0000 && AllSmall(s, b) && Congruent(v, Val(s))
    ensures Congruent(v, Val(r)) && AllSmall(r, 0x60_0001 * b)
    ensures forall i :: top - 6 < i <= top ==> r[i] == 0
    ensures forall i :: 0 <= i < top - 17 || i == top - 6 || top < i < 24 ==> r[i] == s[i]
  {
    SmallLimbs(s, b);
    hide Val, Congruent, At, AllSmall, Small;
    r := Fold(s, top, b, b, v);
    r := Fold(r, top - 1, b, 0x10_0001 * b, v);
    r := Fold(r, top - 2, b, 0x20_0001 * b, v);
    r := Fold(r, top - 3, b, 0x30_0001 * b, v);
    r := Fold(r, top - 4, b, 0x40_0001 * b, v);
    r := Fold(r, top - 5, b, 0x50_0001 * b, v);
  }

  lemma SmallLimbs(s: limbs, b: int)
    requires AllSmall(s, b)
    ensures forall i :: 0 <= i < 24 ==> Small(s[i], b)
  {
  }

  /** Balances limbs 6..16. */
  method BalanceHigh(s: limbs, ghost v: int) returns (r: limbs)
    requires AllSmall(s, 0x200_0000_0000_0000) && Small(s[17], 0x4_0000_0000) && Congruent(v, Val(s))
    requires forall i :: 0 <= i < 6 ==> Small(s[i], 0x4_0000_0000)
    requires forall i :: 18 <= i < 24 ==> s[i] == 0
    ensures Congruent(v, Val(r)) && AllSmall(r, 0x20_0000_0000)
    ensures forall i :: 18 <= i < 24 ==> r[i] == 0
  {
    hide Val, Congruent, At;
    r := s;
    r := Carry(r, 6, 0x10_0000, v);
    r := Carry(r, 8, 0x10_0000, v);
    r := Carry(r, 10, 0x10_0000, v);
    r := Carry(r, 12, 0x10_0000, v);
    r := Carry(r, 14, 0x10_0000, v);
    r := Carry(r, 16, 0x10_0000, v);
    r := Carry(r, 7, 0x10_0000, v);
    r := Carry(r, 9, 0x10_0000, v);
    r := Carry(r, 11, 0x10_0000, v);
    r := Carry(r, 13, 0x10_0000, v);
    r := Carry(r, 15, 0x10_0000, v);
  }

  /** Balances limbs 0..11. */
  method BalanceMiddle(s: limbs, ghost v: int) returns (r: limbs)
    requires AllSmall(s, 0xC01_0000_0000_0000) && Small(s[11], 0x20_0000_0000) && Congruent(v, Val(s))
    requires forall i :: 12 <= i < 24 ==> s[i] == 0
    ensures Congruent(v, Val(r)) && AllSmall(r, 0x80_0000_0000) && Small(r[11], 0x10_0000)
    ensures forall i :: 13 <= i < 24 ==> r[i] == 0
  {
    hide Val, Congruent, At;
    r := s;
    r := Carry(r, 0, 0x10_0000, v);
    r := Carry(r, 2, 0x10_0000, v);
    r := Carry(r, 4, 0x10_0000, v);
    r := Carry(r, 6, 0x10_0000, v);
    r := Carry(r, 8, 0x10_0000, v);
    r := Carry(r, 10, 0x10_0000, v);
    r := Carry(r, 1, 0x10_0000, v);
    r := Carry(r, 3, 0x10_0000, v);
    r := Carry(r, 5, 0x10_0000, v);
    r := Carry(r, 7, 0x10_0000, v);
    r := Carry(r, 9, 0x10_0000, v);
    r := Carry(r, 11, 0x10_0000, v);
  }

  /** Proper digits in limbs 0..11; what is left over goes to limb 12. */
  method CarryDown(s: limbs, ghost v: int) returns (r: limbs)
    requires AllSmall(s, 0x1000_0000_0000_0000) && Congruent(v, Val(s))
    requires forall i :: 13 <= i < 24 ==> s[i] == 0
    ensures Congruent(v, Val(r)) && Val(r) == Val(s)
    ensures forall i :: 0 <= i < 11 ==> 0 <= r[i] as int < RADIX
    ensures forall i :: 13 <= i < 24 ==> r[i] == 0
    ensures r[12] == s[12] && Small(r[11], 0x1800_0000_0000_0000)
  {
    hide Val, Congruent, At;
    r := s;
    r := Carry(r, 0, 0, v);
    r := Carry(r, 1, 0, v);
    r := Carry(r, 2, 0, v);
    r := Carry(r, 3, 0, v);
    r := Carry(r, 4, 0, v);
    r := Carry(r, 5, 0, v);
    r := Carry(r, 6, 0, v);
    r := Carry(r, 7, 0, v);
    r := Carry(r, 8, 0, v);
    r := Carry(r, 9, 0, v);
    r := Carry(r, 10, 0, v);
  }

  /** All of the reduction from limb 23 on. */
  method ReduceLimbs(s: limbs) returns (r: limbs)
    requires AllSmall(s, 0x4_0000_0000)
    ensures Canonical(r) && Val(r) == Val(s) % L
  {
    hide Val, Congruent, At;
    ghost var v := Val(s);
    Itself(v);
    r := FoldSix(s, 23, 0x4_0000_0000, v);
    r := BalanceHigh(r, v);
    r := FoldSix(r, 17, 0x20_0000_0000, v);
    r := BalanceMiddle(r, v);
    ghost var m := r;
    assert Small(r[12], 0x80_0000_0000);
    r := Fold(r, 12, 0x80_0000_0000, 0x80_0000_0000, v);
    NearZero(m, Val(r));
    r := CarryDown(r, v);
    r := Carry(r, 11, 0, v);
    ghost var n := r;
    TopDigit(n);
    r := Fold(r, 12, 1, 0x20_0000, v);
    AtLimb0(n[12] as int);
    r := CarryDown(r, v);
    TopOf(r);
    Reduced(v, Val(r));
  }

  lemma Reduced(v: int, r: int)
    requires Congruent(v, r) && 0 <= r < L
    ensures r == v % L
  {
    CongUnique(v, r, L);
  }

  lemma Itself(v: int)
    ensures Congruent(v, v)
  {
  }

  lemma AtLimb0(x: int)
    ensures At(x, 0) == x
  {
    Powers();
  }

  /** The value of limbs that end with limb n. */
  lemma TopLimb(s: limbs, n: nat)
    requires n < 24 && forall i :: n < i < 24 ==> s[i] == 0
    ensures Val(s) == Val(s[..n]) + Pow(n) * s[n] as int
  {
    Split(s, n);
    ValZero(s[n..][1..]);
  }

  /** Balanced limbs with limb 12 folded away lie between -2^252 and 2^252. */
  lemma NearZero(m: limbs, x: int)
    requires AllSmall(m, 0x80_0000_0000) && Small(m[11], 0x10_0000) && forall i :: 13 <= i < 24 ==> m[i] == 0
    requires x == Val(m) - At(m[12] as int, 0) * L
    ensures x < TWO252 && -x < TWO252
  {
    hide Val, Pow, At;
    TopLimb(m, 12);
    Powers();
    AtLimb0(m[12] as int);
    BalancedBound(m[..12]);
    assert Small(m[12], 0x80_0000_0000);
  }

  lemma TopDigit(n: limbs)
    requires forall i :: 0 <= i < 12 ==> 0 <= n[i] as int < RADIX
    requires forall i :: 13 <= i < 24 ==> n[i] == 0
    requires Val(n) < TWO252 && -Val(n) < TWO252
    ensures -1 <= n[12] <= 0 && 0 <= Val(n) - n[12] as int * L < L
  {
    hide Val, Pow;
    TopLimb(n, 12);
    Powers();
    DigitsBound(n[..12]);
  }

  lemma TopOf(r: limbs)
    requires forall i :: 0 <= i < 11 ==> 0 <= r[i] as int < RADIX
    requires forall i :: 12 <= i < 24 ==> r[i] == 0
    requires 0 <= Val(r) < L
    ensures Canonical(r)
  {
    hide Val, Pow;
    TopLimb(r, 11);
    Powers();
    DigitsBound(r[..11]);
  }

  /** Twelve digits; the top one may be the radix itself. */
  ghost predicate Canonical(s: limbs) {
    && (forall i :: 0 <= i < 11 ==> 0 <= s[i] as int < RADIX)
    && 0 <= s[11] as int <= RADIX
    && (forall i :: 12 <= i < 24 ==> s[i] == 0)
    && 0 <= Val(s) < L
  }
}
