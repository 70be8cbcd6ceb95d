/** Signed-digit recodings of 256-bit scalars: the sliding window and the radix-16 digits. */
module Recoding {
  import opened Arith
  import opened Binary
  import opened Bytes

  /** A signed char. */
  type schar = x: int | -128 <= x < 128

  // ---------- positional notation ----------

  /** The number that digits stand for in a base, least significant digit first. */
  ghost function Number(s: seq<int>, base: int): int {
    if s == [] then 0 else s[0] + base * Number(s[1..], base)
  }

  ghost function Pow(base: nat, n: nat): (r: nat)
    requires base > 0
    ensures r > 0
  {
    if n == 0 then 1 else Times(base, Pow(base, n - 1))
  }

  ghost function Times(x: nat, y: nat): (r: nat)
    requires x > 0 && y > 0
    ensures r == x * y && r > 0
  {
    MulMonotone(x, 1, y);
    x * y
  }

  /** The effect of one digit. */
  lemma {:induction false} Change(s: seq<int>, base: nat, i: nat, x: int)
    requires base > 0 && i < |s|
    ensures Number(s[i := x], base) == Number(s, base) + (x - s[i]) * Pow(base, i)
  {
    if i == 0 {
      assert s[0 := x][1..] == s[1..];
    } else {
      assert s[i := x][1..] == s[1..][i - 1 := x];
      Change(s[1..], base, i - 1, x);
      Rotate(x - s[i], base, Pow(base, i - 1));
    }
  }

  lemma {:induction false} Cut(s: seq<int>, base: nat, n: nat)
    requires base > 0 && n <= |s|
    ensures Number(s, base) == Number(s[..n], base) + Pow(base, n) * Number(s[n..], base)
  {
    if n == 0 {
      assert s[0..] == s;
    } else {
      assert s[..n][1..] == s[1..][..n - 1] && s[1..][n - 1..] == s[n..];
      Cut(s[1..], base, n - 1);
      Assoc(base, Pow(base, n - 1), Number(s[n..], base));
    }
  }

  lemma {:induction false} Zeros(s: seq<int>, base: int)
    requires forall i :: 0 <= i < |s| ==> s[i] == 0
    ensures Number(s, base) == 0
  {
    if s != [] {
      Zeros(s[1..], base);
    }
  }

  // ---------- bits ----------

  /** 1 & (a[i >> 3] >> (i & 7)). */
  function BitAt(a: seq<byte>, i: nat): (r: int)
    requires i < 8 * |a|
    ensures r in {0, 1}
  {
    Shr(a[i / 8], i % 8) % 2
  }

  /** The bits of a from bit 8 * k on. */
  ghost predicate AreBits(a: seq<byte>, s: seq<int>) {
    |s| == 8 * |a| && forall i :: 0 <= i < |s| ==> s[i] == BitAt(a, i)
  }

  lemma {:induction false} BitsValue(a: seq<byte>, s: seq<int>)
    requires AreBits(a, s)
    ensures Number(s, 2) == LeVal(a)
  {
    if a != [] {
      var t := s[8..];
      forall i | 0 <= i < |t| ensures t[i] == BitAt(a[1..], i) {
        assert (i + 8) / 8 == i / 8 + 1;
      }
      BitsValue(a[1..], t);
      EightBits(a, s);
      Cut(s, 2, 8);
      Pow2Is(8);
    }
  }

  lemma Pow2Is(n: nat)
    ensures Pow(2, n) == P2(n)
  {
  }

  lemma EightBits(a: seq<byte>, s: seq<int>)
    requires a != [] && AreBits(a, s)
    ensures Number(s[..8], 2) == a[0]
  {
    var x: int := a[0];
    P2Steps();
    assert s[0] == BitAt(a, 0) && s[1] == BitAt(a, 1) && s[2] == BitAt(a, 2) && s[3] == BitAt(a, 3);
    assert s[4] == BitAt(a, 4) && s[5] == BitAt(a, 5) && s[6] == BitAt(a, 6) && s[7] == BitAt(a, 7);
    Unfold8(s[..8]);
    Halves(x);
  }

  lemma Unfold8(t: seq<int>)
    requires |t| == 8
    ensures Number(t, 2) == t[0] + 2 * (t[1] + 2 * (t[2] + 2 * (t[3] + 2 * (t[4] + 2 * (t[5] + 2 * (t[6] + 2 * t[7]))))))
  {
    FirstDigit(t, 0);
    FirstDigit(t, 1);
    FirstDigit(t, 2);
    FirstDigit(t, 3);
    FirstDigit(t, 4);
    FirstDigit(t, 5);
    FirstDigit(t, 6);
    FirstDigit(t, 7);
    assert t[0..] == t && t[8..] == [];
  }

  lemma FirstDigit(t: seq<int>, i: nat)
    requires i < |t|
    ensures Number(t[i..], 2) == t[i] + 2 * Number(t[i + 1..], 2)
  {
    assert t[i..][1..] == t[i + 1..];
  }

  lemma Halves(x: nat)
    requires x < 256
    ensures x == x % 2 + 2 * (x / 2 % 2 + 2 * (x / 4 % 2 + 2 * (x / 8 % 2 + 2 * (x / 16 % 2 + 2 * (x / 32 % 2 + 2 * (x / 64 % 2 + 2 * (x / 128 % 2)))))))
  {
    FourHalves(x);
    FourHalves(x / 16);
    DivMul(x, 16, 2);
    DivMul(x, 16, 4);
    DivMul(x, 16, 8);
    DivMul(x, 16, 16);
    assert x / 256 == 0;
  }

  lemma FourHalves(x: nat)
    ensures x == x % 2 + 2 * (x / 2 % 2 + 2 * (x / 4 % 2 + 2 * (x / 8 % 2 + 2 * (x / 16))))
  {
    DivMul(x, 2, 2);
    DivMul(x, 4, 2);
    DivMul(x, 8, 2);
  }

  // ---------- the sliding window ----------

  /** A digit is zero, or odd and at most 15 in magnitude. */
  predicate Digit(x: int) {
    x == 0 || (x % 2 == 1 && -15 <= x <= 15)
  }

  /** The digits below n are done: each is followed by at least four zeros. */
  ghost predicate Sparse(s: seq<int>, n: nat) {
    && n <= |s|
    && (forall j :: 0 <= j < n ==> Digit(s[j]))
    && (forall j, m :: 0 <= j < n && j < m <= j + 4 && m < |s| && s[j] != 0 ==> s[m] == 0)
  }

  ghost predicate BitsFrom(s: seq<int>, n: nat) {
    forall j :: n <= j < |s| ==> s[j] in {0, 1}
  }

  /** Sparse digits below n stand for less than 2^(n + 3). */
  lemma {:induction false} SparseBound(s: seq<int>, n: nat)
    requires Sparse(s, n)
    ensures -8 * P2(n) < Number(s[..n], 2) < 8 * P2(n)
  {
    hide P2, Number, Pow;
    if n > 0 {
      var d, p := s[n - 1], P2(n - 1);
      LastDigit(s[..n]);
      assert s[..n][..n - 1] == s[..n - 1];
      Pow2Is(n - 1);
      P2Next(n - 1);
      Scaled(p, d);
      if d == 0 {
        SparseBound(s, n - 1);
      } else if n >= 5 {
        SparseBound(s, n - 5);
        FourZeros(s, n);
        P2Down(n);
      } else {
        FirstZeros(s, n);
      }
    } else {
      Zeros(s[..0], 2);
    }
  }

  lemma Scaled(p: nat, d: int)
    requires -15 <= d <= 15
    ensures -15 * p <= p * d <= 15 * p && (d == 0 ==> p * d == 0)
  {
    MulMonotone(p, -15, d);
    MulMonotone(p, d, 15);
  }

  lemma P2Down(n: nat)
    requires n >= 5
    ensures P2(n) == 2 * P2(n - 1) && P2(n - 1) == 16 * P2(n - 5)
  {
    assert P2(n - 1) == 2 * P2(n - 2);
    assert P2(n - 2) == 2 * P2(n - 3);
    assert P2(n - 3) == 2 * P2(n - 4);
    assert P2(n - 4) == 2 * P2(n - 5);
  }

  lemma LastDigit(t: seq<int>)
    requires t != []
    ensures Number(t, 2) == Number(t[..|t| - 1], 2) + Pow(2, |t| - 1) * t[|t| - 1]
  {
    Cut(t, 2, |t| - 1);
    assert t[|t| - 1..] == [t[|t| - 1]];
  }

  lemma FourZeros(s: seq<int>, n: nat)
    requires Sparse(s, n) && n >= 5 && s[n - 1] != 0
    ensures Number(s[..n - 1], 2) == Number(s[..n - 5], 2)
  {
    Cut(s[..n - 1], 2, n - 5);
    assert s[..n - 1][..n - 5] == s[..n - 5];
    assert forall j :: n - 5 <= j < n - 1 ==> s[j] == 0;
    Zeros(s[..n - 1][n - 5..], 2);
  }

  lemma FirstZeros(s: seq<int>, n: nat)
    requires Sparse(s, n) && 0 < n < 5 && s[n - 1] != 0
    ensures Number(s[..n - 1], 2) == 0
  {
    assert forall j :: 0 <= j < n - 1 ==> s[j] == 0;
    Zeros(s[..n - 1], 2);
  }

  /** What slide promises for a scalar: digits, sparse, that stand for it. */
  ghost predicate IsSlide(s: seq<int>, a: seq<byte>) {
    |s| == 256 && Sparse(s, 256) && Number(s, 2) == LeVal(a)
  }

  /** The state at digit i, when its window is done below i + b. */
  ghost predicate Window(s: seq<int>, a: seq<byte>, i: nat, b: nat) {
    && |s| == 256 && i < 256 && Number(s, 2) == LeVal(a)
    && Sparse(s, i) && BitsFrom(s, i + 1)
    && s[i] % 2 == 1
    && (if b <= 4 then 1 <= s[i] < P2(b) else -15 <= s[i] <= 15)
    && (forall j :: i < j < i + b && j < 256 ==> s[j] == 0)
  }

  lemma WindowStart(s: seq<int>, a: seq<byte>, i: nat)
    requires |s| == 256 && i < 256 && Number(s, 2) == LeVal(a) && Sparse(s, i) && BitsFrom(s, i) && s[i] != 0
    ensures Window(s, a, i, 1)
  {
    P2Steps();
  }

  lemma WindowSkip(s: seq<int>, a: seq<byte>, i: nat, b: nat)
    requires Window(s, a, i, b) && 0 < b && i + b < 256 && s[i + b] == 0
    ensures Window(s, a, i, b + 1)
  {
    P2Steps();
    P2Next(b);
  }

  lemma WindowDone(s: seq<int>, a: seq<byte>, i: nat, b: nat)
    requires Window(s, a, i, b) && (5 <= b || 256 <= i + b)
    ensures Sparse(s, i + 1) && BitsFrom(s, i + 1)
  {
    P2Steps();
    if b <= 4 {
      assert b in {0, 1, 2, 3, 4};
    }
  }

  lemma ZeroDone(s: seq<int>, i: nat)
    requires i < |s| && Sparse(s, i) && BitsFrom(s, i) && s[i] == 0
    ensures Sparse(s, i + 1) && BitsFrom(s, i + 1)
  {
  }

  /** Up to b == 3 a bit can always be added, for b == 4 always subtracted, and behind neither. */
  lemma WhichBranch(s: seq<int>, a: seq<byte>, i: nat, b: nat)
    requires Window(s, a, i, b) && 1 <= b <= 6 && i + b < 256 && s[i + b] != 0
    ensures s[i + b] == 1
    ensures s[i] + P2(b) <= 15 <==> b <= 3
    ensures b >= 4 ==> (s[i] - P2(b) >= -15 <==> b == 4)
  {
    P2Steps();
    assert b in {1, 2, 3, 4, 5, 6};
  }

  lemma Absorbed(s: seq<int>, a: seq<byte>, i: nat, b: nat)
    requires Window(s, a, i, b) && 1 <= b <= 3 && i + b < 256 && s[i + b] == 1
    ensures Window(s[i := s[i] + P2(b)][i + b := 0], a, i, b + 1)
  {
    hide Number;
    P2Steps();
    AbsorbedValue(s, i, b);
    assert b in {1, 2, 3};
  }

  lemma AbsorbedValue(s: seq<int>, i: nat, b: nat)
    requires 0 < b && i + b < |s| && s[i + b] == 1
    ensures Number(s[i := s[i] + P2(b)][i + b := 0], 2) == Number(s, 2)
  {
    hide Number, P2, Pow;
    var t := s[i := s[i] + P2(b)];
    Change(s, 2, i, s[i] + P2(b));
    Change(t, 2, i + b, 0);
    P2Add(i, b);
    Pow2Is(i);
    Pow2Is(i + b);
  }

  /** The bits below k have been turned to zero, and 2^k is still to be added. */
  ghost predicate Carrying(s: seq<int>, s0: seq<int>, a: seq<byte>, i: nat, k: nat) {
    && |s| == |s0| == 256 && i + 4 <= k <= 256 && Window(s0, a, i, 4) && i + 4 < 256
    && s[i] == s0[i] - 16
    && (forall j :: 0 <= j < 256 && j != i && !(i + 4 <= j < k) ==> s[j] == s0[j])
    && (forall j :: i + 4 <= j < k ==> s[j] == 0)
    && Number(s, 2) == LeVal(a) - P2(k)
  }

  lemma CarryStart(s0: seq<int>, a: seq<byte>, i: nat)
    requires Window(s0, a, i, 4) && i + 4 < 256
    ensures Carrying(s0[i := s0[i] - 16], s0, a, i, i + 4)
  {
    hide Number;
    Change(s0, 2, i, s0[i] - 16);
    Pow2Is(i);
    P2Add(i, 4);
    P2Steps();
  }

  lemma CarryOn(s: seq<int>, s0: seq<int>, a: seq<byte>, i: nat, k: nat)
    requires Carrying(s, s0, a, i, k) && k < 256 && s[k] != 0
    ensures Carrying(s[k := 0], s0, a, i, k + 1)
  {
    hide Number;
    assert s[k] == 1;
    Change(s, 2, k, 0);
    Pow2Is(k);
    P2Next(k);
  }

  lemma CarryEnd(s: seq<int>, s0: seq<int>, a: seq<byte>, i: nat, k: nat)
    requires Carrying(s, s0, a, i, k) && k < 256 && s[k] == 0
    requires s0[i + 4] == 1
    ensures Window(s[k := 1], a, i, 5)
  {
    hide Number;
    Change(s, 2, k, 1);
    Pow2Is(k);
    P2Steps();
    assert s[k] == s0[k];
  }

  /** The carry of a scalar below 2^255 finds a zero before the digits end. */
  lemma NeverDropped(s: seq<int>, s0: seq<int>, a: seq<byte>, i: nat, k: nat)
    requires Carrying(s, s0, a, i, k) && |a| == 32 && a[31] < 128
    ensures k < 256
  {
    hide Number;
    if k == 256 {
      BelowCarry(s, s0, a, i);
      TopValue(a);
    }
  }

  lemma BelowCarry(s: seq<int>, s0: seq<int>, a: seq<byte>, i: nat)
    requires Carrying(s, s0, a, i, 256)
    ensures Number(s, 2) + P2(255) > 0
  {
    hide Number, P2, LeVal;
    P2Steps();
    SparseBound(s, i + 1);
    Cut(s, 2, i + 1);
    Zeros(s[i + 1..], 2);
    P2Add(i + 1, 3);
    P2Monotone(i + 4, 255);
  }

  lemma TopValue(a: seq<byte>)
    requires |a| == 32 && a[31] < 128
    ensures LeVal(a) < P2(255) && P2(256) == 2 * P2(255)
  {
    hide LeVal;
    P2Steps();
    TopBits(a, 7);
    P2Next(255);
  }

  lemma BitsStart(a: seq<byte>, s: seq<int>)
    requires AreBits(a, s)
    ensures Sparse(s, 0) && BitsFrom(s, 0)
  {
  }

  /** slide: the window of width 5 moves over the bits of a, least significant first. */
  method Slide(r: array<schar>, a: seq<byte>)
    requires r.Length == 256 && |a| == 32 && a[31] < 128
    modifies r
    ensures IsSlide(r[..], a)
  {
    hide Number, LeVal, Shr, P2, Sparse, BitsFrom, Window;
    var i := 0;
    while i < 256
      invariant 0 <= i <= 256
      invariant forall j :: 0 <= j < i ==> r[j] == BitAt(a, j)
    {
      r[i] := BitAt(a, i);
      i := i + 1;
    }
    BitsValue(a, r[..]);
    BitsStart(a, r[..]);
    i := 0;
    while i < 256
      invariant 0 <= i <= 256
      invariant Number(r[..], 2) == LeVal(a) && Sparse(r[..], i) && BitsFrom(r[..], i)
    {
      if r[i] != 0 {
        WindowStart(r[..], a, i);
        SlideWindow(r, a, i);
      } else {
        ZeroDone(r[..], i);
      }
      i := i + 1;
    }
  }

  /** One nonzero digit of slide takes up the bits of its window. */
  method SlideWindow(r: array<schar>, a: seq<byte>, i: nat)
    requires r.Length == 256 && |a| == 32 && a[31] < 128 && i < 256 && Window(r[..], a, i, 1)
    modifies r
    ensures Number(r[..], 2) == LeVal(a) && Sparse(r[..], i + 1) && BitsFrom(r[..], i + 1)
  {
    hide Number, LeVal, P2, Sparse, BitsFrom, Window;
    var b := 1;
    while b <= 6 && i + b < 256
      invariant 1 <= b <= 7 && Window(r[..], a, i, b)
    {
      ghost var s := r[..];
      if r[i + b] != 0 {
        WhichBranch(s, a, i, b);
        WindowDigits(s, a, i, b);
        if r[i] + r[i + b] * P2(b) <= 15 {
          Absorbed(s, a, i, b);
          r[i] := r[i] + r[i + b] * P2(b);
          r[i + b] := 0;
        } else if r[i] - r[i + b] * P2(b) >= -15 {
          CarryStart(s, a, i);
          Sixteen();
          r[i] := r[i] - r[i + b] * P2(b);
          CarryUp(r, a, i, s);
        } else {
          break;
        }
      } else {
        WindowSkip(s, a, i, b);
      }
      b := b + 1;
    }
    WindowDone(r[..], a, i, b);
    WindowValue(r[..], a, i, b);
  }

  lemma Sixteen()
    ensures P2(4) == 16
  {
    P2Steps();
  }

  lemma WindowDigits(s: seq<int>, a: seq<byte>, i: nat, b: nat)
    requires Window(s, a, i, b)
    ensures |s| == 256 && -15 <= s[i] <= 15
  {
    P2Steps();
    if b <= 4 {
      assert b in {0, 1, 2, 3, 4};
    }
  }

  lemma WindowValue(s: seq<int>, a: seq<byte>, i: nat, b: nat)
    requires Window(s, a, i, b)
    ensures Number(s, 2) == LeVal(a)
  {
  }

  /** Adds 2^(i + 4): ones become zero up to the first zero, which becomes one. */
  method CarryUp(r: array<schar>, a: seq<byte>, i: nat, ghost s0: seq<int>)
    requires r.Length == 256 && |a| == 32 && a[31] < 128
    requires Carrying(r[..], s0, a, i, i + 4) && s0[i + 4] == 1
    modifies r
    ensures Window(r[..], a, i, 5)
  {
    hide Carrying, Window, Number, LeVal;
    CarryingIndex(r[..], s0, a, i, i + 4);
    var k := i + 4;
    ghost var done := false;
    while k < 256
      invariant i + 4 <= k <= 256 && !done
      invariant Carrying(r[..], s0, a, i, k)
    {
      if r[k] == 0 {
        CarryEnd(r[..], s0, a, i, k);
        r[k] := 1;
        done := true;
        break;
      }
      CarryOn(r[..], s0, a, i, k);
      r[k] := 0;
      k := k + 1;
    }
    if !done {
      NeverDropped(r[..], s0, a, i, k);
    }
  }

  lemma CarryingIndex(s: seq<int>, s0: seq<int>, a: seq<byte>, i: nat, k: nat)
    requires Carrying(s, s0, a, i, k)
    ensures i + 4 <= k <= 256
  {
  }

  // ---------- radix 16 ----------

  /** What the digits of ge_scalarmult_base promise. */
  ghost predicate IsRadix16(e: seq<int>, a: seq<byte>) {
    |e| == 64 && (forall i :: 0 <= i < 64 ==> -8 <= e[i] <= 8) && Number(e, 16) == LeVal(a)
  }

  ghost predicate AreNibbles(a: seq<byte>, e: seq<int>) {
    |e| == 2 * |a| && forall i :: 0 <= i < |a| ==> Nibbles(a[i], e, i)
  }

  ghost predicate Nibbles(b: byte, e: seq<int>, i: nat)
    requires 2 * i + 1 < |e|
  {
    var x: int := b;
    e[2 * i] == x % 16 && e[2 * i + 1] == x / 16
  }

  lemma {:induction false} NibblesValue(a: seq<byte>, e: seq<int>)
    requires AreNibbles(a, e)
    ensures Number(e, 16) == LeVal(a)
  {
    if a != [] {
      var f := e[2..];
      assert forall i :: 0 <= i < |a| - 1 ==> Nibbles(a[i + 1], e, i + 1) ==> Nibbles(a[1..][i], f, i);
      NibblesValue(a[1..], f);
      assert Nibbles(a[0], e, 0);
      assert e[1..][1..] == f;
      assert Number(e[1..], 16) == e[1] + 16 * Number(f, 16);
    }
  }

  /** The digits below i are balanced, and a carry is still to be added at i. */
  ghost predicate Balancing(e: seq<int>, a: seq<byte>, i: nat, carry: int) {
    && |e| == 64 && i <= 63 && 0 <= carry <= 1
    && (forall j :: 0 <= j < i ==> -8 <= e[j] <= 8)
    && (forall j :: i <= j < 64 ==> 0 <= e[j] <= 15)
    && e[63] <= 7
    && Number(e, 16) + carry * Pow(16, i) == LeVal(a)
  }

  lemma BalanceStep(e: seq<int>, a: seq<byte>, i: nat, carry: int)
    requires Balancing(e, a, i, carry) && i < 63
    ensures var c := (e[i] + carry + 8) / 16;
            Balancing(e[i := e[i] + carry - 16 * c], a, i + 1, c)
  {
    hide Number;
    var c := (e[i] + carry + 8) / 16;
    Change(e, 16, i, e[i] + carry - 16 * c);
    SplitCarry(carry, c, Pow(16, i));
  }

  lemma SplitCarry(carry: int, c: int, p: int)
    ensures (carry - 16 * c) * p + c * (16 * p) == carry * p
  {
  }

  lemma BalanceEnd(e: seq<int>, a: seq<byte>, carry: int)
    requires Balancing(e, a, 63, carry)
    ensures IsRadix16(e[63 := e[63] + carry], a)
  {
    hide Number, Pow;
    Change(e, 16, 63, e[63] + carry);
  }

  lemma BalanceStart(e: seq<int>, a: seq<byte>)
    requires AreNibbles(a, e) && |a| == 32 && a[31] <= 127
    ensures Balancing(e, a, 0, 0)
  {
    NibblesValue(a, e);
    forall j | 0 <= j < 64 ensures 0 <= e[j] <= 15 && (j == 63 ==> e[j] <= 7) {
      assert Nibbles(a[j / 2], e, j / 2);
    }
  }

  /** The digits of ge_scalarmult_base: half-bytes, then carries that leave each between -8 and 8. */
  method Radix16(e: array<schar>, a: seq<byte>)
    requires e.Length == 64 && |a| == 32 && a[31] <= 127
    modifies e
    ensures IsRadix16(e[..], a)
  {
    hide Number, LeVal, Pow, Balancing;
    var i := 0;
    while i < 32
      invariant 0 <= i <= 32
      invariant forall j :: 0 <= j < i ==> Nibbles(a[j], e[..], j)
    {
      var x: int := a[i];
      e[2 * i] := x % 16;
      e[2 * i + 1] := x / 16 % 16;
      i := i + 1;
    }
    BalanceStart(e[..], a);
    var carry: schar := 0;
    i := 0;
    while i < 63
      invariant 0 <= i <= 63 && Balancing(e[..], a, i, carry)
    {
      ghost var before := e[..];
      BalanceDigits(before, a, i, carry);
      BalanceStep(before, a, i, carry);
      e[i] := e[i] + carry;
      carry := e[i] + 8;
      carry := carry / 16;
      e[i] := e[i] - carry * 16;
      assert e[..] == before[i := e[i]];
      i := i + 1;
    }
    BalanceDigits(e[..], a, 63, carry);
    BalanceEnd(e[..], a, carry);
    e[63] := e[63] + carry;
  }

  lemma BalanceDigits(e: seq<int>, a: seq<byte>, i: nat, carry: int)
    requires Balancing(e, a, i, carry)
    ensures |e| == 64 && i < 64 && 0 <= carry <= 1 && 0 <= e[i] <= 15
  {
  }
}
