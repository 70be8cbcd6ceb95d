/** Powers of two, shifts, and little-endian byte strings. */
module Binary {
  import opened Arith
  import opened Bytes

  newtype int64 = x: int | -0x8000_0000_0000_0000 <= x < 0x8000_0000_0000_0000

  // ---------- powers of two ----------

  function P2(k: nat): (r: nat)
    ensures r > 0
  {
    if k == 0 then 1 else 2 * P2(k - 1)
  }

  lemma P2Next(n: nat)
    ensures P2(n + 1) == 2 * P2(n)
  {
  }

  lemma {:induction false} P2Add(a: nat, b: nat)
    ensures P2(a + b) == P2(a) * P2(b)
  {
    if a > 0 {
      P2Add(a - 1, b);
      assert a + b - 1 == a - 1 + b;
      Assoc(2, P2(a - 1), P2(b));
    }
  }

  lemma {:induction false} P2Monotone(m: nat, n: nat)
    requires m <= n
    ensures P2(m) <= P2(n)
    decreases n - m
  {
    if m < n {
      P2Monotone(m, n - 1);
      P2Next(n - 1);
    }
  }

  lemma P2Steps()
    ensures P2(0) == 1 && P2(1) == 2 && P2(2) == 4 && P2(3) == 8 && P2(4) == 0x10 && P2(5) == 0x20
    ensures P2(6) == 0x40 && P2(7) == 0x80 && P2(8) == 0x100
  {
    assert P2(1) == 2 * P2(0);
    assert P2(2) == 2 * P2(1);
    assert P2(3) == 2 * P2(2);
    assert P2(4) == 2 * P2(3);
    assert P2(5) == 2 * P2(4);
    assert P2(6) == 2 * P2(5);
    assert P2(7) == 2 * P2(6);
    assert P2(8) == 2 * P2(7);
  }

  lemma P2Table()
    ensures P2(8) == 0x100 && P2(16) == 0x1_0000 && P2(21) == 0x20_0000
    ensures P2(24) == 0x100_0000 && P2(32) == 0x1_0000_0000
  {
    P2Steps();
    P2Add(8, 8);
    P2Add(5, 16);
    P2Add(8, 16);
    P2Add(16, 16);
  }

  lemma P2Small(a: nat)
    requires a <= 7
    ensures P2(a) <= 128
  {
    P2Steps();
  }

  lemma Byte8()
    ensures P2(8) == 256
  {
    P2Table();
  }

  // ---------- shifts ----------

  /** x >> a. */
  function Shr(x: nat, a: nat): (r: nat)
    ensures r <= x
  {
    DivRange(x, P2(a));
    x / P2(a)
  }

  lemma DivRange(x: nat, d: nat)
    requires d > 0
    ensures 0 <= x / d <= x
  {
    MulMonotone(x / d, 1, d);
  }

  lemma Quotient(x: nat, d: nat, e: nat)
    requires d > 0
    ensures (x + d * e) / d == x / d + e && (x + d * e) % d == x % d
  {
    DivRange(x, d);
    DivUnique(x + d * e, d, x / d + e, x % d);
  }

  /** Bits above those shifted out stay in their places. */
  lemma ShiftOut(x: nat, y: nat, a: nat, b: nat)
    ensures P2(b) * y >= 0 && P2(a + b) * y >= 0
    ensures Shr(x + P2(a + b) * y, a) == Shr(x, a) + P2(b) * y
    ensures (x + P2(a + b) * y) % P2(a) == x % P2(a)
  {
    hide P2;
    P2Add(a, b);
    Assoc(P2(a), P2(b), y);
    MulMonotone(P2(b), 0, y);
    MulMonotone(P2(a + b), 0, y);
    Quotient(x, P2(a), P2(b) * y);
  }

  lemma ShiftTwice(n: nat, a: nat, b: nat)
    ensures Shr(n, a + b) == Shr(Shr(n, a), b)
  {
    P2Add(a, b);
    DivMul(n, P2(a), P2(b));
  }

  lemma Shift8(n: nat)
    ensures Shr(n, 8) == n / 256
  {
    P2Table();
  }

  lemma NoShift(x: nat)
    ensures Shr(x, 0) == x
  {
  }

  lemma LowByte(v: nat, z: nat, m: nat, e: nat)
    requires v == z + P2(8 + e) * m
    ensures v % 256 == z % 256
  {
    hide P2;
    Byte8();
    ShiftOut(z, m, 8, e);
  }

  /** Eight bits inside a limb x of w bits, whatever stands above it. */
  lemma EightInside(x: nat, m: nat, a: nat, w: nat)
    requires a + 8 <= w
    ensures P2(w) * m >= 0
    ensures Shr(x + P2(w) * m, a) % 256 == Shr(x, a) % 256
  {
    hide P2, Shr;
    Byte8();
    var b := w - 8 - a;
    assert a + (8 + b) == w;
    ShiftOut(x, m, a, 8 + b);
    ShiftOut(Shr(x, a), m, 8, b);
  }

  /** Eight bits from a limb x of w bits and the next limb y of u bits, whatever stands above them. */
  lemma EightAcross(x: nat, y: nat, m: nat, a: nat, w: nat, u: nat)
    requires a < w < a + 8 && 8 <= u
    ensures P2(u) * m >= 0 && P2(w) * (y + P2(u) * m) >= 0
    ensures Shr(x + P2(w) * (y + P2(u) * m), a) % 256 == (Shr(x, a) + y * P2(w - a)) % 256
  {
    hide P2, Shr;
    var b := w - a;
    MulMonotone(P2(u), 0, m);
    var n := y + P2(u) * m;
    ShiftOut(x, n, a, b);
    SplitProduct(b, y, m, u);
    MulMonotone(P2(b), 0, y);
    LowByte(Shr(x + P2(w) * n, a), Shr(x, a) + P2(b) * y, m, b + u - 8);
    assert y * P2(w - a) == P2(b) * y;
  }

  lemma SplitProduct(b: nat, y: nat, m: nat, u: nat)
    requires 8 <= u
    ensures P2(b) * (y + P2(u) * m) == P2(b) * y + P2(8 + (b + u - 8)) * m
  {
    hide P2;
    P2Add(b, u);
    assert b + u == 8 + (b + u - 8);
    Distribute(P2(b), y, P2(u) * m);
    Assoc(P2(b), P2(u), m);
  }

  // ---------- bytes ----------

  /** The number that bytes stand for, least significant first. */
  ghost function LeVal(b: seq<byte>): (r: nat) {
    if b == [] then 0 else b[0] + 256 * LeVal(b[1..])
  }

  lemma NextByte(s: seq<byte>, i: nat)
    requires i < |s|
    ensures LeVal(s[i..]) == s[i] + 256 * LeVal(s[i + 1..])
  {
    assert s[i..][1..] == s[i + 1..];
  }

  lemma {:induction false} LeValBound(a: seq<byte>)
    ensures LeVal(a) < P2(8 * |a|)
  {
    if a != [] {
      LeValBound(a[1..]);
      P2Add(8, 8 * (|a| - 1));
      P2Steps();
    }
  }

  lemma {:induction false} LeValSplit(a: seq<byte>, n: nat)
    requires n <= |a|
    ensures LeVal(a) == LeVal(a[..n]) + P2(8 * n) * LeVal(a[n..])
  {
    if n == 0 {
      assert a[0..] == a;
    } else {
      assert a[..n][1..] == a[1..][..n - 1] && a[1..][n - 1..] == a[n..];
      LeValSplit(a[1..], n - 1);
      P2Add(8, 8 * (n - 1));
      P2Steps();
      Assoc(256, P2(8 * (n - 1)), LeVal(a[n..]));
    }
  }

  lemma Step(p: int, x: int)
    ensures p * (x + 1) == p * x + p
  {
  }

  lemma LastByte(a: seq<byte>)
    requires |a| == 32
    ensures LeVal(a[31..]) == a[31]
  {
    assert a[31..] == [a[31]];
    assert LeVal(a[31..][1..]) == 0;
  }

  /** A 256-bit number with a top byte below 2^c is below 2^(248 + c). */
  lemma TopBits(a: seq<byte>, c: nat)
    requires |a| == 32 && c <= 8 && a[31] < P2(c)
    ensures LeVal(a) < P2(248 + c)
  {
    hide P2;
    var top: int := a[31];
    LeValSplit(a, 31);
    LeValBound(a[..31]);
    LastByte(a);
    P2Add(248, c);
    MulMonotone(P2(248), top + 1, P2(c));
    Step(P2(248), top);
  }

  // ---------- the most significant byte first ----------

  lemma {:induction false} BeValBound(a: seq<byte>)
    ensures BeVal(a) < P2(8 * |a|)
  {
    if a != [] {
      BeValBound(a[..|a| - 1]);
      P2Add(8, 8 * (|a| - 1));
      P2Steps();
    }
  }

  lemma {:induction false} BeValSplit(a: seq<byte>, n: nat)
    requires n <= |a|
    ensures BeVal(a) == BeVal(a[..n]) * P2(8 * (|a| - n)) + BeVal(a[n..])
    decreases |a| - n
  {
    if n == |a| {
      assert a[..n] == a;
    } else {
      var b := a[..|a| - 1];
      assert b[..n] == a[..n] && a[n..][..|a| - n - 1] == b[n..];
      BeValSplit(b, n);
      P2Add(8, 8 * (|b| - n));
      P2Steps();
      Assoc(256, P2(8 * (|b| - n)), BeVal(a[..n]));
      Assoc(BeVal(a[..n]), P2(8 * (|b| - n)), 256);
    }
  }

  function Load3(s: seq<byte>, i: nat): (r: nat)
    requires i + 3 <= |s|
    ensures r < 0x100_0000
  {
    s[i] as int + 0x100 * s[i + 1] as int + 0x1_0000 * s[i + 2] as int
  }

  function Load4(s: seq<byte>, i: nat): (r: nat)
    requires i + 4 <= |s|
    ensures r < 0x1_0000_0000
  {
    s[i] as int + 0x100 * s[i + 1] as int + 0x1_0000 * s[i + 2] as int + 0x100_0000 * s[i + 3] as int
  }

  lemma Loaded3(s: seq<byte>, i: nat)
    requires i + 3 <= |s|
    ensures LeVal(s[i..]) == Load3(s, i) + P2(24) * LeVal(s[i + 3..])
    ensures Shr(LeVal(s[i..]), 16) == LeVal(s[i + 2..]) && Shr(LeVal(s[i..]), 24) == LeVal(s[i + 3..])
  {
    P2Table();
    NextByte(s, i);
    NextByte(s, i + 1);
    NextByte(s, i + 2);
  }

  lemma Loaded4(s: seq<byte>, i: nat)
    requires i + 4 <= |s|
    ensures LeVal(s[i..]) == Load4(s, i) + P2(32) * LeVal(s[i + 4..])
  {
    P2Table();
    NextByte(s, i);
    NextByte(s, i + 1);
    NextByte(s, i + 2);
    NextByte(s, i + 3);
  }

  // ---------- bitwise operations ----------

  /** The exclusive or of the low k bits. */
  function XorBits(x: nat, y: nat, k: nat): nat {
    if k == 0 then 0 else (x + y) % 2 + 2 * XorBits(x / 2, y / 2, k - 1)
  }

  /** The or of the low k bits. */
  function OrBits(x: nat, y: nat, k: nat): nat {
    if k == 0 then 0 else (if x % 2 == 0 && y % 2 == 0 then 0 else 1) + 2 * OrBits(x / 2, y / 2, k - 1)
  }

  lemma {:induction false} XorFacts(x: nat, y: nat, k: nat)
    requires x < P2(k) && y < P2(k)
    ensures XorBits(x, y, k) < P2(k) && (XorBits(x, y, k) == 0 <==> x == y)
  {
    if k > 0 {
      P2Next(k - 1);
      XorFacts(x / 2, y / 2, k - 1);
      OneBit(x, y);
    }
  }

  lemma OneBit(x: nat, y: nat)
    ensures x == 2 * (x / 2) + x % 2 && y == 2 * (y / 2) + y % 2
    ensures (x + y) % 2 == (if x % 2 == y % 2 then 0 else 1)
    ensures x == y <==> x / 2 == y / 2 && (x + y) % 2 == 0
  {
    var p, a, q, b := x / 2, x % 2, y / 2, y % 2;
    if a == b {
      DivUnique(x + y, 2, p + q + a, 0);
    } else {
      DivUnique(x + y, 2, p + q, 1);
    }
  }

  lemma {:induction false} OrFacts(x: nat, y: nat, k: nat)
    requires x < P2(k) && y < P2(k)
    ensures OrBits(x, y, k) < P2(k) && (OrBits(x, y, k) == 0 <==> x == 0 && y == 0)
  {
    if k > 0 {
      P2Next(k - 1);
      OrFacts(x / 2, y / 2, k - 1);
      assert x == 2 * (x / 2) + x % 2 && y == 2 * (y / 2) + y % 2;
    }
  }

  /** x ^ y. */
  function Xor(x: byte, y: byte): (r: byte)
    ensures r == 0 <==> x == y
  {
    P2Steps();
    XorFacts(x, y, 8);
    XorBits(x, y, 8)
  }

  /** x | y. */
  function Or(x: byte, y: byte): (r: byte)
    ensures r == 0 <==> x == 0 && y == 0
  {
    P2Steps();
    OrFacts(x, y, 8);
    OrBits(x, y, 8)
  }
}
