/** Little-endian byte strings and limbs of 21 bits. */
module ScalarBytes {
  import opened Arith
  import opened Binary
  import opened Bytes
  import opened ScalarLimbs

  // ---------- shifts of limbs ----------

  /** x >> a. */
  function Shr64(x: int64, a: nat): (r: int64)
    requires x >= 0
    ensures 0 <= r <= x
  {
    Shr(x as int, a) as int64
  }

  /** x << a. */
  function Shl64(x: int64, a: nat): (r: int64)
    requires 0 <= x as int <= RADIX && a <= 7
    ensures 0 <= r as int <= 128 * RADIX && r as int == x as int * P2(a)
  {
    P2Small(a);
    MulMonotone(x as int, P2(a), 128);
    MulMonotone(P2(a), 0, x as int);
    (x as int * P2(a)) as int64
  }

  // ---------- loading ----------

  /** 2097151 & x. */
  function Low21(x: nat): (r: int64)
    ensures 0 <= r as int < RADIX
  {
    (x % RADIX) as int64
  }

  /** The limbs of 64 bytes, the top one with all the bits that are left. */
  function Limbs64(s: seq<byte>): (r: seq<int64>)
    requires |s| == 64
    ensures |r| == 24
  {
    [
      Low21(Load3(s, 0)), Low21(Shr(Load4(s, 2), 5)), Low21(Shr(Load3(s, 5), 2)), Low21(Shr(Load4(s, 7), 7)),
      Low21(Shr(Load4(s, 10), 4)), Low21(Shr(Load3(s, 13), 1)), Low21(Shr(Load4(s, 15), 6)), Low21(Shr(Load3(s, 18), 3)),
      Low21(Load3(s, 21)), Low21(Shr(Load4(s, 23), 5)), Low21(Shr(Load3(s, 26), 2)), Low21(Shr(Load4(s, 28), 7)),
      Low21(Shr(Load4(s, 31), 4)), Low21(Shr(Load3(s, 34), 1)), Low21(Shr(Load4(s, 36), 6)), Low21(Shr(Load3(s, 39), 3)),
      Low21(Load3(s, 42)), Low21(Shr(Load4(s, 44), 5)), Low21(Shr(Load3(s, 47), 2)), Low21(Shr(Load4(s, 49), 7)),
      Low21(Shr(Load4(s, 52), 4)), Low21(Shr(Load3(s, 55), 1)), Low21(Shr(Load4(s, 57), 6)), (Shr(Load4(s, 60), 3)) as int64
    ]
  }

  /** The limbs of 32 bytes, the top one with all the bits that are left. */
  function Limbs32(s: seq<byte>): (r: seq<int64>)
    requires |s| == 32
    ensures |r| == 12
  {
    [
      Low21(Load3(s, 0)), Low21(Shr(Load4(s, 2), 5)), Low21(Shr(Load3(s, 5), 2)), Low21(Shr(Load4(s, 7), 7)),
      Low21(Shr(Load4(s, 10), 4)), Low21(Shr(Load3(s, 13), 1)), Low21(Shr(Load4(s, 15), 6)), Low21(Shr(Load3(s, 18), 3)),
      Low21(Load3(s, 21)), Low21(Shr(Load4(s, 23), 5)), Low21(Shr(Load3(s, 26), 2)), (Shr(Load4(s, 28), 7)) as int64
    ]
  }

  /** The 21 bits of s from bit 21 * k on. */
  ghost function LimbOf(s: seq<byte>, k: nat): int64
    requires 21 * k / 8 + 4 <= |s|
  {
    var i, a := 21 * k / 8, 21 * k % 8;
    Low21(Shr(if a <= 3 then Load3(s, i) else Load4(s, i), a))
  }

  /** All the bits of s from bit 21 * k on. */
  ghost function From(s: seq<byte>, k: nat): nat
    requires 21 * k / 8 <= |s|
  {
    Shr(LeVal(s[21 * k / 8..]), 21 * k % 8)
  }

  /** The low bits of a shifted number, from its first bits alone. */
  lemma FirstBits(low: nat, high: nat, a: nat, b: nat)
    ensures P2(a + (21 + b)) * high >= 0
    ensures Shr(low + P2(a + (21 + b)) * high, a) % RADIX == Shr(low, a) % RADIX
  {
    hide P2, Shr;
    Radix21();
    ShiftOut(low, high, a, 21 + b);
    ShiftOut(Shr(low, a), high, 21, b);
  }

  lemma Radix21()
    ensures P2(21) == RADIX
  {
    P2Table();
  }

  lemma ThisLimb(s: seq<byte>, k: nat)
    requires 21 * k / 8 + 4 <= |s|
    ensures From(s, k) % RADIX == LimbOf(s, k) as int
  {
    hide LeVal, P2, Load3, Load4, Shr;
    var i, a := 21 * k / 8, 21 * k % 8;
    if a <= 3 {
      Loaded3(s, i);
      FirstBits(Load3(s, i), LeVal(s[i + 3..]), a, 3 - a);
    } else {
      Loaded4(s, i);
      FirstBits(Load4(s, i), LeVal(s[i + 4..]), a, 11 - a);
    }
  }

  lemma NextLimb(s: seq<byte>, k: nat)
    requires 21 * k / 8 + 4 <= |s|
    ensures From(s, k) / RADIX == From(s, k + 1)
  {
    hide LeVal, P2, Load3, Load4, Shr;
    var i, a := 21 * k / 8, 21 * k % 8;
    var i', a' := 21 * (k + 1) / 8, 21 * (k + 1) % 8;
    var n := LeVal(s[i..]);
    var whole := if a >= 3 then 24 else 16;
    assert a + 21 == whole + a';
    Loaded3(s, i);
    ShiftTwice(n, a, 21);
    ShiftTwice(n, whole, a');
    Shift21(Shr(n, a));
    assert i' == i + whole / 8;
  }

  lemma Shift21(n: nat)
    ensures Shr(n, 21) == n / RADIX
  {
    P2Table();
  }

  lemma {:induction false} LimbsFrom(s: seq<byte>, r: seq<int64>, k: nat)
    requires 0 < |r| && |s| == 21 * (|r| - 1) / 8 + 4 && k < |r|
    requires forall j :: 0 <= j < |r| - 1 ==> r[j] == LimbOf(s, j)
    requires r[|r| - 1] as int == From(s, |r| - 1)
    ensures Val(r[k..]) == From(s, k)
    decreases |r| - k
  {
    hide LimbOf, From;
    if k < |r| - 1 {
      LimbsFrom(s, r, k + 1);
      ThisLimb(s, k);
      NextLimb(s, k);
      assert r[k..][1..] == r[k + 1..];
    } else {
      assert r[k..] == [r[k]];
      assert r[k..][1..] == [];
    }
  }

  lemma WholeFrom(s: seq<byte>)
    ensures From(s, 0) == LeVal(s)
  {
    assert s[0..] == s;
  }

  lemma TopFrom(s: seq<byte>, k: nat)
    requires |s| == 21 * k / 8 + 4
    ensures From(s, k) == Shr(Load4(s, 21 * k / 8), 21 * k % 8)
  {
    hide Load4, P2, Shr;
    var i := 21 * k / 8;
    Loaded4(s, i);
    assert s[i + 4..] == [];
  }

  lemma Limbs64Value(s: seq<byte>)
    requires |s| == 64
    ensures Val(Limbs64(s)) == LeVal(s)
    ensures AllSmall(Limbs64(s), 0x4_0000_0000)
  {
    hide LeVal, P2, Shr, Load3, Load4, From, Low21;
    var r := Limbs64(s);
    TopFrom(s, 23);
    NoShift(Load3(s, 0));
    NoShift(Load3(s, 21));
    NoShift(Load3(s, 42));
    LimbsFrom(s, r, 0);
    WholeFrom(s);
    assert r[0..] == r;
  }

  lemma Limbs32Value(s: seq<byte>)
    requires |s| == 32
    ensures Val(Limbs32(s)) == LeVal(s)
    ensures forall i :: 0 <= i < 12 ==> 0 <= Limbs32(s)[i] as int < 0x200_0000
  {
    hide LeVal, P2, Shr, Load3, Load4, From, Low21;
    var r := Limbs32(s);
    TopFrom(s, 11);
    NoShift(Load3(s, 0));
    NoShift(Load3(s, 21));
    Top25(Load4(s, 28));
    LimbsFrom(s, r, 0);
    WholeFrom(s);
    assert r[0..] == r;
  }

  lemma Top25(x: nat)
    requires x < 0x1_0000_0000
    ensures Shr(x, 7) < 0x200_0000
  {
    P2Steps();
  }

  // ---------- storing ----------

  /** The conversion to unsigned char. */
  function ToByte(x: int64): byte {
    (x % 256) as int
  }

  /** Limbs 0..10 are proper digits, limb 11 at most the radix. */
  predicate Digits(r: limbs) {
    (forall i :: 0 <= i < 11 ==> 0 <= r[i] as int < RADIX) && 0 <= r[11] as int <= RADIX
  }

  /** (unsigned char) (r[k] >> a). */
  function Bits(r: limbs, k: nat, a: nat): byte
    requires Digits(r) && k < 12
  {
    ToByte(Shr64(r[k], a))
  }

  /** (unsigned char) ((r[k] >> a) | (r[k + 1] << (21 - a))). */
  function Both(r: limbs, k: nat, a: nat): byte
    requires Digits(r) && k < 11 && 13 < a <= 21
  {
    ToByte(Shr64(r[k], a) + Shl64(r[k + 1], 21 - a))
  }

  /** The 32 bytes of twelve limbs. */
  function Packed(r: limbs): (b: seq<byte>)
    requires Digits(r)
    ensures |b| == 32
  {
    [
      Bits(r, 0, 0), Bits(r, 0, 8), Both(r, 0, 16), Bits(r, 1, 3), Bits(r, 1, 11), Both(r, 1, 19), Bits(r, 2, 6),
      Both(r, 2, 14), Bits(r, 3, 1), Bits(r, 3, 9), Both(r, 3, 17), Bits(r, 4, 4), Bits(r, 4, 12), Both(r, 4, 20),
      Bits(r, 5, 7), Both(r, 5, 15), Bits(r, 6, 2), Bits(r, 6, 10), Both(r, 6, 18), Bits(r, 7, 5), Bits(r, 7, 13),
      Bits(r, 8, 0), Bits(r, 8, 8), Both(r, 8, 16), Bits(r, 9, 3), Bits(r, 9, 11), Both(r, 9, 19), Bits(r, 10, 6),
      Both(r, 10, 14), Bits(r, 11, 1), Bits(r, 11, 9), Bits(r, 11, 17)
    ]
  }

  /** The limb, and the bit in it, where byte j begins. */
  ghost function Place(j: nat): (p: (nat, nat))
    requires j <= 32
    ensures 8 * j == 21 * p.0 + p.1 && p.1 < 21
  {
    (8 * j / 21, 8 * j % 21)
  }

  lemma AtPlace(j: nat, k: nat, a: nat)
    requires j <= 32 && 8 * j == 21 * k + a && a < 21
    ensures Place(j) == (k, a)
  {
    DivUnique(8 * j, 21, k, a);
  }

  /** Eight bits of the limbs from bit 8 * j on. */
  ghost function ByteOf(r: limbs, j: nat): byte
    requires j < 32 && Digits(r)
  {
    var (k, a) := Place(j);
    if a > 13 && k < 11 then Both(r, k, a) else Bits(r, k, a)
  }

  lemma PackedBytes0(r: limbs, j: nat)
    requires 0 <= j < 8 && Digits(r)
    ensures Packed(r)[j] == ByteOf(r, j)
  {
    hide Bits, Both, Digits, Place;
    AtPlace(0, 0, 0);
    AtPlace(1, 0, 8);
    AtPlace(2, 0, 16);
    AtPlace(3, 1, 3);
    AtPlace(4, 1, 11);
    AtPlace(5, 1, 19);
    AtPlace(6, 2, 6);
    AtPlace(7, 2, 14);
  }

  lemma PackedBytes1(r: limbs, j: nat)
    requires 8 <= j < 16 && Digits(r)
    ensures Packed(r)[j] == ByteOf(r, j)
  {
    hide Bits, Both, Digits, Place;
    AtPlace(8, 3, 1);
    AtPlace(9, 3, 9);
    AtPlace(10, 3, 17);
    AtPlace(11, 4, 4);
    AtPlace(12, 4, 12);
    AtPlace(13, 4, 20);
    AtPlace(14, 5, 7);
    AtPlace(15, 5, 15);
  }

  lemma PackedBytes2(r: limbs, j: nat)
    requires 16 <= j < 24 && Digits(r)
    ensures Packed(r)[j] == ByteOf(r, j)
  {
    hide Bits, Both, Digits, Place;
    AtPlace(16, 6, 2);
    AtPlace(17, 6, 10);
    AtPlace(18, 6, 18);
    AtPlace(19, 7, 5);
    AtPlace(20, 7, 13);
    AtPlace(21, 8, 0);
    AtPlace(22, 8, 8);
    AtPlace(23, 8, 16);
  }

  lemma PackedBytes3(r: limbs, j: nat)
    requires 24 <= j < 32 && Digits(r)
    ensures Packed(r)[j] == ByteOf(r, j)
  {
    hide Bits, Both, Digits, Place;
    AtPlace(24, 9, 3);
    AtPlace(25, 9, 11);
    AtPlace(26, 9, 19);
    AtPlace(27, 10, 6);
    AtPlace(28, 10, 14);
    AtPlace(29, 11, 1);
    AtPlace(30, 11, 9);
    AtPlace(31, 11, 17);
  }

  /** Every byte is the eight bits at its place. */
  lemma PackedBytes(r: limbs, j: nat)
    requires j < 32 && Digits(r)
    ensures Packed(r)[j] == ByteOf(r, j)
  {
    hide *;
    if j < 8 {
      PackedBytes0(r, j);
    } else if j < 16 {
      PackedBytes1(r, j);
    } else if j < 24 {
      PackedBytes2(r, j);
    } else {
      PackedBytes3(r, j);
    }
  }

  /** The limbs from bit 8 * j on. */
  ghost function Above(r: limbs, j: nat): nat
    requires j <= 32 && Digits(r)
  {
    var (k, a) := Place(j);
    Shr(Rest(r, k), a)
  }

  /** The number that limbs k..11 stand for. */
  ghost function Rest(r: limbs, k: nat): nat
    requires k <= 12 && Digits(r)
    decreases 12 - k
  {
    if k == 12 then 0 else r[k] as int + RADIX * Rest(r, k + 1)
  }

  lemma {:induction false} RestValue(r: limbs, k: nat)
    requires k <= 12 && Digits(r)
    ensures Rest(r, k) == Val(r[k..12])
    decreases 12 - k
  {
    if k < 12 {
      RestValue(r, k + 1);
      assert r[k..12][1..] == r[k + 1..12];
    }
  }

  lemma BitsValue(r: limbs, k: nat, a: nat)
    requires Digits(r) && k < 12
    ensures Bits(r, k, a) == Shr(r[k] as int, a) % 256
  {
    hide Shr;
  }

  lemma BothValue(r: limbs, k: nat, a: nat)
    requires Digits(r) && k < 11 && 13 < a < 21
    ensures Both(r, k, a) == (Shr(r[k] as int, a) + r[k + 1] as int * P2(21 - a)) % 256
  {
    hide Shr, P2;
  }

  /** Where the bits of the next byte are. */
  lemma NextPlace(j: nat)
    requires j < 32
    ensures var (k, a) := Place(j); Place(j + 1) == if a < 13 then (k, a + 8) else (k + 1, a - 13)
  {
    hide Place;
    var (k, a) := Place(j);
    if a < 13 {
      AtPlace(j + 1, k, a + 8);
    } else {
      AtPlace(j + 1, k + 1, a - 13);
    }
  }

  lemma ThisByte(r: limbs, j: nat)
    requires j < 32 && Digits(r)
    ensures Above(r, j) % 256 == ByteOf(r, j)
  {
    hide P2, Shr, Bits, Both, Place, Digits, Rest;
    var (k, a) := Place(j);
    BitsValue(r, k, a);
    if a <= 13 {
      Inside(r, k, a);
    } else if k < 11 {
      Across(r, k, a);
    } else {
      LastLimb(r);
    }
  }

  lemma Inside(r: limbs, k: nat, a: nat)
    requires Digits(r) && k < 12 && a <= 13
    ensures Shr(Rest(r, k), a) % 256 == Shr(r[k] as int, a) % 256
  {
    hide P2, Shr;
    Radix21();
    EightInside(r[k] as int, Rest(r, k + 1), a, 21);
  }

  lemma Across(r: limbs, k: nat, a: nat)
    requires Digits(r) && k < 11 && 13 < a < 21
    ensures Shr(Rest(r, k), a) % 256 == Both(r, k, a)
  {
    hide P2, Shr, Both;
    BothValue(r, k, a);
    assert Rest(r, k + 1) == r[k + 1] as int + RADIX * Rest(r, k + 2);
    Radix21();
    EightAcross(r[k] as int, r[k + 1] as int, Rest(r, k + 2), a, 21, 21);
  }

  lemma LastLimb(r: limbs)
    requires Digits(r)
    ensures Rest(r, 11) == r[11] as int <= RADIX
  {
    assert Rest(r, 11) == r[11] as int + RADIX * Rest(r, 12);
  }

  lemma ShiftLimb(x: nat, m: nat)
    requires x < RADIX
    ensures Shr(x + RADIX * m, 21) == m
  {
    Radix21();
  }

  lemma NextAbove(r: limbs, j: nat)
    requires j < 32 && Digits(r)
    ensures Above(r, j) / 256 == Above(r, j + 1)
  {
    hide P2, Shr, Place;
    NextPlace(j);
    var (k, a) := Place(j);
    var n := Rest(r, k);
    Shift8(Shr(n, a));
    ShiftTwice(n, a, 8);
    if a >= 13 && k < 11 {
      ShiftLimb(r[k] as int, Rest(r, k + 1));
      ShiftTwice(n, 21, a - 13);
    } else if a >= 13 {
      LastLimb(r);
      Nothing(n);
    }
  }

  /** Behind the last byte there is nothing. */
  lemma Nothing(n: nat)
    requires n <= RADIX
    ensures Shr(n, 25) == 0 && Shr(0, 4) == 0
  {
    P2Table();
    P2Add(1, 24);
    P2Steps();
  }

  lemma {:induction false} PackedFrom(r: limbs, j: nat)
    requires j <= 32 && Digits(r)
    ensures LeVal(Packed(r)[j..]) == Above(r, j)
    decreases 32 - j
  {
    hide Packed, ByteOf, Digits, Above;
    if j < 32 {
      PackedFrom(r, j + 1);
      PackedBytes(r, j);
      ThisByte(r, j);
      NextAbove(r, j);
      assert Packed(r)[j..][1..] == Packed(r)[j + 1..];
    } else {
      EndAbove(r);
    }
  }

  lemma EndAbove(r: limbs)
    requires Digits(r)
    ensures Above(r, 32) == 0
  {
    AtPlace(32, 12, 4);
    Nothing(0);
  }

  /** The bytes stand for the number that the limbs stand for. */
  lemma PackedValue(r: limbs)
    requires Canonical(r)
    ensures LeVal(Packed(r)) == Val(r)
  {
    hide LeVal, Val, Packed, Pow, P2, Shr, Rest;
    AtPlace(0, 0, 0);
    PackedFrom(r, 0);
    RestValue(r, 0);
    NoShift(Rest(r, 0));
    TopLimb(r, 12);
    assert Packed(r)[0..] == Packed(r) && r[0..12] == r[..12];
  }

  /** The end of sc_reduce and sc_muladd: the 32 bytes at s + at. */
  method Store(r: limbs, s: array<byte>, at: nat)
    requires Canonical(r) && at + 32 <= s.Length
    modifies s
    ensures LeVal(s[at..at + 32]) == Val(r)
    ensures forall i :: 0 <= i < s.Length && !(at <= i < at + 32) ==> s[i] == old(s[i])
  {
    hide Val, LeVal, Packed;
    PackedValue(r);
    var b := Packed(r);
    var i := 0;
    while i < 32
      invariant 0 <= i <= 32 && s[at..at + i] == b[..i]
      invariant forall i :: 0 <= i < s.Length && !(at <= i < at + 32) ==> s[i] == old(s[i])
    {
      s[at + i] := b[i];
      i := i + 1;
    }
    assert b[..32] == b;
  }
}
