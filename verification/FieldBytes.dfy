/** Field elements and their 32-byte encodings. */
module FieldBytes {
  import opened Arith
  import opened Binary
  import opened Bytes
  import opened Modular
  import opened Field

  const TWO255: nat := PRIME + 19

  // ---------- reading ----------

  /** The limbs of 32 bytes, without the top bit. */
  function LoadedLimbs(s: seq<byte>): wide
    requires |s| == 32
  {
    [
      Load4(s, 0) as int64, Load3(s, 4) as int64 * 0x40, Load3(s, 7) as int64 * 0x20, Load3(s, 10) as int64 * 8,
      Load3(s, 13) as int64 * 4, Load4(s, 16) as int64, Load3(s, 20) as int64 * 0x80, Load3(s, 23) as int64 * 0x20,
      Load3(s, 26) as int64 * 0x10, (Load3(s, 29) % 0x80_0000) as int64 * 4
    ]
  }

  lemma WeightTable()
    ensures Weight(0) == 0x1
    ensures Weight(1) == 0x4000000
    ensures Weight(2) == 0x8000000000000
    ensures Weight(3) == 0x20000000000000000000
    ensures Weight(4) == 0x40000000000000000000000000
    ensures Weight(5) == 0x100000000000000000000000000000000
    ensures Weight(6) == 0x200000000000000000000000000000000000000
    ensures Weight(7) == 0x800000000000000000000000000000000000000000000
    ensures Weight(8) == 0x1000000000000000000000000000000000000000000000000000
    ensures Weight(9) == 0x4000000000000000000000000000000000000000000000000000000000
    ensures Weight(10) == 0x8000000000000000000000000000000000000000000000000000000000000000
  {
    hide P2;
    P2Steps();
    SizeWeight(0);
    SizeWeight(1);
    SizeWeight(2);
    SizeWeight(3);
    SizeWeight(4);
    SizeWeight(5);
    SizeWeight(6);
    SizeWeight(7);
    SizeWeight(8);
    SizeWeight(9);
  }

  /** What d counts in limb k, as a number. */
  lemma Counted(d: int, k: nat)
    requires k < 10
    ensures At(d, k) == d * (if k == 0 then 1
                             else if k == 1 then 0x4000000
                             else if k == 2 then 0x8000000000000
                             else if k == 3 then 0x20000000000000000000
                             else if k == 4 then 0x40000000000000000000000000
                             else if k == 5 then 0x100000000000000000000000000000000
                             else if k == 6 then 0x200000000000000000000000000000000000000
                             else if k == 7 then 0x800000000000000000000000000000000000000000000
                             else if k == 8 then 0x1000000000000000000000000000000000000000000000000000
                             else 0x4000000000000000000000000000000000000000000000000000000000)
  {
    hide Weight;
    WeightTable();
  }

  lemma Take3(s: seq<byte>, i: nat)
    requires i + 3 <= |s|
    ensures LeVal(s[i..]) == Load3(s, i) + 0x100_0000 * LeVal(s[i + 3..])
  {
    hide P2;
    P2Table();
    Loaded3(s, i);
  }

  lemma Take4(s: seq<byte>, i: nat)
    requires i + 4 <= |s|
    ensures LeVal(s[i..]) == Load4(s, i) + 0x1_0000_0000 * LeVal(s[i + 4..])
  {
    hide P2;
    P2Table();
    Loaded4(s, i);
  }

  /** Reads 24 or 32 bits off the front, and again. */
  lemma Loads(s: seq<byte>)
    requires |s| == 32
    ensures LeVal(s) ==
      0x1 * Load4(s, 0)
      + 0x100000000 * Load3(s, 4)
      + 0x100000000000000 * Load3(s, 7)
      + 0x100000000000000000000 * Load3(s, 10)
      + 0x100000000000000000000000000 * Load3(s, 13)
      + 0x100000000000000000000000000000000 * Load4(s, 16)
      + 0x10000000000000000000000000000000000000000 * Load3(s, 20)
      + 0x10000000000000000000000000000000000000000000000 * Load3(s, 23)
      + 0x10000000000000000000000000000000000000000000000000000 * Load3(s, 26)
      + 0x10000000000000000000000000000000000000000000000000000000000 * Load3(s, 29)
  {
    hide Load3, Load4, LeVal;
    Take4(s, 0);
    Take3(s, 4);
    Take3(s, 7);
    Take3(s, 10);
    Take3(s, 13);
    Take4(s, 16);
    Take3(s, 20);
    Take3(s, 23);
    Take3(s, 26);
    Take3(s, 29);
    NoBytes(s);
    assert s[0..] == s;
  }

  lemma NoBytes(s: seq<byte>)
    requires |s| == 32
    ensures LeVal(s[32..]) == 0
  {
  }

  lemma Flat(h: wide)
    ensures Value(h) == At(h[0] as int, 0) + At(h[1] as int, 1) + At(h[2] as int, 2) + At(h[3] as int, 3) + At(h[4] as int, 4)
                        + At(h[5] as int, 5) + At(h[6] as int, 6) + At(h[7] as int, 7) + At(h[8] as int, 8) + At(h[9] as int, 9)
  {
    hide At, Prefix;
    PrefixNone(h);
    PrefixNext(h, 1);
    PrefixNext(h, 2);
    PrefixNext(h, 3);
    PrefixNext(h, 4);
    PrefixNext(h, 5);
    PrefixNext(h, 6);
    PrefixNext(h, 7);
    PrefixNext(h, 8);
    PrefixNext(h, 9);
    PrefixNext(h, 10);
  }

  lemma LoadedValue(s: seq<byte>)
    requires |s| == 32
    ensures Value(LoadedLimbs(s)) == LeVal(s) % TWO255
  {
    hide LeVal, Load3, Load4, Value, At;
    var h := LoadedLimbs(s);
    Loads(s);
    Flat(h);
    Counted(h[0] as int, 0);
    Counted(h[1] as int, 1);
    Counted(h[2] as int, 2);
    Counted(h[3] as int, 3);
    Counted(h[4] as int, 4);
    Counted(h[5] as int, 5);
    Counted(h[6] as int, 6);
    Counted(h[7] as int, 7);
    Counted(h[8] as int, 8);
    Counted(h[9] as int, 9);
    var top := Load3(s, 29);
    DivUnique(LeVal(s), TWO255, top / 0x80_0000, Value(h));
  }

  lemma LoadedRange(s: seq<byte>)
    requires |s| == 32
    ensures forall i :: 0 <= i < 10 ==> 0 <= LoadedLimbs(s)[i] as int < 0x1_0000_0000
  {
    hide Load3, Load4;
  }

  /** fe_frombytes: ignores the top bit. */
  method FromBytes(s: seq<byte>) returns (h: fe)
    requires |s| == 32
    ensures Congruent(LeVal(s) % TWO255, Value(h)) && Within(h, TIGHT)
  {
    hide Value, Congruent, LoadedLimbs, LeVal;
    LoadedValue(s);
    LoadedRange(s);
    ghost var v := LeVal(s) % TWO255;
    Itself(v);
    var r := LoadedLimbs(s);
    r := Carry(r, 9, 0x100_0000, v);
    r := Carry(r, 1, 0x100_0000, v);
    r := Carry(r, 3, 0x100_0000, v);
    r := Carry(r, 5, 0x100_0000, v);
    r := Carry(r, 7, 0x100_0000, v);
    r := Carry(r, 0, 0x200_0000, v);
    r := Carry(r, 2, 0x200_0000, v);
    r := Carry(r, 4, 0x200_0000, v);
    r := Carry(r, 6, 0x200_0000, v);
    r := Carry(r, 8, 0x200_0000, v);
    h := r;
  }

  // ---------- the canonical representative ----------

  /** 1.1 * 2^26, what fe_tobytes takes. */
  const LOOSER: int := 73819750

  /** The documented bounds: 1.65 * 2^26 and 1.1 * 2^26 for what comes in, 1.01 * 2^25 for what goes out. */
  lemma DocumentedBounds()
    ensures 100 * LOOSE <= 165 * 0x400_0000 < 100 * (LOOSE + 1)
    ensures 100 * LOOSER <= 110 * 0x400_0000 < 100 * (LOOSER + 1)
    ensures 100 * TIGHT <= 101 * 0x200_0000 < 100 * (TIGHT + 1)
  {
  }

  /** q is the quotient of limbs 0 to n - 1, with q0 carried in, by the weight of limb n. */
  ghost predicate IsQuotient(h: fe, n: nat, q0: int, q: int)
    requires n <= 10
  {
    Weight(n) * q <= Prefix(h, n) + q0 < Weight(n) * (q + 1)
  }

  lemma QuotientNext(h: fe, n: nat, q0: int, q: int, r: int)
    requires n < 10 && IsQuotient(h, n, q0, q)
    requires var s := Size(n) as int; s * r <= h[n] as int + q < s * (r + 1)
    ensures IsQuotient(h, n + 1, q0, r)
  {
    hide Weight;
    var s, w, x := Size(n) as int, Weight(n), h[n] as int;
    SizeWeight(n);
    PrefixNext(h, n + 1);
    assert At(x, n) == w * x;
    MulMonotone(w, s * r, x + q);
    MulMonotone(w, x + q + 1, s * (r + 1));
    Assoc(w, s, r);
    Assoc(w, s, r + 1);
    Distribute(w, x, q);
    Distribute(w, x + q, 1);
    Distribute(w, q, 1);
  }

  /** q := (h[n] + q) >> 26 or 25. */
  method QuotientStep(h: fe, n: nat, q: int32, ghost q0: int) returns (r: int32)
    requires Within(h, LOOSER) && n < 10 && Small(q, 64) && IsQuotient(h, n, q0, q as int)
    ensures Small(r, 3) && IsQuotient(h, n + 1, q0, r as int)
  {
    hide IsQuotient;
    WithinAt(h, LOOSER, n);
    r := (h[n] + q) / Size(n);
    StepRange(h[n] as int, q as int, Size(n) as int, r as int);
    QuotientNext(h, n, q0, q as int, r as int);
  }

  lemma StepRange(x: int, q: int, s: int, r: int)
    requires s in {0x400_0000, 0x200_0000} && r == (x + q) / s
    requires -64 <= q <= 64 && (if s == 0x400_0000 then -LOOSER <= x <= LOOSER else -(LOOSER / 2) <= x <= LOOSER / 2)
    ensures s * r <= x + q < s * (r + 1) && -3 <= r <= 3
  {
  }

  /** The quotient of the value by 2^255 - 19, as the first lines of fe_tobytes find it. */
  method QuotientOf(h: fe) returns (q: int32)
    requires Within(h, LOOSER)
    ensures 0 <= Value(h) - q as int * PRIME < PRIME && Small(q, 3)
  {
    hide IsQuotient, Value;
    q := (19 * h[9] + 0x100_0000) / 0x200_0000;
    ghost var q0 := q as int;
    QuotientStart(h, q0);
    q := QuotientStep(h, 0, q, q0);
    q := QuotientStep(h, 1, q, q0);
    q := QuotientStep(h, 2, q, q0);
    q := QuotientStep(h, 3, q, q0);
    q := QuotientStep(h, 4, q, q0);
    q := QuotientStep(h, 5, q, q0);
    q := QuotientStep(h, 6, q, q0);
    q := QuotientStep(h, 7, q, q0);
    q := QuotientStep(h, 8, q, q0);
    q := QuotientStep(h, 9, q, q0);
    QuotientRight(h, q0, q as int);
  }

  lemma QuotientStart(h: fe, q0: int)
    ensures IsQuotient(h, 0, q0, q0)
  {
    WeightTable();
  }

  lemma {:induction false} PrefixBound(h: fe, n: nat)
    requires Within(h, LOOSER) && n <= 10
    ensures -4 * Weight(n) <= Prefix(h, n) <= 4 * Weight(n)
  {
    hide Weight, At;
    if n > 0 {
      PrefixBound(h, n - 1);
      PrefixNext(h, n);
      WithinAt(h, LOOSER, n - 1);
      SizeWeight(n - 1);
      AtBound(h[n - 1] as int, n - 1, LOOSER);
      if n % 2 == 0 {
        AtBound(h[n - 1] as int, n - 1, LOOSER / 2);
      }
    }
  }

  lemma AtBound(d: int, k: nat, b: nat)
    requires -(b as int) <= d <= b
    ensures -(b * Weight(k)) <= At(d, k) <= b * Weight(k)
  {
    hide Weight;
    MulMonotone(Weight(k), -(b as int), d);
    MulMonotone(Weight(k), d, b);
  }

  /** The rounded estimate from limb 9 leads to the exact quotient. */
  lemma QuotientRight(h: fe, q0: int, q: int)
    requires Within(h, LOOSER) && q0 == (19 * h[9] as int + 0x100_0000) / 0x200_0000 && IsQuotient(h, 10, q0, q)
    ensures 0 <= Value(h) - q * PRIME < PRIME
  {
    hide Weight, At, Within;
    WeightTable();
    PrefixBound(h, 9);
    PrefixBound(h, 10);
    PrefixNext(h, 10);
    Counted(h[9] as int, 9);
    Estimate(Value(h), Prefix(h, 9), h[9] as int, q0, q);
  }

  lemma Estimate(v: int, low: int, h9: int, q0: int, q: int)
    requires v == low + h9 * 0x4000000000000000000000000000000000000000000000000000000000
    requires -4 * 0x4000000000000000000000000000000000000000000000000000000000 <= low <= 4 * 0x4000000000000000000000000000000000000000000000000000000000
    requires -4 * TWO255 <= v <= 4 * TWO255
    requires 0x200_0000 * q0 <= 19 * h9 + 0x100_0000 < 0x200_0000 * (q0 + 1)
    requires TWO255 * q <= v + q0 < TWO255 * (q + 1)
    ensures 0 <= v - q * PRIME < PRIME
  {
    var t, r := v / PRIME, v % PRIME;
    assert v == PRIME * t + r;
    assert -6 <= t <= 6;
    assert 0 <= r + (q0 - 19 * t) < TWO255;
    assert t == q;
  }

  // ---------- writing ----------

  /** Every limb is a proper digit. */
  predicate Digits(h: wide) {
    && 0 <= h[0] < 0x400_0000 && 0 <= h[1] < 0x200_0000 && 0 <= h[2] < 0x400_0000 && 0 <= h[3] < 0x200_0000
    && 0 <= h[4] < 0x400_0000 && 0 <= h[5] < 0x200_0000 && 0 <= h[6] < 0x400_0000 && 0 <= h[7] < 0x200_0000
    && 0 <= h[8] < 0x400_0000 && 0 <= h[9] < 0x200_0000
  }

  lemma DigitAt(h: wide, k: nat)
    requires Digits(h) && k < 10
    ensures 0 <= h[k] < Size(k)
  {
  }

  lemma {:induction false} DigitsBound(h: wide, n: nat)
    requires Digits(h) && n <= 10
    ensures 0 <= Prefix(h, n) < Weight(n)
  {
    hide Weight, At;
    if n > 0 {
      DigitsBound(h, n - 1);
      PrefixNext(h, n);
      SizeWeight(n - 1);
      DigitAt(h, n - 1);
      AtDigit(h[n - 1] as int, n - 1, Size(n - 1) as int);
    }
  }

  lemma AtDigit(d: nat, k: nat, s: nat)
    requires d < s
    ensures 0 <= At(d, k) && At(d, k) + Weight(k) <= s * Weight(k)
  {
    hide Weight;
    MulMonotone(Weight(k), 0, d);
    MulMonotone(Weight(k), d + 1, s);
    Distribute(Weight(k), d, 1);
  }

  ghost predicate LowDigits(h: wide) {
    && 0 <= h[0] < 0x400_0000 && 0 <= h[1] < 0x200_0000 && 0 <= h[2] < 0x400_0000 && 0 <= h[3] < 0x200_0000
    && 0 <= h[4] < 0x400_0000 && Small(h[5], LOOSER) && Small(h[6], LOOSER) && Small(h[7], LOOSER) && Small(h[8], LOOSER)
    && Small(h[9], LOOSER)
  }

  /** Floor carries of fe_tobytes, all within 32 bits. */
  method CarryUpLow(h: fe, ghost v: int) returns (r: fe)
    requires Within(h, LOOSER + 57) && Small(h[2], LOOSER) && Small(h[4], LOOSER) && Small(h[6], LOOSER) && Small(h[8], LOOSER)
    requires Congruent(v, Value(h))
    ensures Congruent(v, Value(r)) && Value(r) == Value(h) && LowDigits(r)
  {
    hide Value, Congruent;
    r := h;
    r := Carry(r, 0, 0, v);
    r := Carry(r, 1, 0, v);
    r := Carry(r, 2, 0, v);
    r := Carry(r, 3, 0, v);
    r := Carry(r, 4, 0, v);
  }

  method CarryUpHigh(h: fe, ghost v: int) returns (r: fe)
    requires LowDigits(h) && Congruent(v, Value(h))
    ensures Value(r) == Value(h) && Small(r[9], LOOSER + 57) && Digits(r[9 := 0])
  {
    hide Value, Congruent;
    r := h;
    r := Carry(r, 5, 0, v);
    r := Carry(r, 6, 0, v);
    r := Carry(r, 7, 0, v);
    r := Carry(r, 8, 0, v);
  }

  /** The limbs of the canonical representative. */
  method Canonical(h: fe) returns (r: fe)
    requires Within(h, LOOSER)
    ensures Digits(r) && Value(r) == Value(h) % PRIME
  {
    hide Prefix, Congruent;
    var q := QuotientOf(h);
    ghost var v := Value(h) + 19 * q as int;
    var r0 := h[0] + 19 * q;
    AddLow(h, r0);
    Itself(v);
    r := CarryUpLow(h[0 := r0], v);
    r := CarryUpHigh(r, v);
    var carry9 := r[9] / 0x200_0000;
    ghost var before := r;
    r := r[9 := r[9] - carry9 * 0x200_0000];
    DropTop(before, r, carry9 as int);
    DigitsBound(r, 10);
    SameQuotient(Value(h), q as int, carry9 as int, Value(r));
  }

  lemma AddLow(h: fe, x: int32)
    ensures Value(h[0 := x]) == Value(h) + x as int - h[0] as int
  {
    Change(h, 0, x, 10);
    Counted(x as int - h[0] as int, 0);
  }

  lemma DropTop(h: wide, r: wide, c: int)
    requires r == h[9 := r[9]] && r[9] as int == h[9] as int - c * 0x200_0000
    ensures Value(r) == Value(h) - c * TWO255
  {
    Change(h, 9, r[9], 10);
    Counted(r[9] as int - h[9] as int, 9);
  }

  lemma SameQuotient(v: int, q: int, c: int, r: int)
    requires 0 <= v - q * PRIME < PRIME && r == v + 19 * q - c * TWO255 && 0 <= r < Weight(10)
    ensures r == v % PRIME
  {
    hide Weight;
    WeightTable();
    var x := v - q * PRIME;
    assert r == x + TWO255 * (q - c);
    SmallMultiple(TWO255, q - c);
    Itself(v);
    Stepped(v, v, x, q);
    CongUnique(v, x, PRIME);
  }

  /** (unsigned char) (h[k] >> a). */
  function Bits(h: wide, k: nat, a: nat): byte
    requires Digits(h) && k < 10
  {
    DigitAt(h, k);
    Shr(h[k] as int, a) % 256
  }

  /** (unsigned char) ((h[k] >> a) | (h[k + 1] << (width - a))), for a limb of 26 or 25 bits. */
  function Both(h: wide, k: nat, a: nat): byte
    requires Digits(h) && k < 9 && a <= Width(k)
  {
    DigitAt(h, k);
    DigitAt(h, k + 1);
    MulMonotone(P2(Width(k) - a), 0, h[k + 1] as int);
    (Shr(h[k] as int, a) + h[k + 1] as int * P2(Width(k) - a)) % 256
  }

  function Width(k: nat): nat { if k % 2 == 0 then 26 else 25 }

  /** The 32 bytes of proper digits. */
  function Packed(h: wide): (b: seq<byte>)
    requires Digits(h)
    ensures |b| == 32
  {
    [
      Bits(h, 0, 0), Bits(h, 0, 8), Bits(h, 0, 16), Both(h, 0, 24), Bits(h, 1, 6), Bits(h, 1, 14), Both(h, 1, 22),
      Bits(h, 2, 5), Bits(h, 2, 13), Both(h, 2, 21), Bits(h, 3, 3), Bits(h, 3, 11), Both(h, 3, 19), Bits(h, 4, 2),
      Bits(h, 4, 10), Bits(h, 4, 18), Bits(h, 5, 0), Bits(h, 5, 8), Bits(h, 5, 16), Both(h, 5, 24), Bits(h, 6, 7),
      Bits(h, 6, 15), Both(h, 6, 23), Bits(h, 7, 5), Bits(h, 7, 13), Both(h, 7, 21), Bits(h, 8, 4), Bits(h, 8, 12),
      Both(h, 8, 20), Bits(h, 9, 2), Bits(h, 9, 10), Bits(h, 9, 18)
    ]
  }

  /** Eight bits from bit 8 * j on: the limb there, and how many of its bits lie below. */
  ghost function LimbAt(j: nat): nat { 16 * j / 51 }
  ghost function BelowAt(j: nat): int { 8 * j - (51 * LimbAt(j) + 1) / 2 }

  lemma Places(j: nat)
    ensures 0 <= BelowAt(j) < Width(LimbAt(j)) && (j < 32 ==> LimbAt(j) <= 9)
    ensures BelowAt(j) + 8 >= Width(LimbAt(j)) ==> LimbAt(j + 1) == LimbAt(j) + 1 && BelowAt(j + 1) == BelowAt(j) + 8 - Width(LimbAt(j))
    ensures BelowAt(j) + 8 < Width(LimbAt(j)) ==> LimbAt(j + 1) == LimbAt(j) && BelowAt(j + 1) == BelowAt(j) + 8
  {
    Place(j, LimbAt(j), LimbAt(j) / 2);
    Place(j + 1, LimbAt(j + 1), LimbAt(j + 1) / 2);
  }

  lemma Place(j: nat, k: nat, p: nat)
    requires k == LimbAt(j) && p == k / 2
    ensures 51 * k <= 16 * j < 51 * k + 51
    ensures k == 2 * p ==> BelowAt(j) == 8 * j - 51 * p && 0 <= BelowAt(j) < 26
    ensures k == 2 * p + 1 ==> BelowAt(j) == 8 * j - 51 * p - 26 && 0 <= BelowAt(j) < 25
    ensures k == 2 * p || k == 2 * p + 1
  {
  }

  ghost function ByteOf(h: wide, j: nat): byte
    requires j < 32 && Digits(h)
  {
    Places(j);
    var k, a := LimbAt(j), BelowAt(j);
    if a + 8 > Width(k) && k < 9 then Both(h, k, a) else Bits(h, k, a)
  }

  lemma PackedBytes0(h: wide, j: nat)
    requires 0 <= j < 8 && Digits(h)
    ensures Packed(h)[j] == ByteOf(h, j)
  {
    hide Bits, Both, Digits;
    assert j in {0, 1, 2, 3, 4, 5, 6, 7};
  }

  lemma PackedBytes1(h: wide, j: nat)
    requires 8 <= j < 16 && Digits(h)
    ensures Packed(h)[j] == ByteOf(h, j)
  {
    hide Bits, Both, Digits;
    assert j in {8, 9, 10, 11, 12, 13, 14, 15};
  }

  lemma PackedBytes2(h: wide, j: nat)
    requires 16 <= j < 24 && Digits(h)
    ensures Packed(h)[j] == ByteOf(h, j)
  {
    hide Bits, Both, Digits;
    assert j in {16, 17, 18, 19, 20, 21, 22, 23};
  }

  lemma PackedBytes3(h: wide, j: nat)
    requires 24 <= j < 32 && Digits(h)
    ensures Packed(h)[j] == ByteOf(h, j)
  {
    hide Bits, Both, Digits;
    assert j in {24, 25, 26, 27, 28, 29, 30, 31};
  }

  lemma PackedBytes(h: wide, j: nat)
    requires j < 32 && Digits(h)
    ensures Packed(h)[j] == ByteOf(h, j)
  {
    hide Packed, ByteOf;
    if j < 8 {
      PackedBytes0(h, j);
    } else if j < 16 {
      PackedBytes1(h, j);
    } else if j < 24 {
      PackedBytes2(h, j);
    } else {
      PackedBytes3(h, j);
    }
  }

  /** The number that limbs k..9 stand for. */
  ghost function Rest(h: wide, k: nat): nat
    requires k <= 10 && Digits(h)
    decreases 10 - k
  {
    if k == 10 then 0
    else
      DigitAt(h, k);
      MulMonotone(P2(Width(k)), 0, Rest(h, k + 1));
      h[k] as int + P2(Width(k)) * Rest(h, k + 1)
  }

  /** The limbs from bit 8 * j on. */
  ghost function Above(h: wide, j: nat): nat
    requires j <= 32 && Digits(h)
  {
    Places(j);
    if LimbAt(j) > 9 then 0 else Shr(Rest(h, LimbAt(j)), BelowAt(j))
  }

  lemma ThisByte(h: wide, j: nat)
    requires j < 32 && Digits(h)
    ensures Above(h, j) % 256 == ByteOf(h, j)
  {
    hide P2, Shr, LimbAt, BelowAt;
    Places(j);
    var k, a := LimbAt(j), BelowAt(j);
    var x := h[k] as int;
    if a + 8 <= Width(k) {
      EightInside(x, Rest(h, k + 1), a, Width(k));
    } else if k < 9 {
      assert Rest(h, k + 1) == h[k + 1] as int + P2(Width(k + 1)) * Rest(h, k + 2);
      EightAcross(x, h[k + 1] as int, Rest(h, k + 2), a, Width(k), Width(k + 1));
    } else {
      assert Rest(h, k) == x + P2(Width(k)) * Rest(h, 10);
    }
  }

  lemma DigitShift(h: wide, k: nat)
    requires k < 10 && Digits(h)
    ensures Shr(Rest(h, k), Width(k)) == Rest(h, k + 1)
  {
    hide P2;
    Widths(k);
    var x, m := h[k] as int, Rest(h, k + 1);
    DivUnique(x + P2(Width(k)) * m, P2(Width(k)), m, x);
  }

  lemma Widths(k: nat)
    ensures P2(Width(k)) == Size(k) as int
  {
    P2Table();
    P2Add(2, 24);
    P2Add(1, 24);
    P2Steps();
  }

  lemma NextAbove(h: wide, j: nat)
    requires j < 32 && Digits(h)
    ensures Above(h, j) / 256 == Above(h, j + 1)
  {
    hide P2, Shr, Rest, LimbAt, BelowAt;
    Places(j);
    Places(j + 1);
    var k, a := LimbAt(j), BelowAt(j);
    var n := Rest(h, k);
    Shift8(Shr(n, a));
    ShiftTwice(n, a, 8);
    if a + 8 >= Width(k) {
      DigitShift(h, k);
      ShiftTwice(n, Width(k), a + 8 - Width(k));
      if k == 9 {
        NothingLeft(h, a + 8 - Width(k));
      }
    }
  }

  lemma NothingLeft(h: wide, a: nat)
    requires Digits(h)
    ensures Shr(Rest(h, 10), a) == 0
  {
  }

  lemma {:induction false} PackedFrom(h: wide, j: nat)
    requires j <= 32 && Digits(h)
    ensures LeVal(Packed(h)[j..]) == Above(h, j)
    decreases 32 - j
  {
    hide Packed, ByteOf, Digits, Above;
    if j < 32 {
      PackedFrom(h, j + 1);
      PackedBytes(h, j);
      ThisByte(h, j);
      NextAbove(h, j);
      assert Packed(h)[j..][1..] == Packed(h)[j + 1..];
    } else {
      EndAbove(h);
    }
  }

  lemma EndAbove(h: wide)
    requires Digits(h)
    ensures Above(h, 32) == 0
  {
  }

  lemma {:induction false} RestValue(h: wide, k: nat)
    requires k <= 10 && Digits(h)
    ensures Value(h) == Prefix(h, k) + Weight(k) * Rest(h, k)
    decreases 10 - k
  {
    hide Weight, P2;
    if k < 10 {
      RestValue(h, k + 1);
      PrefixNext(h, k + 1);
      SizeWeight(k);
      Widths(k);
      Distribute(Weight(k), h[k] as int, P2(Width(k)) * Rest(h, k + 1));
      Assoc(Weight(k), P2(Width(k)), Rest(h, k + 1));
    }
  }

  lemma PackedValue(h: wide)
    requires Digits(h)
    ensures LeVal(Packed(h)) == Value(h)
  {
    hide LeVal, Packed, P2, Shr, Rest, Value, Weight;
    PackedFrom(h, 0);
    RestValue(h, 0);
    PrefixNone(h);
    WeightTable();
    NoShift(Rest(h, 0));
    assert Packed(h)[0..] == Packed(h);
  }

  /** fe_tobytes: the 32 bytes of the unique representative below 2^255 - 19. */
  method ToBytes(s: array<byte>, h: fe)
    requires s.Length >= 32 && Within(h, LOOSER)
    modifies s
    ensures LeVal(s[..32]) == Value(h) % PRIME
    ensures forall i :: 32 <= i < s.Length ==> s[i] == old(s[i])
  {
    hide Value, Packed, Digits, LeVal;
    var r := Canonical(h);
    PackedValue(r);
    var b := Packed(r);
    var i := 0;
    while i < 32
      invariant 0 <= i <= 32 && s[..i] == b[..i]
      invariant forall j :: 32 <= j < s.Length ==> s[j] == old(s[j])
    {
      s[i] := b[i];
      i := i + 1;
    }
    assert b[..32] == b;
  }
}
