/** Bytes, and integers stored in several of them. */
module Bytes {
  type byte = b: int | 0 <= b < 256

  /** Most significant byte first. */
  function Be16(hi: byte, lo: byte): nat { 256 * hi + lo }

  function Be32(b0: byte, b1: byte, b2: byte, b3: byte): nat {
    0x1_0000 * Be16(b0, b1) + Be16(b2, b3)
  }

  /** The low 16 bits of a value, most significant byte first. */
  function PutBe16(v: nat): (r: seq<byte>)
    ensures |r| == 2
  {
    [v / 256 % 256, v % 256]
  }

  function PutBe32(v: nat): (r: seq<byte>)
    ensures |r| == 4
  {
    PutBe16(v / 0x1_0000) + PutBe16(v)
  }

  lemma Be16RoundTrip(v: nat)
    requires v < 0x1_0000
    ensures Be16(PutBe16(v)[0], PutBe16(v)[1]) == v
  {
  }

  lemma Be32RoundTrip(v: nat)
    requires v < 0x1_0000_0000
    ensures var p := PutBe32(v); Be32(p[0], p[1], p[2], p[3]) == v
  {
    var h, l := v / 0x1_0000, v % 0x1_0000;
    assert v == 0x1_0000 * h + l;
    Be16RoundTrip(h);
    Be16RoundTrip(l);
    LowHalf(h, l);
  }

  lemma LowHalf(h: nat, l: nat)
    requires l < 0x1_0000
    ensures PutBe16(0x1_0000 * h + l) == PutBe16(l)
  {
    var v := 0x1_0000 * h + l;
    var q, r := l / 256, l % 256;
    assert v == 256 * (256 * h + q) + r;
    assert v % 256 == r && v / 256 == 256 * h + q;
    assert (256 * h + q) % 256 == q % 256;
  }

  // ---------- numerals ----------

  /** The number that the bytes write down in base 256, as it is read from left to right. */
  function BeVal(a: seq<byte>): nat {
    if a == [] then 0 else 256 * BeVal(a[..|a| - 1]) + a[|a| - 1]
  }

  lemma BeValMore(a: seq<byte>, b: byte)
    ensures BeVal(a + [b]) == 256 * BeVal(a) + b
  {
    assert (a + [b])[..|a|] == a;
  }

  lemma BeValTwo(a: seq<byte>, b: byte, c: byte)
    ensures BeVal(a + [b, c]) == 0x1_0000 * BeVal(a) + 256 * b + c
  {
    BeValMore(a, b);
    BeValMore(a + [b], c);
    assert a + [b] + [c] == a + [b, c];
  }

  /** What is read as 16 and 32 bits is the number that the bytes write down. */
  lemma ReadNumeral(a: seq<byte>)
    ensures |a| == 2 ==> Be16(a[0], a[1]) == BeVal(a)
    ensures |a| == 4 ==> Be32(a[0], a[1], a[2], a[3]) == BeVal(a)
  {
    hide BeVal;
    if |a| == 2 {
      EmptyNumeral();
      BeValTwo([], a[0], a[1]);
      assert a == [] + [a[0], a[1]];
    } else if |a| == 4 {
      EmptyNumeral();
      BeValTwo([], a[0], a[1]);
      BeValTwo([a[0], a[1]], a[2], a[3]);
      assert [] + [a[0], a[1]] == [a[0], a[1]];
      assert a == [a[0], a[1]] + [a[2], a[3]];
    }
  }

  lemma EmptyNumeral()
    ensures BeVal([]) == 0
  {
  }

  /** What is stored as 16 and 32 bits writes down the value modulo 2^16 and 2^32. */
  lemma StoredNumeral(v: nat)
    ensures BeVal(PutBe16(v)) == v % 0x1_0000
    ensures BeVal(PutBe32(v)) == v % 0x1_0000_0000
  {
    hide BeVal;
    var w := v % 0x1_0000_0000;
    Low16(v);
    ReadNumeral(PutBe16(v));
    Be16RoundTrip(v % 0x1_0000);
    Low32(v);
    ReadNumeral(PutBe32(v));
    Be32RoundTrip(w);
  }

  lemma Low16(v: nat)
    ensures PutBe16(v) == PutBe16(v % 0x1_0000)
  {
    assert v == 0x1_0000 * (v / 0x1_0000) + v % 0x1_0000;
    LowHalf(v / 0x1_0000, v % 0x1_0000);
  }

  lemma Low32(v: nat)
    ensures PutBe32(v) == PutBe32(v % 0x1_0000_0000)
  {
    hide PutBe16;
    var q, w := v / 0x1_0000_0000, v % 0x1_0000_0000;
    Low16(v);
    Low16(w);
    var h := w / 0x1_0000;
    assert v == 0x1_0000 * (0x1_0000 * q + h) + w % 0x1_0000;
    assert v / 0x1_0000 == 0x1_0000 * q + h && v % 0x1_0000 == w % 0x1_0000;
    LowHalf(q, h);
  }
}
