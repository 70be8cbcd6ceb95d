/** The three packed encodings of a FAT, on the byte image of the table. */
module FatCodec {
  import opened Arith
  import opened FatBase

  /** Byte offset of entry c. */
  function Offset(t: FsType, c: nat): nat {
    match t
    case FAT12 => c + c / 2
    case FAT16 => 2 * c
    case FAT32 => 4 * c
  }

  function Width(t: FsType): nat {
    match t
    case FAT12 => 2
    case FAT16 => 2
    case FAT32 => 4
  }

  /** Entry c lies within a table of size bytes. */
  ghost predicate Fits(t: FsType, size: nat, c: nat) {
    Offset(t, c) + Width(t) <= size
  }

  /** 2 bytes, little endian. */
  function Word(b0: byte, b1: byte): nat { b0 + 256 * b1 }

  /** 4 bytes, little endian. */
  function Dword(b0: byte, b1: byte, b2: byte, b3: byte): nat {
    b0 + 0x100 * b1 + 0x1_0000 * b2 + 0x100_0000 * b3
  }

  /** 12 bits out of the two bytes that hold an entry. */
  function Field12(c: nat, b0: byte, b1: byte): nat {
    if c % 2 == 1 then Word(b0, b1) / 16 else Word(b0, b1) % 0x1000
  }

  /** The value get_fat extracts. */
  function Decode(t: FsType, img: seq<byte>, c: nat): nat
    requires Fits(t, |img|, c)
  {
    var p := Offset(t, c);
    match t
    case FAT12 => Field12(c, img[p], img[p + 1])
    case FAT16 => Word(img[p], img[p + 1])
    case FAT32 => Dword(img[p], img[p + 1], img[p + 2], img[p + 3]) % 0x1000_0000
  }

  /** The bits of a value an entry can hold. */
  function Trunc(t: FsType, v: nat): nat {
    match t
    case FAT12 => v % 0x1000
    case FAT16 => v % 0x1_0000
    case FAT32 => v % 0x1000_0000
  }

  /** First byte of a 12-bit entry after the update; an odd entry shares its low nibble. */
  function First12(c: nat, old0: byte, v: nat): byte {
    if c % 2 == 1 then old0 % 16 + 16 * (v % 16) else v % 256
  }

  /** Second byte; an even entry shares its high nibble. */
  function Second12(c: nat, old1: byte, v: nat): byte {
    if c % 2 == 1 then v / 16 % 256 else old1 / 16 * 16 + v / 256 % 16
  }

  /** The 28 value bits, with the top four bits of the old entry kept. */
  function Merge32(old3: byte, v: nat): nat {
    v % 0x1000_0000 + 0x1000_0000 * (old3 / 16)
  }

  function ByteOf(v: nat, k: nat): byte
    requires k < 4
  {
    if k == 0 then v % 256 else if k == 1 then v / 0x100 % 256 else if k == 2 then v / 0x1_0000 % 256 else v / 0x100_0000 % 256
  }

  /** The table image after put_fat. */
  function Store(t: FsType, img: seq<byte>, c: nat, v: nat): (r: seq<byte>)
    requires Fits(t, |img|, c)
    ensures |r| == |img|
  {
    var p := Offset(t, c);
    match t
    case FAT12 => img[p := First12(c, img[p], v)][p + 1 := Second12(c, img[p + 1], v)]
    case FAT16 => img[p := ByteOf(v, 0)][p + 1 := ByteOf(v, 1)]
    case FAT32 =>
      var m := Merge32(img[p + 3], v);
      img[p := ByteOf(m, 0)][p + 1 := ByteOf(m, 1)][p + 2 := ByteOf(m, 2)][p + 3 := ByteOf(m, 3)]
  }

  lemma WordOfBytes(v: nat)
    ensures Word(ByteOf(v, 0), ByteOf(v, 1)) == v % 0x1_0000
  {
    var a, low := v / 0x100, v % 0x100;
    assert v == 0x100 * a + low && a == 0x100 * (a / 0x100) + a % 0x100;
    DivUnique(v, 0x1_0000, a / 0x100, low + 0x100 * (a % 0x100));
  }

  lemma DwordOfBytes(v: nat)
    requires v < 0x1_0000_0000
    ensures Dword(ByteOf(v, 0), ByteOf(v, 1), ByteOf(v, 2), ByteOf(v, 3)) == v
  {
    var a, r0 := v / 0x100, v % 0x100;
    var b, r1 := a / 0x100, a % 0x100;
    var c, r2 := b / 0x100, b % 0x100;
    assert v == 0x100 * a + r0 && a == 0x100 * b + r1 && b == 0x100 * c + r2;
    DivUnique(v, 0x1_0000, b, r0 + 0x100 * r1);
    DivUnique(v, 0x100_0000, c, r0 + 0x100 * r1 + 0x1_0000 * r2);
    assert ByteOf(v, 0) == r0 && ByteOf(v, 1) == r1 && ByteOf(v, 2) == r2 && ByteOf(v, 3) == c;
  }

  lemma Odd12(low: nat, v: nat)
    requires low < 16
    ensures (low + 16 * (v % 16) + 256 * (v / 16 % 256)) / 16 == v % 0x1000
  {
    var a, nibble := v / 16, v % 16;
    assert v == 16 * a + nibble && a == 256 * (a / 256) + a % 256;
    DivUnique(v, 0x1000, a / 256, nibble + 16 * (a % 256));
    DivUnique(low + 16 * nibble + 256 * (a % 256), 16, nibble + 16 * (a % 256), low);
  }

  lemma Even12(high: nat, v: nat)
    ensures (v % 256 + 256 * (high * 16 + v / 256 % 16)) % 0x1000 == v % 0x1000
  {
    var a, low := v / 256, v % 256;
    var kept := low + 256 * (a % 16);
    assert v == 256 * a + low && a == 16 * (a / 16) + a % 16;
    DivUnique(v, 0x1000, a / 16, kept);
    DivUnique(low + 256 * (high * 16 + a % 16), 0x1000, high, kept);
  }

  lemma Field12Stored(c: nat, old0: byte, old1: byte, v: nat)
    ensures Field12(c, First12(c, old0, v), Second12(c, old1, v)) == v % 0x1000
  {
    if c % 2 == 1 {
      Odd12(old0 % 16, v);
    } else {
      Even12(old1 / 16, v);
    }
  }

  lemma Merge32Low(old3: byte, v: nat)
    ensures Merge32(old3, v) % 0x1000_0000 == v % 0x1000_0000 && Merge32(old3, v) < 0x1_0000_0000
  {
    DivUnique(Merge32(old3, v), 0x1000_0000, old3 as int / 16, v % 0x1000_0000);
  }

  lemma DecodeStoredSame(t: FsType, img: seq<byte>, c: nat, v: nat)
    requires Fits(t, |img|, c)
    ensures Decode(t, Store(t, img, c, v), c) == Trunc(t, v)
  {
    hide ByteOf, Word, Dword, Field12, First12, Second12, Merge32;
    var p := Offset(t, c);
    match t
    case FAT12 => Field12Stored(c, img[p], img[p + 1], v);
    case FAT16 => WordOfBytes(v);
    case FAT32 =>
      Merge32Low(img[p + 3], v);
      DwordOfBytes(Merge32(img[p + 3], v));
  }

  /** Neighbouring 12-bit entries share a byte, but each keeps its nibble. */
  lemma DecodeStoredOther(t: FsType, img: seq<byte>, c: nat, v: nat, d: nat)
    requires Fits(t, |img|, c) && Fits(t, |img|, d) && c != d
    ensures Decode(t, Store(t, img, c, v), d) == Decode(t, img, d)
  {
    var p := Offset(t, c);
    if t == FAT12 {
      if d == c + 1 && c % 2 == 0 {
        assert Offset(t, d) == p + 1;
        NibbleAbove(img[p + 1], img[p + 2], v / 256);
      } else if c == d + 1 && c % 2 == 1 {
        assert Offset(t, d) + 1 == p;
        NibbleBelow(img[p - 1], img[p], v);
      } else if c < d {
        assert Offset(t, d) >= p + 2;
      } else {
        assert Offset(t, d) + 2 <= p;
      }
    }
  }

  lemma DecodeFlat(t: FsType, img: seq<byte>, c: nat)
    requires t != FAT12 && Fits(t, |img|, c)
    ensures 4 * c + 3 < |img| || (t == FAT16 && 2 * c + 1 < |img|)
    ensures t == FAT16 ==> Decode(t, img, c) == Word(img[2 * c], img[2 * c + 1])
    ensures t == FAT32 ==> Decode(t, img, c) == Dword(img[4 * c], img[4 * c + 1], img[4 * c + 2], img[4 * c + 3]) % 0x1000_0000
  {
  }

  lemma DecodeField12(img: seq<byte>, c: nat, lo: nat, hi: nat)
    requires Fits(FAT12, |img|, c)
    requires lo == img[Offset(FAT12, c)] && hi == img[Offset(FAT12, c) + 1]
    ensures Decode(FAT12, img, c) == if c % 2 == 1 then (lo + 256 * hi) / 16 else (lo + 256 * hi) % 0x1000
  {
  }

  /** The value whose full update would write the same first byte and keep the second. */
  ghost function HalfValue(c: nat, old1: int, v: nat): nat
    requires 0 <= old1 < 256
  {
    if c % 2 == 1 then v % 16 + 16 * old1 else v % 256 + 256 * (old1 % 16)
  }

  lemma HalfBytes(c: nat, old0: byte, old1: byte, v: nat)
    ensures First12(c, old0, HalfValue(c, old1, v)) == First12(c, old0, v)
    ensures Second12(c, old1, HalfValue(c, old1, v)) == old1
  {
    var w := HalfValue(c, old1, v);
    if c % 2 == 1 {
      DivUnique(w, 16, old1, v % 16);
    } else {
      DivUnique(w, 256, old1 % 16, v % 256);
    }
  }

  /** Writing only the first byte of a 12-bit entry is the full update with another value. */
  lemma StoreHalf(img: seq<byte>, c: nat, v: nat) returns (w: nat)
    requires Fits(FAT12, |img|, c)
    ensures var p := Offset(FAT12, c); Store(FAT12, img, c, w) == img[p := First12(c, img[p], v)]
  {
    hide First12, Second12, HalfValue;
    var p := Offset(FAT12, c);
    var old1: int := img[p + 1];
    w := HalfValue(c, old1, v);
    HalfBytes(c, img[p], old1, v);
    assert img[p := First12(c, img[p], v)][p + 1 := img[p + 1]] == img[p := First12(c, img[p], v)];
  }

  lemma NibbleAbove(b0: byte, b1: byte, v: nat)
    ensures Word(b0 / 16 * 16 + v % 16, b1) / 16 == Word(b0, b1) / 16
  {
    var x: int, b: int := b0, b1;
    var high := x / 16 + 16 * b;
    assert x == 16 * (x / 16) + x % 16;
    DivUnique(x / 16 * 16 + v % 16 + 256 * b, 16, high, v % 16);
    DivUnique(x + 256 * b, 16, high, x % 16);
  }

  lemma NibbleBelow(b0: byte, b1: byte, v: nat)
    ensures Word(b0, b1 % 16 + 16 * (v % 16)) % 0x1000 == Word(b0, b1) % 0x1000
  {
    var b: int, x: int := b1, b0;
    var low := x + 256 * (b % 16);
    assert b == 16 * (b / 16) + b % 16;
    DivUnique(x + 256 * b, 0x1000, b / 16, low);
    DivUnique(x + 256 * (b % 16 + 16 * (v % 16)), 0x1000, v % 16, low);
  }

  /** A FAT32 entry's reserved top four bits survive every update. */
  lemma TopNibbleKept(img: seq<byte>, c: nat, v: nat)
    requires Fits(FAT32, |img|, c)
    ensures Store(FAT32, img, c, v)[4 * c + 3] / 16 == img[4 * c + 3] / 16
  {
    hide ByteOf, Merge32;
    TopByte(img[4 * c + 3], v);
  }

  lemma TopByte(old3: byte, v: nat)
    ensures ByteOf(Merge32(old3, v), 3) / 16 == old3 / 16
  {
    var o: int := old3;
    var low := v % 0x1000_0000;
    var top, rest := low / 0x100_0000, low % 0x100_0000;
    assert low == 0x100_0000 * top + rest && top < 16;
    DivUnique(low + 0x1000_0000 * (o / 16), 0x100_0000, top + 16 * (o / 16), rest);
    assert top + 16 * (o / 16) < 256;
    DivUnique(top + 16 * (o / 16), 16, o / 16, top);
  }

  /** The table: entry number to value. */
  function Table(t: FsType, img: seq<byte>, n: nat): (r: seq<nat>)
    requires forall c :: 0 <= c < n ==> Fits(t, |img|, c)
    ensures |r| == n
  {
    seq(n, c requires 0 <= c < n => Decode(t, img, c))
  }

  lemma OffsetMonotone(t: FsType, c: nat, d: nat)
    requires c <= d
    ensures Offset(t, c) <= Offset(t, d)
  {
  }

  /** Storing one entry changes exactly that entry of the table. */
  lemma TableStored(t: FsType, img: seq<byte>, n: nat, c: nat, v: nat)
    requires forall d :: 0 <= d < n ==> Fits(t, |img|, d)
    requires c < n
    ensures Table(t, Store(t, img, c, v), n) == Table(t, img, n)[c := Trunc(t, v)]
  {
    var r := Store(t, img, c, v);
    forall d | 0 <= d < n ensures Decode(t, r, d) == if d == c then Trunc(t, v) else Decode(t, img, d) {
      if d == c {
        DecodeStoredSame(t, img, c, v);
      } else {
        DecodeStoredOther(t, img, c, v, d);
      }
    }
  }
}
