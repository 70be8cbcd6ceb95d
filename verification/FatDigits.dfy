/** The table as one number: its entries are the digits of the bytes of the first FAT, the least significant first. */
module FatDigits {
  import opened Arith
  import opened Binary
  import opened FatBase
  import opened FatCodec
  import opened FatVolume

  /** Bits from one entry to the next. */
  function Pitch(t: FsType): nat {
    match t
    case FAT12 => 12
    case FAT16 => 16
    case FAT32 => 32
  }

  /** Bits of the value in an entry. */
  function Bits(t: FsType): nat {
    match t
    case FAT12 => 12
    case FAT16 => 16
    case FAT32 => 28
  }

  /** Digits from a byte boundary on. */
  lemma FromByte(img: seq<byte>, p: nat)
    requires p <= |img|
    ensures LeVal(img) / P2(8 * p) == LeVal(img[p..])
  {
    hide P2, LeVal;
    LeValSplit(img, p);
    LeValBound(img[..p]);
    DivUnique(LeVal(img), P2(8 * p), LeVal(img[p..]), LeVal(img[..p]));
  }

  lemma LowWord(a: seq<byte>)
    requires |a| >= 2
    ensures LeVal(a) == Word(a[0], a[1]) + 0x1_0000 * LeVal(a[2..])
  {
    hide LeVal;
    NextByte(a, 0);
    NextByte(a, 1);
    assert a[0..] == a;
  }

  lemma LowDword(a: seq<byte>)
    requires |a| >= 4
    ensures LeVal(a) == Dword(a[0], a[1], a[2], a[3]) + 0x1_0000_0000 * LeVal(a[4..])
  {
    hide LeVal;
    LowWord(a);
    LowWord(a[2..]);
    assert a[2..][2..] == a[4..];
  }

  lemma Powers()
    ensures P2(4) == 16 && P2(12) == 0x1000 && P2(16) == 0x1_0000 && P2(28) == 0x1000_0000
  {
    hide P2;
    P2Steps();
    P2Table();
    P2Add(4, 8);
    P2Add(12, 16);
  }

  lemma Digit12(w: nat, rest: nat)
    requires w < 0x1_0000
    ensures (w + 0x1_0000 * rest) % 0x1000 == w % 0x1000
    ensures (w + 0x1_0000 * rest) / 16 % 0x1000 == w / 16
  {
    var x := w + 0x1_0000 * rest;
    DivUnique(x, 0x1000, w / 0x1000 + 16 * rest, w % 0x1000);
    DivUnique(x, 16, w / 16 + 0x1000 * rest, w % 16);
    DivUnique(w / 16 + 0x1000 * rest, 0x1000, rest, w / 16);
  }

  lemma Digit32(w: nat, rest: nat)
    ensures (w + 0x1_0000_0000 * rest) % 0x1000_0000 == w % 0x1000_0000
  {
    DivUnique(w + 0x1_0000_0000 * rest, 0x1000_0000, w / 0x1000_0000 + 16 * rest, w % 0x1000_0000);
  }

  lemma Decode12(img: seq<byte>, c: nat)
    requires Fits(FAT12, |img|, c)
    ensures Decode(FAT12, img, c) == LeVal(img) / P2(12 * c) % 0x1000
  {
    hide P2, LeVal, Word;
    var p := c + c / 2;
    var a := img[p..];
    FromByte(img, p);
    LowWord(a);
    WordRange(a[0], a[1]);
    Digit12(Word(a[0], a[1]), LeVal(a[2..]));
    if c % 2 == 1 {
      Half(c);
      Powers();
      ShiftTwice(LeVal(img), 8 * p, 4);
    } else {
      Half(c);
    }
  }

  lemma Half(c: nat)
    ensures 12 * c == 8 * (c + c / 2) + 4 * (c % 2)
  {
  }

  lemma WordRange(x: byte, y: byte)
    ensures Word(x, y) < 0x1_0000
  {
  }

  lemma Decode16(img: seq<byte>, c: nat)
    requires Fits(FAT16, |img|, c)
    ensures Decode(FAT16, img, c) == LeVal(img) / P2(16 * c) % 0x1_0000
  {
    hide P2, LeVal, Word;
    var a := img[2 * c..];
    FromByte(img, 2 * c);
    LowWord(a);
    WordRange(a[0], a[1]);
    DivUnique(LeVal(a), 0x1_0000, LeVal(a[2..]), Word(a[0], a[1]));
  }

  lemma Decode32(img: seq<byte>, c: nat)
    requires Fits(FAT32, |img|, c)
    ensures Decode(FAT32, img, c) == LeVal(img) / P2(32 * c) % 0x1000_0000
  {
    hide P2, LeVal, Dword;
    var a := img[4 * c..];
    FromByte(img, 4 * c);
    LowDword(a);
    Digit32(Dword(a[0], a[1], a[2], a[3]), LeVal(a[4..]));
  }

  /** An entry is a digit of the image. */
  lemma DecodeIsDigit(t: FsType, img: seq<byte>, c: nat)
    requires Fits(t, |img|, c)
    ensures Decode(t, img, c) == LeVal(img) / P2(Pitch(t) * c) % P2(Bits(t))
  {
    hide P2, LeVal, Decode;
    Powers();
    match t
    case FAT12 => Decode12(img, c);
    case FAT16 => Decode16(img, c);
    case FAT32 => Decode32(img, c);
  }

  /** The sectors from x on, one behind the other. */
  ghost function Joined(view: seq<Sector>, x: nat, n: nat): (r: seq<byte>)
    requires x + n <= |view|
    ensures |r| == n * SS
  {
    if n == 0 then [] else Joined(view, x, n - 1) + view[x + n - 1]
  }

  lemma {:induction false} JoinedAt(view: seq<Sector>, x: nat, n: nat, i: nat)
    requires x + n <= |view| && i < n * SS
    ensures Joined(view, x, n)[i] == view[x + i / SS][i % SS]
  {
    if i < (n - 1) * SS {
      JoinedAt(view, x, n - 1, i);
    } else {
      DivUnique(i, SS, n - 1, i - (n - 1) * SS);
    }
  }

  /** The table that a volume shows, out of the bytes of its first FAT as one number. */
  lemma TableIsNumber(g: Geo, view: seq<Sector>, c: nat)
    requires g.Valid() && g.End() <= |view| && c < g.nFatent
    ensures g.fatbase + g.fsize <= |view|
    ensures FatOf(g, view)[c] == LeVal(Joined(view, g.fatbase, g.fsize)) / P2(Pitch(g.fsType) * c) % P2(Bits(g.fsType))
  {
    hide LeVal, P2, Decode, Geo.Valid;
    FirstFat(g);
    GeoTableFits(g);
    var img, all := FatImage(g, view), Joined(view, g.fatbase, g.fsize);
    forall i | 0 <= i < g.fsize * SS ensures img[i] == all[i] {
      JoinedAt(view, g.fatbase, g.fsize, i);
    }
    assert img == all;
    DecodeIsDigit(g.fsType, img, c);
  }

  lemma FirstFat(g: Geo)
    requires g.Valid()
    ensures g.fatbase + g.fsize <= g.database <= g.End() && 0 < g.fsize
  {
    MulNat(g.csize, g.nFatent - 2);
  }
}
