/** The 2-bit tiled pixmap of a GameCube font, the font file around it, and the way back to a bitmap. */
module Font {
  import opened Arith
  import opened Bytes
  import opened Options
  import opened Yay0
  import opened Yay0Compress

  // ---------- tiles ----------

  // A pixmap wb blocks wide is a sequence of runs of eight pixels: run s lies at pixel 8 * s.
  // Encoded, the runs are stored block by block, two bytes each.

  /** The run that the t-th stored pair of bytes holds: row t % 8 of block t / 8. */
  function Slot(wb: nat, t: nat): nat
    requires wb > 0
  {
    DivNat(t / 8, wb);
    MulNat(t / 8 / wb * 8 + t % 8, wb);
    (t / 8 / wb * 8 + t % 8) * wb + t / 8 % wb
  }

  /** Where run s is stored. */
  function Stored(wb: nat, s: nat): nat
    requires wb > 0
  {
    DivNat(s, wb);
    MulNat(s / wb / 8, wb);
    (s / wb / 8 * wb + s % wb) * 8 + s / wb % 8
  }

  /** Row row of the block at (br, block) is stored at t, and is run s. */
  lemma TileOf(wb: nat, br: nat, block: nat, row: nat, t: nat, s: nat)
    requires block < wb && row < 8 && t == (br * wb + block) * 8 + row && s == (br * 8 + row) * wb + block
    ensures Slot(wb, t) == s && Stored(wb, s) == t
  {
    DivUnique(br * wb + block, wb, br, block);
    DivUnique(s, wb, br * 8 + row, block);
  }

  lemma TileInside(wb: nat, hb: nat, br: nat, block: nat, row: nat)
    requires br < hb && block < wb && row < 8
    ensures (br * wb + block) * 8 + row < hb * wb * 8 && (br * 8 + row) * wb + block < hb * wb * 8
  {
    MulMonotone(wb, br + 1, hb);
    MulMonotone(wb, br * 8 + row + 1, hb * 8);
  }

  /** Blocks, rows and columns of the t-th stored pair. */
  lemma SlotInverse(wb: nat, hb: nat, t: nat)
    requires wb > 0 && t < hb * wb * 8
    ensures Slot(wb, t) < hb * wb * 8 && Stored(wb, Slot(wb, t)) == t
  {
    hide Slot, Stored;
    var q, row := t / 8, t % 8;
    DivNat(q, wb);
    var br: nat, block: nat := q / wb, q % wb;
    DivBound(q, wb, hb);
    TileOf(wb, br, block, row, t, (br * 8 + row) * wb + block);
    TileInside(wb, hb, br, block, row);
  }

  lemma StoredInverse(wb: nat, hb: nat, s: nat)
    requires wb > 0 && s < hb * wb * 8
    ensures Stored(wb, s) < hb * wb * 8 && Slot(wb, Stored(wb, s)) == s
  {
    hide Slot, Stored;
    DivNat(s, wb);
    var y: nat, block: nat := s / wb, s % wb;
    var br, row := y / 8, y % 8;
    Eightfold(hb, wb);
    DivBound(s, wb, hb * 8);
    MulNat(br, wb);
    assert s == (br * 8 + row) * wb + block;
    TileOf(wb, br, block, row, (br * wb + block) * 8 + row, s);
    TileInside(wb, hb, br, block, row);
  }

  lemma Eightfold(h: nat, w: nat)
    ensures h * w * 8 == h * 8 * w
  {
  }

  lemma DivBound(x: nat, d: nat, n: nat)
    requires d > 0 && x < n * d
    ensures x / d < n
  {
    if x / d >= n {
      MulMonotone(d, n, x / d);
    }
  }

  // ---------- encoding and decoding ----------

  /** The top two bits of four pixels, in one byte. */
  function Pack4(p: seq<byte>, at: nat): byte
    requires at + 4 <= |p|
  {
    p[at] / 64 * 64 + p[at + 1] / 64 * 16 + p[at + 2] / 64 * 4 + p[at + 3] / 64
  }

  /** The grey level of pixel c of four: 0, 0x55, 0xAA or 0xFF. */
  function Level(b: byte, c: nat): byte
    requires c < 4
  {
    (b / (if c == 0 then 64 else if c == 1 then 16 else if c == 2 then 4 else 1)) % 4 * 0x55
  }

  /** The grey level that stands for a pixel: its top two bits, repeated. */
  function Quantized(p: byte): byte { p / 64 * 0x55 }

  /** The grey level is one of four, and keeps the top two bits. */
  lemma QuantizedNear(p: byte)
    ensures Quantized(p) in {0, 85, 170, 255} && Quantized(p) / 64 == p / 64 && Quantized(Quantized(p)) == Quantized(p)
  {
  }

  /** The four pixels of a byte are its digits in base 4, the first one in front. */
  lemma PackedDigits(p: seq<byte>, at: nat)
    requires at + 4 <= |p|
    ensures Pack4(p, at) == ((p[at] / 64 * 4 + p[at + 1] / 64) * 4 + p[at + 2] / 64) * 4 + p[at + 3] / 64
  {
  }

  lemma LevelOfPack(p: seq<byte>, at: nat, c: nat)
    requires at + 4 <= |p| && c < 4
    ensures Level(Pack4(p, at), c) == Quantized(p[at + c])
  {
    FourParts(p[at] / 64, p[at + 1] / 64, p[at + 2] / 64, p[at + 3] / 64);
  }

  lemma FourParts(q0: nat, q1: nat, q2: nat, q3: nat)
    requires q0 < 4 && q1 < 4 && q2 < 4 && q3 < 4
    ensures var b := q0 * 64 + q1 * 16 + q2 * 4 + q3;
            b / 64 == q0 && b / 16 % 4 == q1 && b / 4 % 4 == q2 && b % 4 == q3
  {
    var b := q0 * 64 + q1 * 16 + q2 * 4 + q3;
    assert b / 16 == 4 * q0 + q1 && b / 4 == 16 * q0 + 4 * q1 + q2;
  }

  lemma LevelTop(k: nat)
    requires k < 4
    ensures k * 0x55 / 64 == k
  {
  }

  lemma PackOfLevels(p: seq<byte>, at: nat, b: byte)
    requires at + 4 <= |p| && forall c :: 0 <= c < 4 ==> p[at + c] == Level(b, c)
    ensures Pack4(p, at) == b
  {
    var b': int := b;
    var q0, q1, q2, q3 := b' / 64, b' / 16 % 4, b' / 4 % 4, b' % 4;
    FourDigits(b');
    LevelTop(q0);
    LevelTop(q1);
    LevelTop(q2);
    LevelTop(q3);
    assert p[at + 0] == Level(b, 0) && p[at + 1] == Level(b, 1) && p[at + 2] == Level(b, 2) && p[at + 3] == Level(b, 3);
  }

  lemma FourDigits(b: nat)
    requires b < 256
    ensures b == b / 64 * 64 + b / 16 % 4 * 16 + b / 4 % 4 * 4 + b % 4
  {
    assert b / 4 / 4 == b / 16 && b / 16 / 4 == b / 64;
  }

  /** i2 holds the whole blocks of the pixels. */
  ghost predicate IsEncoding(pixels: seq<byte>, wb: nat, i2: seq<byte>) {
    && wb > 0
    && |i2| == |pixels| / (wb * 64) * wb * 16
    && forall t, h :: 0 <= t < |i2| / 2 && 0 <= h < 2 ==> EncodedAt(pixels, wb, i2, t, h)
  }

  ghost predicate EncodedAt(pixels: seq<byte>, wb: nat, i2: seq<byte>, t: nat, h: nat) {
    var at := 8 * Slot(if wb == 0 then 1 else wb, t) + 4 * h;
    2 * t + h < |i2| && at + 4 <= |pixels| && i2[2 * t + h] == Pack4(pixels, at)
  }

  /** The pixels are those of the whole blocks of i2. */
  ghost predicate IsDecoding(i2: seq<byte>, wb: nat, pixels: seq<byte>) {
    && wb > 0
    && |pixels| == |i2| / (wb * 16) * wb * 64
    && forall t, c :: 0 <= t < |pixels| / 8 && 0 <= c < 8 ==> DecodedAt(i2, wb, pixels, t, c)
  }

  ghost predicate DecodedAt(i2: seq<byte>, wb: nat, pixels: seq<byte>, t: nat, c: nat) {
    var at := 8 * Slot(if wb == 0 then 1 else wb, t) + c;
    2 * t + c / 4 < |i2| && at < |pixels| && pixels[at] == Level(i2[2 * t + c / 4], c % 4)
  }

  /** i2encode: the pixels are width wide; a width below one block divides by zero. */
  method I2Encode(data: seq<byte>, width: nat) returns (out: seq<byte>, outWidth: nat)
    requires width >= 8
    ensures IsEncoding(data, width / 8, out) && outWidth == width / 8 * 8
  {
    hide Slot, EncodedAt, Pack4, DecodedBelow;
    var widthBlocks := width / 8;
    var heightBlocks := |data| / (widthBlocks * 64);
    WholeBlocks(|data|, widthBlocks, 64);
    ghost var n := heightBlocks * widthBlocks * 8;
    var buf := new byte[heightBlocks * widthBlocks * 16](_ => 0);
    outWidth := widthBlocks * 8;
    var blockRow := 0;
    while blockRow < heightBlocks
      invariant blockRow <= heightBlocks && buf.Length == 2 * n
      invariant EncodedBelow(data, widthBlocks, buf[..], blockRow * widthBlocks * 8)
    {
      var block := 0;
      while block < widthBlocks
        invariant block <= widthBlocks && buf.Length == 2 * n
        invariant EncodedBelow(data, widthBlocks, buf[..], (blockRow * widthBlocks + block) * 8)
      {
        EncodeBlock(data, widthBlocks, heightBlocks, blockRow, block, buf);
        block := block + 1;
      }
      NextRow(widthBlocks, blockRow);
      blockRow := blockRow + 1;
    }
    out := buf[..];
  }

  lemma NextRow(wb: nat, br: nat)
    ensures (br + 1) * wb == br * wb + wb
  {
  }

  /** One block of 8 x 8 pixels, row by row. */
  method EncodeBlock(data: seq<byte>, wb: nat, ghost hb: nat, blockRow: nat, block: nat, buf: array<byte>)
    requires blockRow < hb && block < wb && buf.Length == hb * wb * 16 && hb * wb * 64 <= |data|
    requires EncodedBelow(data, wb, buf[..], (blockRow * wb + block) * 8)
    modifies buf
    ensures EncodedBelow(data, wb, buf[..], (blockRow * wb + block + 1) * 8)
  {
    hide Slot, EncodedAt, EncodedBelow, Pack4;
    ghost var t := (blockRow * wb + block) * 8;
    var row := 0;
    while row < 8
      invariant row <= 8
      invariant EncodedBelow(data, wb, buf[..], t + row)
    {
      var src := blockRow * wb * 64 + block * 8 + row * wb * 8;
      var dst := blockRow * wb * 16 + block * 16 + row * 2;
      Offsets(wb, hb, blockRow, block, row);
      ghost var before := buf[..];
      buf[dst] := Pack4(data, src);
      buf[dst + 1] := Pack4(data, src + 4);
      EncodedMore(data, wb, before, buf[..], t + row);
      row := row + 1;
    }
  }

  ghost predicate EncodedBelow(data: seq<byte>, wb: nat, i2: seq<byte>, t: nat) {
    forall u, h :: 0 <= u < t && 0 <= h < 2 ==> EncodedAt(data, wb, i2, u, h)
  }

  lemma EncodedMore(data: seq<byte>, wb: nat, i2: seq<byte>, i2': seq<byte>, t: nat)
    requires wb > 0 && EncodedBelow(data, wb, i2, t)
    requires |i2'| == |i2| && 2 * t + 1 < |i2| && 8 * Slot(wb, t) + 8 <= |data|
    requires i2' == i2[2 * t := Pack4(data, 8 * Slot(wb, t))][2 * t + 1 := Pack4(data, 8 * Slot(wb, t) + 4)]
    ensures EncodedBelow(data, wb, i2', t + 1)
  {
    hide Slot, Pack4;
    forall u, h | 0 <= u < t + 1 && 0 <= h < 2 ensures EncodedAt(data, wb, i2', u, h) {
      if u < t {
        assert EncodedAt(data, wb, i2, u, h);
      }
    }
  }

  lemma WholeBlocks(size: nat, wb: nat, unit: nat)
    requires wb > 0 && unit > 0
    ensures wb * unit > 0 && size / (wb * unit) * wb >= 0 && size / (wb * unit) * wb * unit <= size
    ensures size % (wb * unit) == 0 ==> size / (wb * unit) * wb * unit == size
  {
    MulMonotone(wb, 1, unit);
    Blocks(size, wb * unit, wb, unit);
  }

  lemma Blocks(size: nat, d: nat, wb: nat, unit: nat)
    requires wb > 0 && d == wb * unit > 0
    ensures size / d * wb >= 0 && size / d * wb * unit == size - size % d
  {
    var q := size / d;
    assert size == d * q + size % d;
    Associate(q, wb, unit);
    MulMonotone(wb, 0, q);
  }

  lemma Associate(a: int, b: int, c: int)
    ensures a * b * c == b * c * a
  {
  }

  /** The offsets of the two loops, as run and pair numbers. */
  lemma Offsets(wb: nat, hb: nat, br: nat, block: nat, row: nat)
    requires br < hb && block < wb && row < 8
    ensures var t := (br * wb + block) * 8 + row;
            && t < hb * wb * 8
            && Slot(wb, t) < hb * wb * 8
            && 2 * t == br * wb * 16 + block * 16 + row * 2
            && 8 * Slot(wb, t) == br * wb * 64 + block * 8 + row * wb * 8
  {
    hide Slot, Stored;
    MulNat(br, wb);
    SlotOf(wb, br, block, row);
    TileInside(wb, hb, br, block, row);
    Distribute(wb, br, row);
    Sixteenths(br, wb, row);
  }

  lemma Sixteenths(br: nat, wb: nat, row: nat)
    ensures br * wb * 16 == 16 * (br * wb) && br * wb * 64 == 64 * (br * wb) && row * wb * 8 == 8 * (row * wb)
  {
  }

  lemma SlotOf(wb: nat, br: nat, block: nat, row: nat)
    requires block < wb && row < 8
    ensures Slot(wb, (br * wb + block) * 8 + row) == (br * 8 + row) * wb + block
  {
    TileOf(wb, br, block, row, (br * wb + block) * 8 + row, (br * 8 + row) * wb + block);
  }

  lemma Distribute(wb: int, br: int, row: int)
    ensures (br * 8 + row) * wb == 8 * (br * wb) + row * wb
  {
  }

  /** i2decode: a width of zero divides by zero. */
  method I2Decode(data: seq<byte>, width: nat) returns (out: seq<byte>, outWidth: nat)
    requires width > 0
    ensures IsDecoding(data, (width + 7) / 8, out) && outWidth == (width + 7) / 8 * 8
  {
    hide Slot, DecodedAt, Level;
    var widthBlocks := (width + 7) / 8;
    var heightBlocks := |data| / (widthBlocks * 16);
    WholeBlocks(|data|, widthBlocks, 16);
    ghost var n := heightBlocks * widthBlocks * 8;
    var buf := new byte[heightBlocks * widthBlocks * 64](_ => 0);
    outWidth := widthBlocks * 8;
    var blockRow := 0;
    while blockRow < heightBlocks
      invariant blockRow <= heightBlocks && buf.Length == 8 * n
      invariant DecodedBelow(data, widthBlocks, buf[..], blockRow * widthBlocks * 8)
    {
      var block := 0;
      while block < widthBlocks
        invariant block <= widthBlocks && buf.Length == 8 * n
        invariant DecodedBelow(data, widthBlocks, buf[..], (blockRow * widthBlocks + block) * 8)
      {
        DecodeBlock(data, widthBlocks, heightBlocks, blockRow, block, buf);
        block := block + 1;
      }
      NextRow(widthBlocks, blockRow);
      blockRow := blockRow + 1;
    }
    out := buf[..];
  }

  method DecodeBlock(data: seq<byte>, wb: nat, ghost hb: nat, blockRow: nat, block: nat, buf: array<byte>)
    requires blockRow < hb && block < wb && buf.Length == hb * wb * 64 && hb * wb * 16 <= |data|
    requires DecodedBelow(data, wb, buf[..], (blockRow * wb + block) * 8)
    modifies buf
    ensures DecodedBelow(data, wb, buf[..], (blockRow * wb + block + 1) * 8)
  {
    hide Slot, DecodedAt, DecodedBelow, Level;
    ghost var t := (blockRow * wb + block) * 8;
    var row := 0;
    while row < 8
      invariant row <= 8
      invariant DecodedBelow(data, wb, buf[..], t + row)
    {
      var src := blockRow * wb * 16 + block * 16 + row * 2;
      var dst := blockRow * wb * 64 + block * 8 + row * wb * 8;
      Offsets(wb, hb, blockRow, block, row);
      ghost var before := buf[..];
      PutRun(buf, dst, data[src], data[src + 1]);
      DecodedMore(data, wb, hb, before, buf[..], t + row);
      row := row + 1;
    }
  }

  /** The eight pixels of two bytes. */
  method PutRun(buf: array<byte>, dst: nat, src1: byte, src2: byte)
    requires dst + 8 <= buf.Length
    modifies buf
    ensures forall i :: 0 <= i < buf.Length && !(dst <= i < dst + 8) ==> buf[i] == old(buf[i])
    ensures forall c :: 0 <= c < 8 ==> buf[dst + c] == Level(if c < 4 then src1 else src2, c % 4)
  {
    hide Level;
    buf[dst] := Level(src1, 0);
    buf[dst + 1] := Level(src1, 1);
    buf[dst + 2] := Level(src1, 2);
    buf[dst + 3] := Level(src1, 3);
    buf[dst + 4] := Level(src2, 0);
    buf[dst + 5] := Level(src2, 1);
    buf[dst + 6] := Level(src2, 2);
    buf[dst + 7] := Level(src2, 3);
  }

  ghost predicate DecodedBelow(i2: seq<byte>, wb: nat, pixels: seq<byte>, t: nat) {
    forall u, c :: 0 <= u < t && 0 <= c < 8 ==> DecodedAt(i2, wb, pixels, u, c)
  }

  lemma DecodedMore(i2: seq<byte>, wb: nat, hb: nat, pixels: seq<byte>, pixels': seq<byte>, t: nat)
    requires wb > 0 && t < hb * wb * 8 && DecodedBelow(i2, wb, pixels, t)
    requires |pixels'| == |pixels| && 2 * t + 1 < |i2| && 8 * Slot(wb, t) + 8 <= |pixels|
    requires forall i :: 0 <= i < |pixels| && !(8 * Slot(wb, t) <= i < 8 * Slot(wb, t) + 8) ==> pixels'[i] == pixels[i]
    requires forall c :: 0 <= c < 8 ==> pixels'[8 * Slot(wb, t) + c] == Level(i2[2 * t + c / 4], c % 4)
    ensures DecodedBelow(i2, wb, pixels', t + 1)
  {
    hide Slot, Stored, Level;
    forall u, c | 0 <= u < t + 1 && 0 <= c < 8 ensures DecodedAt(i2, wb, pixels', u, c) {
      if u < t {
        assert DecodedAt(i2, wb, pixels, u, c);
        SlotInverse(wb, hb, t);
        SlotInverse(wb, hb, u);
        assert Slot(wb, u) != Slot(wb, t);
      }
    }
  }

  // ---------- the two directions are inverse ----------

  /** Every pixel of a pixmap of whole blocks comes back in its place, quantized. */
  lemma DecodeEncode(pixels: seq<byte>, wb: nat, i2: seq<byte>, back: seq<byte>)
    requires IsEncoding(pixels, wb, i2) && IsDecoding(i2, wb, back) && |pixels| % (wb * 64) == 0
    ensures |back| == |pixels| && forall i :: 0 <= i < |pixels| ==> back[i] == Quantized(pixels[i])
  {
    hide Slot, Stored, Level, Pack4, Quantized, EncodedAt, DecodedAt;
    var hb := |pixels| / (wb * 64);
    WholeBlocks(|pixels|, wb, 64);
    BlockCount(|i2|, wb, 16, hb);
    forall i | 0 <= i < |pixels| ensures back[i] == Quantized(pixels[i]) {
      StoredInverse(wb, hb, i / 8);
      PixelBack(pixels, wb, i2, back, hb, i);
    }
  }

  lemma BlockCount(size: nat, wb: nat, unit: nat, hb: nat)
    requires wb > 0 && unit > 0 && size == hb * wb * unit
    ensures wb * unit > 0 && size / (wb * unit) == hb && size % (wb * unit) == 0
  {
    MulMonotone(wb, 1, unit);
    Associate(hb, wb, unit);
    DivUnique(size, wb * unit, hb, 0);
  }

  lemma PixelBack(pixels: seq<byte>, wb: nat, i2: seq<byte>, back: seq<byte>, hb: nat, i: nat)
    requires IsEncoding(pixels, wb, i2) && IsDecoding(i2, wb, back) && i < |pixels| == |back| == hb * wb * 64
    requires |i2| == hb * wb * 16 && Stored(wb, i / 8) < hb * wb * 8 && Slot(wb, Stored(wb, i / 8)) == i / 8
    ensures back[i] == Quantized(pixels[i])
  {
    hide Slot, Stored, Level, Pack4, Quantized;
    var s, c := i / 8, i % 8;
    var t := Stored(wb, s);
    assert DecodedAt(i2, wb, back, t, c);
    assert EncodedAt(pixels, wb, i2, t, c / 4);
    LevelOfPack(pixels, 8 * s + 4 * (c / 4), c % 4);
  }

  /** Every encoded pixmap of whole blocks is what its decoding encodes to. */
  lemma EncodeDecode(i2: seq<byte>, wb: nat, pixels: seq<byte>, back: seq<byte>)
    requires IsDecoding(i2, wb, pixels) && IsEncoding(pixels, wb, back) && |i2| % (wb * 16) == 0
    ensures back == i2
  {
    hide Slot, Stored, Level, Pack4, EncodedAt, DecodedAt;
    var hb := |i2| / (wb * 16);
    WholeBlocks(|i2|, wb, 16);
    BlockCount(|pixels|, wb, 64, hb);
    forall i | 0 <= i < |i2| ensures back[i] == i2[i] {
      ByteBack(i2, wb, pixels, back, hb, i);
    }
  }

  lemma ByteBack(i2: seq<byte>, wb: nat, pixels: seq<byte>, back: seq<byte>, hb: nat, i: nat)
    requires IsDecoding(i2, wb, pixels) && IsEncoding(pixels, wb, back) && i < |i2| == |back| == hb * wb * 16
    requires |pixels| == hb * wb * 64
    ensures back[i] == i2[i]
  {
    hide Slot, Stored, Level, Pack4, DecodedAt;
    var t, h := i / 2, i % 2;
    assert i == 2 * t + h && t < |pixels| / 8;
    assert EncodedAt(pixels, wb, back, t, h);
    var at := 8 * Slot(wb, t) + 4 * h;
    forall c | 0 <= c < 4 ensures pixels[at + c] == Level(i2[i], c) {
      assert DecodedAt(i2, wb, pixels, t, 4 * h + c);
      LevelAt(i2, wb, pixels, t, h, c);
    }
    PackOfLevels(pixels, at, i2[i]);
  }

  lemma LevelAt(i2: seq<byte>, wb: nat, pixels: seq<byte>, t: nat, h: nat, c: nat)
    requires wb > 0 && h < 2 && c < 4 && DecodedAt(i2, wb, pixels, t, 4 * h + c)
    ensures 2 * t + h < |i2| && 8 * Slot(wb, t) + 4 * h + c < |pixels|
    ensures pixels[8 * Slot(wb, t) + 4 * h + c] == Level(i2[2 * t + h], c)
  {
    hide Slot, Level;
    assert (4 * h + c) / 4 == h && (4 * h + c) % 4 == c;
  }

  // ---------- the font file ----------

  datatype FontType = Windows1252 | ShiftJis

  const CELL_SIZE: nat := 24
  const CELLS_PER_ROW: nat := 21
  const PIXMAP_WIDTH: nat := 512

  function FontHeader(kind: FontType, widths: nat, pixmap: nat): (r: seq<byte>)
    ensures |r| == 0x30
    ensures r[0x1E..0x20] == PutBe16(PIXMAP_WIDTH) && r[0x24..0x28] == PutBe32(0x30 + widths)
  {
    var w := kind == Windows1252;
    PutBe16(if w then 0 else 2) + PutBe16(if w then 0x0020 else 0x8140) + PutBe16(if w then 0x00FF else 0x9872)
    + PutBe16(0x20) + PutBe16(CELL_SIZE) + PutBe16(0) + PutBe16(CELL_SIZE) + PutBe16(CELL_SIZE * 7 / 6)
    + PutBe16(CELL_SIZE) + PutBe16(CELL_SIZE) + PutBe32(PIXMAP_WIDTH * PIXMAP_WIDTH / 2) + PutBe16(0)
    + PutBe16(CELLS_PER_ROW) + PutBe16(CELLS_PER_ROW) + PutBe16(PIXMAP_WIDTH) + PutBe16(PIXMAP_WIDTH)
    + PutBe16(0x30) + PutBe32(0x30 + widths) + PutBe32(2 * pixmap) + PutBe32(0x0055AAFF)
  }

  /** The fields of the header at their offsets, as numbers. */
  lemma HeaderFields(kind: FontType, widths: nat, pixmap: nat)
    requires 0x30 + widths < WRAP && 2 * pixmap < WRAP
    ensures var h := FontHeader(kind, widths, pixmap);
            && BeVal(h[0x00..0x02]) == (if kind == ShiftJis then 2 else 0)
            && BeVal(h[0x02..0x04]) == (if kind == ShiftJis then 0x8140 else 0x20)
            && BeVal(h[0x04..0x06]) == (if kind == ShiftJis then 0x9872 else 0xFF)
            && BeVal(h[0x06..0x08]) == 0x20
            && BeVal(h[0x08..0x0A]) == 24 && BeVal(h[0x0A..0x0C]) == 0
            && BeVal(h[0x0C..0x0E]) == 24 && BeVal(h[0x0E..0x10]) == 28
            && BeVal(h[0x10..0x12]) == 24 && BeVal(h[0x12..0x14]) == 24
            && BeVal(h[0x14..0x18]) == 0x20000 && BeVal(h[0x18..0x1A]) == 0
            && BeVal(h[0x1A..0x1C]) == 21 && BeVal(h[0x1C..0x1E]) == 21
            && BeVal(h[0x1E..0x20]) == 512 && BeVal(h[0x20..0x22]) == 512
            && BeVal(h[0x22..0x24]) == 0x30 && BeVal(h[0x24..0x28]) == 0x30 + widths
            && BeVal(h[0x28..0x2C]) == 2 * pixmap && BeVal(h[0x2C..0x30]) == 0x0055AAFF
  {
    hide PutBe16, PutBe32, BeVal, FontHeader;
    CharacterSlices(kind, widths, pixmap);
    TextureSlices(kind, widths, pixmap);
    StoredNumeral(0);
    StoredNumeral(2);
    StoredNumeral(0x20);
    StoredNumeral(0x8140);
    StoredNumeral(0xFF);
    StoredNumeral(0x9872);
    StoredNumeral(24);
    StoredNumeral(28);
    StoredNumeral(0x20000);
    StoredNumeral(21);
    StoredNumeral(512);
    StoredNumeral(0x30);
    StoredNumeral(0x30 + widths);
    StoredNumeral(2 * pixmap);
    StoredNumeral(0x0055AAFF);
  }

  lemma CharacterSlices(kind: FontType, widths: nat, pixmap: nat)
    ensures var h := FontHeader(kind, widths, pixmap);
            && h[0x00..0x02] == PutBe16(if kind == Windows1252 then 0 else 2)
            && h[0x02..0x04] == PutBe16(if kind == Windows1252 then 0x0020 else 0x8140)
            && h[0x04..0x06] == PutBe16(if kind == Windows1252 then 0x00FF else 0x9872)
            && h[0x06..0x08] == PutBe16(0x20)
            && h[0x08..0x0A] == PutBe16(24)
            && h[0x0A..0x0C] == PutBe16(0)
            && h[0x0C..0x0E] == PutBe16(24)
            && h[0x0E..0x10] == PutBe16(28)
            && h[0x10..0x12] == PutBe16(24)
            && h[0x12..0x14] == PutBe16(24)
  {
    hide PutBe16, PutBe32;
  }

  lemma TextureSlices(kind: FontType, widths: nat, pixmap: nat)
    ensures var h := FontHeader(kind, widths, pixmap);
            && h[0x14..0x18] == PutBe32(0x20000)
            && h[0x18..0x1A] == PutBe16(0)
            && h[0x1A..0x1C] == PutBe16(21)
            && h[0x1C..0x1E] == PutBe16(21)
            && h[0x1E..0x20] == PutBe16(512)
            && h[0x20..0x22] == PutBe16(512)
            && h[0x22..0x24] == PutBe16(0x30)
            && h[0x24..0x28] == PutBe32(0x30 + widths)
            && h[0x28..0x2C] == PutBe32(2 * pixmap)
            && h[0x2C..0x30] == PutBe32(0x0055AAFF)
  {
    hide PutBe16, PutBe32;
  }

  /** generate_fnt. */
  function GenerateFnt(kind: FontType, widths: seq<byte>, pixmap: seq<byte>): seq<byte> {
    FontHeader(kind, |widths|, |pixmap|) + widths + pixmap
  }

  /** The 2-bit data and width that fnt_to_bmp finds in an uncompressed font. */
  function FontPixmap(fnt: seq<byte>): Option<(seq<byte>, nat)> {
    if |fnt| < 0x28 then None
    else
      var start, width := Be32(fnt[0x24], fnt[0x25], fnt[0x26], fnt[0x27]), Be16(fnt[0x1E], fnt[0x1F]);
      if start > |fnt| || width == 0 then None else Some((fnt[start..], width))
  }

  lemma FontPixmapOf(kind: FontType, widths: seq<byte>, pixmap: seq<byte>)
    requires |GenerateFnt(kind, widths, pixmap)| < WRAP
    ensures FontPixmap(GenerateFnt(kind, widths, pixmap)) == Some((pixmap, PIXMAP_WIDTH))
  {
    hide FontHeader, PutBe16, PutBe32, Be16, Be32;
    var fnt, head := GenerateFnt(kind, widths, pixmap), FontHeader(kind, |widths|, |pixmap|);
    var w, p := PutBe16(PIXMAP_WIDTH), PutBe32(0x30 + |widths|);
    assert head[0x1E..0x20][0] == w[0] && head[0x1E..0x20][1] == w[1];
    assert head[0x24..0x28][0] == p[0] && head[0x24..0x28][1] == p[1] && head[0x24..0x28][2] == p[2] && head[0x24..0x28][3] == p[3];
    Be16RoundTrip(PIXMAP_WIDTH);
    Be32RoundTrip(0x30 + |widths|);
    assert fnt[0x30 + |widths|..] == pixmap;
  }

  /** What fnt_to_bmp puts behind the bitmap header. */
  ghost predicate IsBitmapOf(file: seq<byte>, r: Outcome) {
    match Decompressed(file)
    case Invalid => r == Invalid
    case Ok(fnt) =>
      match FontPixmap(fnt)
      case None => r == Invalid
      case Some(p) => r.Ok? && IsDecoding(p.0, (p.1 + 7) / 8, r.data)
  }

  /** fnt_to_bmp without the bitmap header; Invalid also stands for a start or a width the source trips over. */
  method FntToBmp(file: seq<byte>) returns (r: Outcome)
    ensures IsBitmapOf(file, r)
  {
    var fnt := Decompress(file);
    if fnt == Invalid { return Invalid; }
    var p := FontPixmap(fnt.data);
    if p == None { return Invalid; }
    var pixels, width := I2Decode(p.value.0, p.value.1);
    return Ok(pixels);
  }

  /** The bitmap of a font made from a 512-wide pixmap of whole blocks is that pixmap, quantized. */
  lemma FontRoundTrip(kind: FontType, widths: seq<byte>, pixels: seq<byte>, i2: seq<byte>, file: seq<byte>, r: Outcome)
    requires IsEncoding(pixels, PIXMAP_WIDTH / 8, i2) && |pixels| % (PIXMAP_WIDTH * 8) == 0
    requires |GenerateFnt(kind, widths, i2)| < WRAP && Decompressed(file) == Ok(GenerateFnt(kind, widths, i2))
    requires IsBitmapOf(file, r)
    ensures r.Ok? && |r.data| == |pixels| && forall i :: 0 <= i < |pixels| ==> r.data[i] == Quantized(pixels[i])
  {
    hide Decompressed, FontPixmap, GenerateFnt, IsDecoding, IsEncoding, Quantized;
    FontPixmapOf(kind, widths, i2);
    DecodeEncode(pixels, PIXMAP_WIDTH / 8, i2, r.data);
  }

  lemma FontSize(kind: FontType, widths: seq<byte>, pixels: seq<byte>, i2: seq<byte>)
    requires IsEncoding(pixels, PIXMAP_WIDTH / 8, i2)
    ensures |GenerateFnt(kind, widths, i2)| <= 0x30 + |widths| + |pixels|
  {
    hide FontHeader;
  }

  /** The end of freetype_to_fnt: scramble, generate and compress. */
  method PixmapToFnt(kind: FontType, widths: seq<byte>, pixels: seq<byte>) returns (file: seq<byte>)
    ensures |pixels| % (PIXMAP_WIDTH * 8) == 0 && 0x30 + |widths| + |pixels| < WRAP && |file| < WRAP ==>
              forall r :: IsBitmapOf(file, r) ==>
                r.Ok? && |r.data| == |pixels| && forall i :: 0 <= i < |pixels| ==> r.data[i] == Quantized(pixels[i])
  {
    hide IsBitmapOf, Quantized, GenerateFnt, Decompressed, IsEncoding, Encodes;
    var i2, width := I2Encode(pixels, PIXMAP_WIDTH);
    var fnt := GenerateFnt(kind, widths, i2);
    FontSize(kind, widths, pixels, i2);
    file := Compress(fnt);
    if |pixels| % (PIXMAP_WIDTH * 8) == 0 && 0x30 + |widths| + |pixels| < WRAP && |file| < WRAP {
      forall r | IsBitmapOf(file, r)
        ensures r.Ok? && |r.data| == |pixels| && forall i :: 0 <= i < |pixels| ==> r.data[i] == Quantized(pixels[i])
      {
        FontRoundTrip(kind, widths, pixels, i2, file, r);
      }
    }
  }
}
