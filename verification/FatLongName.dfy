/** Long names of directory entries: written in pieces of thirteen UTF-16 units, read back and compared. */
module FatLongName {
  import Arith
  import opened Bytes
  import opened Options

  type unit = x: int | 0 <= x < 0x1_0000

  const AM_LFN: byte := 0x0F
  const LLEF: nat := 0x40
  const DDEM: byte := 0xE5
  /** FF_MAX_LFN + 1, the size of the working buffer. */
  const BUFFER: nat := 256

  /** Where the units of an entry stand. */
  const OFS: seq<nat> := [1, 3, 5, 7, 9, 14, 16, 18, 20, 22, 24, 28, 30]

  type entry = d: seq<byte> | |d| == 32 witness seq(32, _ => 0)

  /**
   * The units of a name stand in order in the bytes of an entry, and take all of them but the order, the attribute, the
   * type, the checksum and the cluster.
   */
  lemma UnitPlaces(b: nat)
    requires b < 32
    ensures |OFS| == 13 && OFS[12] + 2 == 32 && forall s :: 0 <= s < 12 ==> OFS[s] + 2 <= OFS[s + 1]
    ensures b in {0, 11, 12, 13, 26, 27} <==> forall s :: 0 <= s < 13 ==> b < OFS[s] || OFS[s] + 2 <= b
  {
    if b !in {0, 11, 12, 13, 26, 27} {
      var s := if b < 11 then (b - 1) / 2 else if b < 26 then (b - 14) / 2 + 5 else (b - 28) / 2 + 11;
      assert OFS[s] <= b < OFS[s] + 2;
    }
  }

  function Word(d: entry, i: nat): unit
    requires i + 1 < 32
  {
    d[i] as int + 256 * d[i + 1] as int
  }

  /** ld_word(dir + LfnOfs[s]). */
  function Unit(d: entry, s: nat): unit
    requires s < 13
  {
    Word(d, OFS[s])
  }

  // ---------- names ----------

  ghost predicate IsName(name: seq<unit>) {
    0 < |name| < BUFFER && forall i :: 0 <= i < |name| ==> name[i] != 0
  }

  /** The name, its terminator, and the filler behind it. */
  function Padded(name: seq<unit>, i: nat): unit {
    if i < |name| then name[i] else if i == |name| then 0 else 0xFFFF
  }

  function Pieces(name: seq<unit>): nat { (|name| + 12) / 13 }

  /** The working buffer holds the name and its terminator. */
  ghost predicate Holds(buf: seq<unit>, name: seq<unit>) {
    |buf| == BUFFER && |name| < BUFFER && name + [0] <= buf
  }

  /**
   * What put_lfn stores as unit s of the piece that begins at base: the name up to its terminator, and the filler
   * behind that. A unit U+FFFF of the name is taken for the filler and ends the piece as well.
   */
  function Put(name: seq<unit>, base: nat, s: nat): unit {
    if s > 0 && (Put(name, base, s - 1) == 0 || Put(name, base, s - 1) == 0xFFFF) then 0xFFFF else Padded(name, base + s)
  }

  /** The piece gets the last-entry flag: it has been filled up, or the name ends right behind it. */
  predicate Flagged(name: seq<unit>, base: nat) {
    Put(name, base, 12) == 0 || Put(name, base, 12) == 0xFFFF || base + 13 == |name|
  }

  /** The entry that put_lfn writes. */
  ghost predicate IsWritten(d: entry, name: seq<unit>, ord: nat, sum: byte) {
    && 1 <= ord <= Pieces(name)
    && d[0] == (if Flagged(name, (ord - 1) * 13) then ord + LLEF else ord)
    && d[11] == AM_LFN && d[12] == 0 && d[13] == sum && Word(d, 26) == 0
    && forall s :: 0 <= s < 13 ==> Unit(d, s) == Put(name, (ord - 1) * 13, s)
  }

  /** An entry from which a piece of the name can be read. */
  ghost predicate IsPiece(d: entry, name: seq<unit>, ord: nat, sum: byte) {
    && 1 <= ord <= Pieces(name)
    && d[0] == (if ord == Pieces(name) then ord + LLEF else ord)
    && d[11] == AM_LFN && d[12] == 0 && d[13] == sum && Word(d, 26) == 0
    && forall s :: 0 <= s < 13 ==> Unit(d, s) == Padded(name, (ord - 1) * 13 + s)
  }

  // ---------- writing ----------

  /** st_word. */
  method StoreWord(dir: array<byte>, i: nat, w: unit)
    requires dir.Length == 32 && i + 1 < 32
    modifies dir
    ensures dir[..] == WithWord(old(dir[..]), i, w)
  {
    dir[i] := w % 256;
    dir[i + 1] := w / 256;
  }

  lemma OffsetsApart()
    ensures forall s :: 0 <= s < 13 ==> 0 < OFS[s] && OFS[s] + 1 < 32 && OFS[s] != 26
    ensures forall s :: 0 <= s < 13 ==> !(10 <= OFS[s] <= 13) && !(25 <= OFS[s] <= 27)
    ensures forall s, t :: 0 <= s < t < 13 ==> OFS[s] + 2 <= OFS[t]
  {
  }

  /** The entry while put_lfn fills it: all but the order, and the first s units. */
  ghost predicate PartlyWritten(d: entry, name: seq<unit>, base: nat, sum: byte, s: nat)
    requires s <= 13
  {
    && d[11] == AM_LFN && d[12] == 0 && d[13] == sum && Word(d, 26) == 0
    && forall t :: 0 <= t < s ==> Unit(d, t) == Put(name, base, t)
  }

  /** put_lfn. */
  method PutLfn(lfn: seq<unit>, dir: array<byte>, ord: nat, sum: byte, ghost name: seq<unit>)
    requires dir.Length == 32 && IsName(name) && Holds(lfn, name) && 1 <= ord <= Pieces(name)
    modifies dir
    ensures IsWritten(dir[..], name, ord, sum)
  {
    hide Put, Padded, PartlyWritten, IsWritten, IsName, Holds;
    dir[13] := sum;
    dir[11] := AM_LFN;
    dir[12] := 0;
    StoreWord(dir, 26, 0);
    ghost var base := (ord - 1) * 13;
    var i := (ord - 1) * 13;
    var s := 0;
    var wc: unit := 0;
    Header(dir[..], name, base, sum);
    while s < 13
      invariant 0 <= s <= 13 && PartlyWritten(dir[..], name, base, sum, s)
      invariant wc == WcAfter(name, base, s)
      invariant wc != 0xFFFF ==> i == base + s <= |name|
    {
      NextPut(lfn, name, base, s);
      if wc != 0xFFFF {
        wc := lfn[i];
        i := i + 1;
      }
      OneUnit(dir[..], name, base, sum, s, wc);
      StoreWord(dir, OFS[s], wc);
      if wc == 0 { wc := 0xFFFF; }
      s := s + 1;
    }
    AllPut(lfn, dir[..], name, ord, sum);
    dir[0] := if wc == 0xFFFF || lfn[i] == 0 then ord + LLEF else ord;
  }

  function WithWord(d: entry, i: nat, w: unit): entry
    requires i + 1 < 32
  {
    d[i := w % 256][i + 1 := w / 256]
  }

  /** put_lfn's wc before unit s. */
  function WcAfter(name: seq<unit>, base: nat, s: nat): unit {
    if s == 0 then 0 else if Put(name, base, s - 1) == 0 then 0xFFFF else Put(name, base, s - 1)
  }

  lemma Header(d: entry, name: seq<unit>, base: nat, sum: byte)
    requires d[11] == AM_LFN && d[12] == 0 && d[13] == sum && Word(d, 26) == 0
    ensures PartlyWritten(d, name, base, sum, 0)
  {
  }

  lemma NextPut(lfn: seq<unit>, name: seq<unit>, base: nat, s: nat)
    requires IsName(name) && Holds(lfn, name) && s < 13 && base < |name|
    requires WcAfter(name, base, s) != 0xFFFF ==> base + s <= |name|
    ensures |lfn| == BUFFER && |name| < BUFFER
    ensures WcAfter(name, base, s) == 0xFFFF ==> Put(name, base, s) == 0xFFFF
    ensures WcAfter(name, base, s) != 0xFFFF ==> Put(name, base, s) == lfn[base + s]
    ensures WcAfter(name, base, s + 1) != 0xFFFF ==> base + s < |name|
  {
    hide Put;
    UnitPut(name, base, s);
    if base + s <= |name| {
      assert lfn[base + s] == (name + [0])[base + s];
    }
  }

  lemma UnitPut(name: seq<unit>, base: nat, s: nat)
    ensures Put(name, base, s) == if s > 0 && WcAfter(name, base, s) == 0xFFFF then 0xFFFF else Padded(name, base + s)
  {
  }

  lemma OneUnit(d: entry, name: seq<unit>, base: nat, sum: byte, s: nat, w: unit)
    requires s < 13 && PartlyWritten(d, name, base, sum, s) && w == Put(name, base, s)
    ensures PartlyWritten(WithWord(d, OFS[s], w), name, base, sum, s + 1)
  {
    hide Put;
    OffsetsApart();
  }

  lemma AllPut(lfn: seq<unit>, d: entry, name: seq<unit>, ord: nat, sum: byte)
    requires IsName(name) && Holds(lfn, name) && 1 <= ord <= Pieces(name) && PartlyWritten(d, name, (ord - 1) * 13, sum, 13)
    requires WcAfter(name, (ord - 1) * 13, 13) != 0xFFFF ==> ord * 13 <= |name|
    ensures var wc := WcAfter(name, (ord - 1) * 13, 13);
            && ord <= 20 && (wc != 0xFFFF ==> ord * 13 < |lfn|)
            && IsWritten(d[0 := if wc == 0xFFFF || lfn[ord * 13] == 0 then ord + LLEF else ord], name, ord, sum)
  {
    hide Put;
    OffsetsApart();
    if ord * 13 <= |name| {
      assert lfn[ord * 13] == (name + [0])[ord * 13];
    }
  }

  /** sum_sfn: each byte is added to the sum so far, rotated right by one. */
  function SumFrom(sfn: seq<byte>, n: nat): (sum: byte)
    requires n <= |sfn|
  {
    if n == 0 then 0
    else
      var sum: int := SumFrom(sfn, n - 1);
      (sum / 2 + sum * 128 + sfn[n - 1]) % 256
  }

  lemma Rotated(x: bv8)
    ensures x.RotateRight(1) as int == x as int / 2 + x as int % 2 * 128
  {
  }

  /** One step of the checksum: the sum so far, as eight bits, is rotated to the right, and the next byte is added. */
  lemma SumRotates(sfn: seq<byte>, n: nat, sum: bv8)
    requires n < |sfn| && sum as int == SumFrom(sfn, n)
    ensures SumFrom(sfn, 0) == 0 && SumFrom(sfn, n + 1) == (sum.RotateRight(1) as int + sfn[n]) % 256
  {
    Rotated(sum);
    LowBitOnly(SumFrom(sfn, n), sfn[n]);
  }

  lemma LowBitOnly(sum: byte, b: byte)
    ensures (sum / 2 + sum as int * 128 + b) % 256 == (sum / 2 + sum % 2 * 128 + b) % 256
  {
    var h, r := sum / 2, sum % 2;
    var y := h + r * 128 + b;
    assert sum == 2 * h + r;
    assert sum / 2 + sum as int * 128 + b == 256 * h + y;
    Arith.DivUnique(256 * h + y, 256, h + y / 256, y % 256);
  }

  method SumSfn(dir: seq<byte>) returns (sum: byte)
    requires |dir| >= 11
    ensures sum == SumFrom(dir[..11], 11)
  {
    sum := 0;
    var n := 11;
    while n > 0
      invariant 0 <= n <= 11 && sum == SumFrom(dir[..11], 11 - n)
    {
      var x: int := sum;
      sum := (x / 2 + x * 128 + dir[11 - n]) % 256;
      n := n - 1;
    }
  }

  /** What dir_register leaves in the directory: the pieces, the last one first, and the short entry. */
  ghost predicate IsBlock(block: seq<entry>, name: seq<unit>, sfn: seq<byte>)
    requires |sfn| == 11
  {
    && |block| == Pieces(name) + 1
    && (forall i :: 0 <= i < Pieces(name) ==> IsWritten(block[i], name, Pieces(name) - i, SumFrom(sfn, 11)))
    && block[Pieces(name)][..11] == sfn
  }

  /** The short entry as dir_register leaves it; attributes, times, cluster and size are filled in later. */
  function ShortEntry(sfn: seq<byte>): entry
    requires |sfn| == 11
  {
    sfn + seq(21, _ => 0)
  }

  /** dir_register behind the allocation: the entries from the first allocated one on. */
  method RegisterLfn(lfn: seq<unit>, fn: seq<byte>, ghost name: seq<unit>) returns (block: seq<entry>)
    requires IsName(name) && Holds(lfn, name) && |fn| == 11
    ensures IsBlock(block, name, fn) && block[|block| - 1] == ShortEntry(fn)
  {
    hide IsWritten;
    var len := 0;
    while lfn[len] != 0
      invariant 0 <= len <= |name|
      decreases |name| - len
    {
      len := len + 1;
    }
    var nEnt := (len + 12) / 13;
    var sum := SumSfn(fn);
    assert fn[..11] == fn;
    block := [];
    var dir := new byte[32](_ => 0);
    while nEnt > 0
      invariant 0 <= nEnt <= Pieces(name) && |block| == Pieces(name) - nEnt
      invariant forall i :: 0 <= i < |block| ==> IsWritten(block[i], name, Pieces(name) - i, sum)
    {
      PutLfn(lfn, dir, nEnt, sum, name);
      block := block + [dir[..]];
      nEnt := nEnt - 1;
    }
    block := block + [ShortEntry(fn)];
    assert ShortEntry(fn)[..11] == fn;
  }

  // ---------- reading ----------

  /** The first index of a piece; an order of 0 wraps around beyond every buffer. */
  function Start(ord: nat): nat {
    if ord == 0 then 0x1_0000_0000 - 13 else (ord - 1) * 13
  }

  /** pick_lfn from unit s on, with wc the unit before: whether the entry is valid, and the buffer. */
  function PickFrom(buf: seq<unit>, d: entry, i: nat, s: nat, wc: unit): (r: (bool, seq<unit>))
    requires |buf| == BUFFER && s <= 13
    ensures |r.1| == BUFFER
    decreases 13 - s
  {
    if s == 13 then
      if d[0] / LLEF % 2 == 1 && wc != 0 then
        if i >= BUFFER then (false, buf) else (true, buf[i := 0])
      else (true, buf)
    else
      var uc := Unit(d, s);
      if wc != 0 then
        if i >= BUFFER then (false, buf) else PickFrom(buf[i := uc], d, i + 1, s + 1, uc)
      else if uc != 0xFFFF then (false, buf)
      else PickFrom(buf, d, i, s + 1, wc)
  }

  function Pick(buf: seq<unit>, d: entry): (r: (bool, seq<unit>))
    requires |buf| == BUFFER
    ensures |r.1| == BUFFER
  {
    var x: int := d[0];
    if Word(d, 26) != 0 then (false, buf) else PickFrom(buf, d, Start(x - x / LLEF % 2 * LLEF), 0, 1)
  }

  /** pick_lfn. */
  method PickLfn(lfnbuf: array<unit>, dir: entry) returns (ok: bool)
    requires lfnbuf.Length == BUFFER
    modifies lfnbuf
    ensures (ok, lfnbuf[..]) == Pick(old(lfnbuf[..]), dir)
  {
    if Word(dir, 26) != 0 { return false; }
    var x: int := dir[0];
    var i: nat := Start(x - x / LLEF % 2 * LLEF);
    var wc: unit := 1;
    var s := 0;
    while s < 13
      invariant 0 <= s <= 13
      invariant PickFrom(lfnbuf[..], dir, i, s, wc) == Pick(old(lfnbuf[..]), dir)
    {
      var uc := Unit(dir, s);
      if wc != 0 {
        if i >= BUFFER { return false; }
        lfnbuf[i] := uc;
        wc := uc;
        i := i + 1;
      } else if uc != 0xFFFF {
        return false;
      }
      s := s + 1;
    }
    if dir[0] / LLEF % 2 == 1 && wc != 0 {
      if i >= BUFFER { return false; }
      lfnbuf[i] := 0;
    }
    return true;
  }

  /** The end of reading: the short entry found, and where its long name begins, if it has one. */
  datatype Found = Found(at: Option<nat>, block: Option<nat>, buf: seq<unit>)

  /** An entry that dir_read passes over: deleted, a dot entry or a volume label. */
  predicate Passed(d: entry) {
    d[0] == DDEM || d[0] == 0x2E || Attr(d) == 8 || Attr(d) == 8 + 32
  }

  /** dir[DIR_Attr] & AM_MASK. */
  function Attr(d: entry): nat { var x: int := d[11]; x % 64 }

  /** dir_read from entry i on, while ord pieces with this checksum are expected and the name began at blk. */
  function ReadFrom(dir: seq<entry>, i: nat, ord: nat, sum: byte, blk: nat, buf: seq<unit>): Found
    requires i <= |dir| && |buf| == BUFFER
    decreases |dir| - i
  {
    if i == |dir| || dir[i][0] == 0 then Found(None, None, buf)
    else
      var d := dir[i];
      if Passed(d) then ReadFrom(dir, i + 1, 0xFF, sum, blk, buf)
      else if Attr(d) == AM_LFN then
        var x: int := d[0];
        var first := x / LLEF % 2 == 1;
        var b := if first then x - LLEF else x;
        var sum' := if first then d[13] else sum;
        var blk' := if first then i else blk;
        if b == (if first then b else ord) && sum' == d[13] then
          var p := Pick(buf, d);
          ReadFrom(dir, i + 1, if p.0 then (b + 255) % 256 else 0xFF, sum', blk', p.1)
        else ReadFrom(dir, i + 1, 0xFF, sum', blk', buf)
      else Found(Some(i), if ord != 0 || sum != SumFrom(d[..11], 11) then None else Some(blk), buf)
  }

  /** dir_read. */
  method DirRead(dir: seq<entry>, start: nat, lfnbuf: array<unit>) returns (at: Option<nat>, block: Option<nat>)
    requires start <= |dir| && lfnbuf.Length == BUFFER
    modifies lfnbuf
    ensures Found(at, block, lfnbuf[..]) == ReadFrom(dir, start, 0xFF, 0xFF, 0, old(lfnbuf[..]))
  {
    hide Pick, Passed, Attr, SumFrom;
    var i := start;
    var ord: byte := 0xFF;
    var sum: byte := 0xFF;
    var blk := 0;
    while i < |dir|
      invariant 0 <= i <= |dir|
      invariant ReadFrom(dir, i, ord, sum, blk, lfnbuf[..]) == ReadFrom(dir, start, 0xFF, 0xFF, 0, old(lfnbuf[..]))
    {
      var d := dir[i];
      var b: int := d[0];
      if b == 0 { return None, None; }
      if Passed(d) {
        ord := 0xFF;
      } else if Attr(d) == AM_LFN {
        if b / LLEF % 2 == 1 {
          sum := d[13];
          b := b - LLEF;
          ord := b;
          blk := i;
        }
        if b == ord && sum == d[13] {
          var ok := PickLfn(lfnbuf, d);
          ord := if ok then (b + 255) % 256 else 0xFF;
        } else {
          ord := 0xFF;
        }
      } else {
        var s := SumSfn(d);
        return Some(i), if ord != 0 || sum != s then None else Some(blk);
      }
      i := i + 1;
    }
    return None, None;
  }

  // ---------- a written name is read back ----------

  /** The buffer holds the name from index n on. */
  ghost predicate HoldsFrom(buf: seq<unit>, name: seq<unit>, n: nat) {
    |buf| == BUFFER && forall i :: n <= i <= |name| && i < BUFFER ==> buf[i] == Padded(name, i)
  }

  /** The name is in place for the first s units of piece ord, and behind the piece. */
  ghost predicate Picking(buf: seq<unit>, name: seq<unit>, ord: nat, s: nat, i: nat, wc: unit)
    requires 1 <= ord
  {
    var base := (ord - 1) * 13;
    && |buf| == BUFFER
    && (if base + s <= |name| then i == base + s && wc != 0 else wc == 0)
    && (forall j :: base <= j < base + s && j <= |name| && j < BUFFER ==> buf[j] == Padded(name, j))
    && (ord < Pieces(name) ==> HoldsFrom(buf, name, base + 13))
  }

  lemma FirstPieceByte(d: entry, name: seq<unit>, ord: nat, sum: byte)
    requires IsName(name) && IsPiece(d, name, ord, sum)
    ensures ord <= 20 && d[0] != 0 && d[0] / LLEF % 2 == (if ord == Pieces(name) then 1 else 0)
    ensures d[0] as int - d[0] as int / LLEF % 2 * LLEF == ord
    ensures !Passed(d) && Attr(d) == AM_LFN
  {
  }

  lemma PieceUnit(d: entry, name: seq<unit>, ord: nat, sum: byte, s: nat)
    requires IsPiece(d, name, ord, sum) && s < 13
    ensures Unit(d, s) == Padded(name, (ord - 1) * 13 + s)
  {
  }

  /** One more unit of the piece is in place. */
  lemma PickStep(buf: seq<unit>, name: seq<unit>, ord: nat, s: nat, i: nat, wc: unit, u: unit)
    requires IsName(name) && 1 <= ord <= Pieces(name) && s < 13 && Picking(buf, name, ord, s, i, wc)
    requires u == Padded(name, (ord - 1) * 13 + s)
    ensures wc != 0 ==> i < BUFFER && Picking(buf[i := u], name, ord, s + 1, i + 1, u)
    ensures wc == 0 ==> u == 0xFFFF && Picking(buf, name, ord, s + 1, i, wc)
  {
  }

  /** The end of the piece: only a name that fills its last piece has no terminator there. */
  lemma PickDone(buf: seq<unit>, name: seq<unit>, ord: nat, i: nat, wc: unit)
    requires IsName(name) && 1 <= ord <= Pieces(name) && Picking(buf, name, ord, 13, i, wc)
    ensures (ord < Pieces(name) || wc == 0) ==> HoldsFrom(buf, name, (ord - 1) * 13)
    ensures ord == Pieces(name) && wc != 0 ==> i < BUFFER && HoldsFrom(buf[i := 0], name, (ord - 1) * 13)
  {
  }

  lemma {:induction false} PickPieceFrom(buf: seq<unit>, d: entry, name: seq<unit>, ord: nat, sum: byte, i: nat, s: nat, wc: unit)
    requires IsName(name) && IsPiece(d, name, ord, sum) && s <= 13 && Picking(buf, name, ord, s, i, wc)
    ensures PickFrom(buf, d, i, s, wc).0 && HoldsFrom(PickFrom(buf, d, i, s, wc).1, name, (ord - 1) * 13)
    decreases 13 - s
  {
    hide IsPiece, Passed, Attr, Pieces, Unit, Word, Picking, HoldsFrom, Padded, IsName;
    FirstPieceByte(d, name, ord, sum);
    PieceSum(d, name, ord, sum);
    PickingSize(buf, name, ord, s, i, wc);
    if s < 13 {
      var u := Unit(d, s);
      PieceUnit(d, name, ord, sum, s);
      PickStep(buf, name, ord, s, i, wc, u);
      if wc != 0 {
        PickPieceFrom(buf[i := u], d, name, ord, sum, i + 1, s + 1, u);
      } else {
        PickPieceFrom(buf, d, name, ord, sum, i, s + 1, wc);
      }
    } else {
      PickDone(buf, name, ord, i, wc);
    }
  }

  lemma PickingSize(buf: seq<unit>, name: seq<unit>, ord: nat, s: nat, i: nat, wc: unit)
    requires 1 <= ord && Picking(buf, name, ord, s, i, wc)
    ensures |buf| == BUFFER
  {
  }

  lemma PickPiece(buf: seq<unit>, d: entry, name: seq<unit>, ord: nat, sum: byte)
    requires IsName(name) && IsPiece(d, name, ord, sum) && |buf| == BUFFER
    requires ord < Pieces(name) ==> HoldsFrom(buf, name, ord * 13)
    ensures Pick(buf, d).0 && HoldsFrom(Pick(buf, d).1, name, (ord - 1) * 13)
  {
    hide PickFrom;
    FirstPieceByte(d, name, ord, sum);
    assert (ord - 1) * 13 + 13 == ord * 13;
    PickPieceFrom(buf, d, name, ord, sum, (ord - 1) * 13, 0, 1);
  }

  /** The entry of a file or directory: in use, no dot entry, and neither a label nor a piece of a long name. */
  predicate IsFile(d: entry) {
    var x: int := d[11];
    d[0] != 0 && d[0] != 0xE5 && d[0] != 0x2E && x % 64 != 0x0F && x % 64 != 0x08 && x % 64 != 0x28
  }

  lemma FileFacts(d: entry)
    requires IsFile(d)
    ensures d[0] != 0 && !Passed(d) && Attr(d) != AM_LFN
  {
  }

  /** Entries from which the name can be read: its pieces, the last one first, and a short entry with their checksum. */
  ghost predicate IsReadable(block: seq<entry>, name: seq<unit>) {
    && |block| == Pieces(name) + 1
    && IsFile(block[Pieces(name)])
    && forall i :: 0 <= i < Pieces(name) ==> IsPiece(block[i], name, Pieces(name) - i, SumFrom(block[Pieces(name)][..11], 11))
  }

  /** Reading the rest of a block, when its first k pieces have been read. */
  lemma {:induction false} ReadRest(dir: seq<entry>, at: nat, block: seq<entry>, name: seq<unit>, k: nat, ord: nat, sum: byte, blk: nat, buf: seq<unit>)
    requires IsName(name) && IsReadable(block, name)
    requires at + |block| <= |dir| && dir[at..at + |block|] == block
    requires k <= Pieces(name) && |buf| == BUFFER
    requires k > 0 ==> ord == Pieces(name) - k && sum == SumFrom(block[Pieces(name)][..11], 11) && blk == at && HoldsFrom(buf, name, ord * 13)
    ensures var r := ReadFrom(dir, at + k, ord, sum, blk, buf);
            r.at == Some(at + Pieces(name)) && r.block == Some(at) && Holds(r.buf, name)
    decreases Pieces(name) - k
  {
    hide Pick, SumFrom, IsPiece, IsFile, ReadFrom;
    var n := Pieces(name);
    var d, chk := dir[at + k], SumFrom(block[n][..11], 11);
    assert d == block[k];
    if k < n {
      var o := n - k;
      ReadPiece(dir, at + k, name, o, chk, ord, sum, blk, buf);
      ReadRest(dir, at, block, name, k + 1, o - 1, chk, at, Pick(buf, d).1);
    } else {
      ReadShort(dir, at + k, 0, sum, blk, buf);
      WholeName(buf, name);
    }
  }

  /** Reading one piece that is expected. */
  lemma ReadPiece(dir: seq<entry>, i: nat, name: seq<unit>, o: nat, chk: byte, ord: nat, sum: byte, blk: nat, buf: seq<unit>)
    requires IsName(name) && i < |dir| && IsPiece(dir[i], name, o, chk) && |buf| == BUFFER
    requires o < Pieces(name) ==> ord == o && sum == chk && HoldsFrom(buf, name, o * 13)
    ensures ReadFrom(dir, i, ord, sum, blk, buf)
            == ReadFrom(dir, i + 1, o - 1, chk, if o == Pieces(name) then i else blk, Pick(buf, dir[i]).1)
    ensures HoldsFrom(Pick(buf, dir[i]).1, name, (o - 1) * 13)
  {
    hide Pick, IsPiece, Passed, Attr;
    var d := dir[i];
    FirstPieceByte(d, name, o, chk);
    PieceSum(d, name, o, chk);
    PickPiece(buf, d, name, o, chk);
    assert (o + 255) % 256 == o - 1;
  }

  /** The short entry ends the reading; the name counts if nothing is missing and the checksum is right. */
  lemma ReadShort(dir: seq<entry>, i: nat, ord: nat, sum: byte, blk: nat, buf: seq<unit>)
    requires i < |dir| && IsFile(dir[i]) && |buf| == BUFFER
    ensures ReadFrom(dir, i, ord, sum, blk, buf)
            == Found(Some(i), if ord != 0 || sum != SumFrom(dir[i][..11], 11) then None else Some(blk), buf)
  {
    hide SumFrom;
  }

  lemma PieceSum(d: entry, name: seq<unit>, ord: nat, sum: byte)
    requires IsPiece(d, name, ord, sum)
    ensures d[13] == sum && 1 <= ord <= Pieces(name)
    ensures if ord == Pieces(name) then |name| <= ord * 13 else ord * 13 < |name|
  {
  }

  lemma WholeName(buf: seq<unit>, name: seq<unit>)
    requires IsName(name) && HoldsFrom(buf, name, 0)
    ensures Holds(buf, name)
  {
    assert buf[..|name| + 1] == name + [0];
  }

  /** Whatever was read before them, reading the entries leaves exactly the name in the buffer. */
  lemma ReadName(dir: seq<entry>, at: nat, block: seq<entry>, name: seq<unit>, ord: nat, sum: byte, blk: nat, buf: seq<unit>)
    requires IsName(name) && IsReadable(block, name) && |buf| == BUFFER
    requires at + |block| <= |dir| && dir[at..at + |block|] == block
    ensures var r := ReadFrom(dir, at, ord, sum, blk, buf);
            r.at == Some(at + Pieces(name)) && r.block == Some(at) && Holds(r.buf, name)
  {
    hide ReadFrom, IsReadable;
    ReadRest(dir, at, block, name, 0, ord, sum, blk, buf);
  }

  // ---------- names with U+FFFF ----------

  /** The index of the first U+FFFF, or the length of the name. */
  function FirstFiller(name: seq<unit>): (p: nat)
    ensures p <= |name| && (p < |name| ==> name[p] == 0xFFFF)
    ensures forall i :: 0 <= i < p ==> name[i] != 0xFFFF
  {
    if name == [] || name[0] == 0xFFFF then 0
    else
      assert forall i :: 1 <= i < |name| ==> name[i] == name[1..][i - 1];
      1 + FirstFiller(name[1..])
  }

  /** The name that will be read: a U+FFFF ends it, and fills up the piece it stands in. */
  function ReadAs(name: seq<unit>): seq<unit> {
    var p := FirstFiller(name);
    if p == |name| then name else name[..p] + seq(13 - p % 13, _ => 0xFFFF)
  }

  /** Every U+FFFF belongs to a run that ends the name and its last, full piece. */
  ghost predicate FillersAtEnd(name: seq<unit>) {
    forall i :: 0 <= i < |name| && name[i] == 0xFFFF ==>
      |name| % 13 == 0 && |name| - 13 <= i && forall j :: i <= j < |name| ==> name[j] == 0xFFFF
  }

  lemma ReadAsSize(name: seq<unit>)
    requires FirstFiller(name) < |name|
    ensures |ReadAs(name)| == 13 * (FirstFiller(name) / 13 + 1)
  {
  }

  lemma SameThenAtEnd(name: seq<unit>)
    requires ReadAs(name) == name
    ensures FillersAtEnd(name)
  {
    hide FirstFiller;
    var p := FirstFiller(name);
    if p < |name| {
      ReadAsSize(name);
      forall i | 0 <= i < |name| && name[i] == 0xFFFF
        ensures |name| % 13 == 0 && |name| - 13 <= i && forall j :: i <= j < |name| ==> name[j] == 0xFFFF
      {
        assert name == name[..p] + seq(13 - p % 13, _ => 0xFFFF);
      }
    }
  }

  lemma AtEndThenSame(name: seq<unit>)
    requires FillersAtEnd(name)
    ensures ReadAs(name) == name
  {
    var p := FirstFiller(name);
    if p < |name| {
      assert 13 - p % 13 == |name| - p;
    }
  }

  lemma ReadAsSame(name: seq<unit>)
    ensures ReadAs(name) == name <==> FillersAtEnd(name)
  {
    hide ReadAs, FillersAtEnd;
    if ReadAs(name) == name {
      SameThenAtEnd(name);
    }
    if FillersAtEnd(name) {
      AtEndThenSame(name);
    }
  }

  /** What put_lfn writes is, up to the piece of the first U+FFFF, what it would write for the name that is read. */
  lemma {:induction false} PutAsRead(name: seq<unit>, ord: nat, s: nat)
    requires IsName(name) && 1 <= ord <= Pieces(ReadAs(name)) && s < 13
    ensures Put(name, (ord - 1) * 13, s) == Padded(ReadAs(name), (ord - 1) * 13 + s)
  {
    hide FirstFiller;
    var base := (ord - 1) * 13;
    if FirstFiller(name) < |name| {
      ReadAsSize(name);
    }
    if s > 0 {
      PutAsRead(name, ord, s - 1);
    }
  }

  lemma WrittenAsRead(d: entry, name: seq<unit>, ord: nat, sum: byte)
    requires IsName(name) && ord <= Pieces(ReadAs(name)) && IsWritten(d, name, ord, sum)
    ensures IsPiece(d, ReadAs(name), ord, sum)
  {
    hide Put, ReadAs, Unit, Word;
    forall s | 0 <= s < 13 ensures Unit(d, s) == Padded(ReadAs(name), (ord - 1) * 13 + s) {
      PutAsRead(name, ord, s);
    }
    FlagAsRead(name, ord);
  }

  lemma FlagAsRead(name: seq<unit>, ord: nat)
    requires IsName(name) && 1 <= ord <= Pieces(ReadAs(name))
    ensures Flagged(name, (ord - 1) * 13) <==> ord == Pieces(ReadAs(name))
    ensures Pieces(ReadAs(name)) <= Pieces(name)
  {
    hide Put, ReadAs, FirstFiller;
    PutAsRead(name, ord, 12);
    if FirstFiller(name) < |name| {
      ReadAsSize(name);
      LastReadUnit(name, ord);
    } else {
      NoFiller(name);
    }
  }

  lemma NoFiller(name: seq<unit>)
    requires FirstFiller(name) == |name|
    ensures ReadAs(name) == name
  {
  }

  /** The last unit of a piece of the name that is read is U+FFFF in the last piece only. */
  lemma LastReadUnit(name: seq<unit>, ord: nat)
    requires IsName(name) && FirstFiller(name) < |name| && 1 <= ord <= Pieces(ReadAs(name))
    ensures Padded(ReadAs(name), ord * 13 - 1) == 0xFFFF <==> ord == Pieces(ReadAs(name))
    ensures Padded(ReadAs(name), ord * 13 - 1) != 0
  {
    hide FirstFiller;
    var p, q, k := FirstFiller(name), FirstFiller(name) / 13, ord * 13 - 1;
    ReadAsSize(name);
    assert |ReadAs(name)| == 13 * (q + 1) && Pieces(ReadAs(name)) == q + 1;
    if ord == q + 1 {
      assert p <= k;
    } else {
      assert k < 13 * q <= p;
    }
  }

  /** Reading passes over pieces, whatever it makes of them. */
  lemma {:induction false} PassPieces(dir: seq<entry>, i: nat, j: nat, ord: nat, sum: byte, blk: nat, buf: seq<unit>)
      returns (ord': nat, sum': byte, blk': nat, buf': seq<unit>)
    requires i <= j <= |dir| && |buf| == BUFFER
    requires forall k :: i <= k < j ==> dir[k][0] != 0 && !Passed(dir[k]) && Attr(dir[k]) == AM_LFN
    ensures |buf'| == BUFFER && ReadFrom(dir, i, ord, sum, blk, buf) == ReadFrom(dir, j, ord', sum', blk', buf')
    decreases j - i
  {
    hide Passed, Attr, Pick;
    if i == j {
      ord', sum', blk', buf' := ord, sum, blk, buf;
    } else {
      ord', sum', blk', buf' := OnePiece(dir, i, ord, sum, blk, buf);
      ord', sum', blk', buf' := PassPieces(dir, i + 1, j, ord', sum', blk', buf');
    }
  }

  lemma OnePiece(dir: seq<entry>, i: nat, ord: nat, sum: byte, blk: nat, buf: seq<unit>)
      returns (ord': nat, sum': byte, blk': nat, buf': seq<unit>)
    requires i < |dir| && |buf| == BUFFER
    requires dir[i][0] != 0 && !Passed(dir[i]) && Attr(dir[i]) == AM_LFN
    ensures |buf'| == BUFFER && ReadFrom(dir, i, ord, sum, blk, buf) == ReadFrom(dir, i + 1, ord', sum', blk', buf')
  {
    hide Passed, Attr, Pick;
    var d := dir[i];
    var x: int := d[0];
    var first := x / LLEF % 2 == 1;
    var b := if first then x - LLEF else x;
    sum', blk', buf' := if first then d[13] else sum, if first then i else blk, buf;
    if b == (if first then b else ord) && sum' == d[13] {
      var p := Pick(buf, d);
      ord', buf' := if p.0 then (b + 255) % 256 else 0xFF, p.1;
    } else {
      ord' := 0xFF;
    }
  }

  lemma WrittenIsPiece(d: entry, name: seq<unit>, ord: nat, sum: byte)
    requires IsName(name) && IsWritten(d, name, ord, sum)
    ensures ord <= 20 && d[0] != 0 && !Passed(d) && Attr(d) == AM_LFN
    ensures d[0] == ord || d[0] == ord + LLEF
  {
  }

  /** As long as the name to be read fits the buffer, the entries of a name read as ReadAs says. */
  lemma ReadsAs(dir: seq<entry>, at: nat, block: seq<entry>, name: seq<unit>, sfn: seq<byte>, ord: nat, sum: byte, blk: nat, buf: seq<unit>)
    requires IsName(name) && |sfn| == 11 && IsBlock(block, name, sfn) && IsFile(block[Pieces(name)]) && |buf| == BUFFER
    requires at + |block| <= |dir| && dir[at..at + |block|] == block && |ReadAs(name)| < BUFFER
    ensures var r := ReadFrom(dir, at, ord, sum, blk, buf);
            && r.at == Some(at + Pieces(name)) && Holds(r.buf, ReadAs(name))
            && r.block == Some(at + Pieces(name) - Pieces(ReadAs(name)))
  {
    hide ReadFrom, IsWritten, IsFile, IsPiece, ReadAs, Passed, Attr;
    var n, eff := Pieces(name), ReadAs(name);
    EffectiveName(name);
    var skip := n - Pieces(eff);
    forall k | at <= k < at + skip ensures dir[k][0] != 0 && !Passed(dir[k]) && Attr(dir[k]) == AM_LFN {
      assert dir[k] == block[k - at];
      WrittenIsPiece(block[k - at], name, n - (k - at), SumFrom(sfn, 11));
    }
    var ord', sum', blk', buf' := PassPieces(dir, at, at + skip, ord, sum, blk, buf);
    var rest := block[skip..];
    forall i | 0 <= i < Pieces(eff) ensures IsPiece(rest[i], eff, Pieces(eff) - i, SumFrom(rest[Pieces(eff)][..11], 11)) {
      assert rest[i] == block[skip + i];
      WrittenAsRead(rest[i], name, Pieces(eff) - i, SumFrom(sfn, 11));
    }
    assert dir[at + skip..at + skip + |rest|] == rest;
    ReadName(dir, at + skip, rest, eff, ord', sum', blk', buf');
  }

  lemma EffectiveName(name: seq<unit>)
    requires IsName(name)
    ensures 0 < Pieces(ReadAs(name)) <= Pieces(name)
    ensures |ReadAs(name)| < BUFFER ==> IsName(ReadAs(name))
    ensures |ReadAs(name)| >= BUFFER ==> |ReadAs(name)| == 260 && Pieces(name) == 20 && 247 <= FirstFiller(name) < |name|
  {
    hide FirstFiller;
    if FirstFiller(name) < |name| {
      ReadAsSize(name);
    }
  }

  /** A piece that fills up the twentieth entry runs out of the buffer. */
  lemma {:induction false} PickOverflows(buf: seq<unit>, d: entry, i: nat, s: nat, wc: unit)
    requires |buf| == BUFFER && s <= 13 && i == 247 + s && wc != 0 && i <= BUFFER
    requires forall t :: 0 <= t < 13 ==> Unit(d, t) != 0
    ensures !PickFrom(buf, d, i, s, wc).0
    decreases 13 - s
  {
    hide Unit;
    if i < BUFFER {
      PickOverflows(buf[i := Unit(d, s)], d, i + 1, s + 1, Unit(d, s));
    }
  }

  /** Once a piece is missing, no unflagged piece is taken. */
  lemma {:induction false} PassUnmatched(dir: seq<entry>, i: nat, j: nat, sum: byte, blk: nat, buf: seq<unit>)
    requires i <= j < |dir| && |buf| == BUFFER && IsFile(dir[j])
    requires forall k :: i <= k < j ==> 0 < dir[k][0] < LLEF && !Passed(dir[k]) && Attr(dir[k]) == AM_LFN
    ensures var r := ReadFrom(dir, i, 0xFF, sum, blk, buf); r.at == Some(j) && r.block == None
    decreases j - i
  {
    hide Passed, Attr, Pick, SumFrom, IsFile;
    FileFacts(dir[j]);
    if i < j {
      PassUnmatched(dir, i + 1, j, sum, blk, buf);
    }
  }

  /** With a U+FFFF in the twentieth piece the long name is not accepted at all. */
  lemma NotRead(dir: seq<entry>, at: nat, block: seq<entry>, name: seq<unit>, sfn: seq<byte>, ord: nat, sum: byte, blk: nat, buf: seq<unit>)
    requires IsName(name) && |sfn| == 11 && IsBlock(block, name, sfn) && IsFile(block[Pieces(name)]) && |buf| == BUFFER
    requires at + |block| <= |dir| && dir[at..at + |block|] == block && |ReadAs(name)| >= BUFFER
    ensures var r := ReadFrom(dir, at, ord, sum, blk, buf); r.at == Some(at + Pieces(name)) && r.block == None
  {
    hide IsWritten, IsFile, IsPiece, ReadAs, SumFrom, Pick, Unit;
    EffectiveName(name);
    var chk := SumFrom(sfn, 11);
    var d := dir[at];
    assert d == block[0];
    TopPiece(d, name, chk, buf);
    forall k | at + 1 <= k < at + 20 ensures 0 < dir[k][0] < LLEF && !Passed(dir[k]) && Attr(dir[k]) == AM_LFN {
      assert dir[k] == block[k - at];
      LowPiece(block[k - at], name, 20 - (k - at), chk);
    }
    assert dir[at + 20] == block[20];
    PassUnmatched(dir, at + 1, at + 20, d[13], at, Pick(buf, d).1);
  }

  lemma TopUnit(d: entry, name: seq<unit>, chk: byte, t: nat)
    requires IsName(name) && IsWritten(d, name, 20, chk) && Pieces(name) == 20 && 247 <= FirstFiller(name) < |name| && t < 13
    ensures Unit(d, t) != 0
  {
    hide Unit, Word, Put, FirstFiller;
    ReadAsSize(name);
    PutAsRead(name, 20, t);
  }

  lemma TopPiece(d: entry, name: seq<unit>, chk: byte, buf: seq<unit>)
    requires IsName(name) && IsWritten(d, name, 20, chk) && Pieces(name) == 20 && 247 <= FirstFiller(name) < |name| && |buf| == BUFFER
    ensures d[0] == 20 + LLEF && d[13] == chk && !Pick(buf, d).0 && !Passed(d) && Attr(d) == AM_LFN
  {
    hide Unit, Word, Put, FirstFiller, ReadAs, PickFrom, Padded;
    ReadAsSize(name);
    forall t | 0 <= t < 13 ensures Unit(d, t) != 0 {
      TopUnit(d, name, chk, t);
    }
    FlagAsRead(name, 20);
    assert d[0] == 84;
    PickOverflows(buf, d, 247, 0, 1);
  }

  lemma LowPiece(d: entry, name: seq<unit>, ord: nat, chk: byte)
    requires IsName(name) && IsWritten(d, name, ord, chk) && ord < 20 && Pieces(name) == 20 && 247 <= FirstFiller(name) < |name|
    ensures 0 < d[0] < LLEF && !Passed(d) && Attr(d) == AM_LFN
  {
    hide Unit, Word, Put, FirstFiller, ReadAs, Flagged;
    ReadAsSize(name);
    FlagAsRead(name, ord);
    assert d[0] == ord;
  }

  lemma Terminated(buf: seq<unit>, name: seq<unit>)
    requires Holds(buf, name)
    ensures buf[|name|] == 0 && forall k :: 0 <= k < |name| ==> buf[k] == name[k]
  {
    assert buf[|name|] == (name + [0])[|name|];
    assert forall k :: 0 <= k < |name| ==> buf[k] == (name + [0])[k];
  }

  lemma HoldsOne(buf: seq<unit>, a: seq<unit>, b: seq<unit>)
    requires IsName(a) && IsName(b) && Holds(buf, a) && Holds(buf, b)
    ensures a == b
  {
    Terminated(buf, a);
    Terminated(buf, b);
    assert forall k :: 0 <= k < |b| ==> buf[k] == 0 || k != |a|;
    assert forall k :: 0 <= k < |a| ==> buf[k] == 0 || k != |b|;
  }

  /**
   * For every name of 1 to 255 units, wherever its entries stand in a directory and whatever was read before them:
   * reading them finds the short entry, and sees that it has exactly that long name, if and only if every U+FFFF in
   * it belongs to a run that ends the name and its last, full piece.
   */
  lemma NameRoundTrip(dir: seq<entry>, at: nat, block: seq<entry>, name: seq<unit>, sfn: seq<byte>, ord: nat, sum: byte, blk: nat, buf: seq<unit>)
    requires IsName(name) && |sfn| == 11 && IsBlock(block, name, sfn) && IsFile(block[Pieces(name)]) && |buf| == BUFFER
    requires at + |block| <= |dir| && dir[at..at + |block|] == block
    ensures var r := ReadFrom(dir, at, ord, sum, blk, buf);
            && r.at == Some(at + Pieces(name))
            && (r.block == Some(at) && Holds(r.buf, name) <==> FillersAtEnd(name))
  {
    hide ReadFrom, IsBlock, IsFile, ReadAs, FillersAtEnd, Holds;
    ReadAsSame(name);
    EffectiveName(name);
    if |ReadAs(name)| < BUFFER {
      ReadsAs(dir, at, block, name, sfn, ord, sum, blk, buf);
      var r := ReadFrom(dir, at, ord, sum, blk, buf);
      if Holds(r.buf, name) {
        HoldsOne(r.buf, name, ReadAs(name));
      }
    } else {
      NotRead(dir, at, block, name, sfn, ord, sum, blk, buf);
    }
  }

  /** The name of the one unit U+FFFF is read back as thirteen of them. */
  lemma FillerIsNoName(dir: seq<entry>, at: nat, block: seq<entry>, sfn: seq<byte>, buf: seq<unit>)
    requires |sfn| == 11 && IsBlock(block, [0xFFFF], sfn) && IsFile(block[1]) && |buf| == BUFFER
    requires at + |block| <= |dir| && dir[at..at + |block|] == block
    ensures var r := ReadFrom(dir, at, 0xFF, 0xFF, 0, buf); r.block == Some(at) && Holds(r.buf, seq(13, _ => 0xFFFF))
  {
    hide ReadFrom, IsBlock, IsFile, Holds;
    var name: seq<unit> := [0xFFFF];
    assert FirstFiller(name) == 0;
    assert ReadAs(name) == seq(13, _ => 0xFFFF);
    ReadsAs(dir, at, block, name, sfn, 0xFF, 0xFF, 0, buf);
  }

  // ---------- comparing ----------

  /** Where cmp_lfn stands in the buffer at unit s: at s units behind the start of a piece, unless the name has ended. */
  predicate Aligned(i: nat, s: nat, wc: unit) {
    if s == 0 then i % 13 == 0 || i >= BUFFER else wc == 0 || (s <= i <= BUFFER && (i - s) % 13 == 0)
  }

  lemma AlignedStart(x: byte)
    ensures Aligned(Start(x as int % 64), 0, 1)
  {
  }

  lemma AlignedNext(i: nat, s: nat, wc: unit, uc: unit)
    requires Aligned(i, s, wc) && wc != 0 && i < BUFFER
    ensures Aligned(i + 1, s + 1, uc)
  {
  }

  lemma AlignedOn(i: nat, s: nat)
    ensures Aligned(i, s + 1, 0)
  {
  }

  lemma AlignedEnd(i: nat, wc: unit)
    requires Aligned(i, 13, wc) && wc != 0
    ensures i <= 247
  {
  }

  /** cmp_lfn from unit s on; up is ff_wtoupper. No piece ends behind the buffer, so the last look at it is inside. */
  predicate CompareFrom(up: unit -> unit, buf: seq<unit>, d: entry, i: nat, s: nat, wc: unit)
    requires |buf| == BUFFER && s <= 13 && Aligned(i, s, wc)
    decreases 13 - s
  {
    if s == 13 then !(d[0] / LLEF % 2 == 1 && wc != 0 && buf[i] != 0)
    else
      var uc := Unit(d, s);
      if wc != 0 then i < BUFFER && up(uc) == up(buf[i]) && CompareFrom(up, buf, d, i + 1, s + 1, uc)
      else uc == 0xFFFF && CompareFrom(up, buf, d, i, s + 1, wc)
  }

  predicate Compare(up: unit -> unit, buf: seq<unit>, d: entry)
    requires |buf| == BUFFER
  {
    var x: int := d[0];
    Word(d, 26) == 0 && CompareFrom(up, buf, d, Start(x % 64), 0, 1)
  }

  /** cmp_lfn. */
  method CmpLfn(up: unit -> unit, lfnbuf: array<unit>, dir: entry) returns (same: bool)
    requires lfnbuf.Length == BUFFER
    ensures same == Compare(up, lfnbuf[..], dir)
  {
    hide Aligned, Unit, Word, Start;
    ghost var buf := lfnbuf[..];
    if Word(dir, 26) != 0 { return false; }
    AlignedStart(dir[0]);
    var x: int := dir[0];
    var i: nat := Start(x % 64);
    var wc: unit := 1;
    var s := 0;
    while s < 13
      invariant 0 <= s <= 13 && Aligned(i, s, wc)
      invariant CompareFrom(up, buf, dir, i, s, wc) == Compare(up, buf, dir)
    {
      var uc := Unit(dir, s);
      if wc != 0 {
        if i >= BUFFER || up(uc) != up(lfnbuf[i]) { return false; }
        AlignedNext(i, s, wc, uc);
        i := i + 1;
        wc := uc;
      } else if uc != 0xFFFF {
        return false;
      } else {
        AlignedOn(i, s);
      }
      s := s + 1;
    }
    if wc != 0 { AlignedEnd(i, wc); }
    return !(dir[0] / LLEF % 2 == 1 && wc != 0 && lfnbuf[i] != 0);
  }

  /** The names agree up to case. */
  ghost predicate SameUpToCase(up: unit -> unit, a: seq<unit>, b: seq<unit>) {
    |a| == |b| && forall i :: 0 <= i < |a| ==> up(a[i]) == up(b[i])
  }

  /** The piece agrees with the buffer: its part of the name, and the terminator if it is the last piece. */
  ghost predicate PieceAgrees(up: unit -> unit, buf: seq<unit>, name: seq<unit>, ord: nat, from: nat)
    requires 1 <= ord
  {
    && |buf| == BUFFER
    && (forall j :: from <= j < ord * 13 && j < |name| && j < BUFFER ==> up(name[j]) == up(buf[j]))
    && (ord == Pieces(name) && |name| < BUFFER ==> buf[|name|] == 0)
  }

  /** The whole piece agrees. */
  ghost predicate WholePiece(up: unit -> unit, buf: seq<unit>, name: seq<unit>, ord: nat)
    requires 1 <= ord
  {
    PieceAgrees(up, buf, name, ord, (ord - 1) * 13)
  }

  lemma AgreesStep(up: unit -> unit, buf: seq<unit>, name: seq<unit>, ord: nat, from: nat)
    requires 1 <= ord && |buf| == BUFFER && |name| < BUFFER && from < ord * 13
    ensures PieceAgrees(up, buf, name, ord, from)
            <==> (from < |name| ==> up(name[from]) == up(buf[from])) && PieceAgrees(up, buf, name, ord, from + 1)
    ensures PieceAgrees(up, buf, name, ord, from) && ord == Pieces(name) ==> buf[|name|] == 0
  {
  }

  lemma AgreesEnd(up: unit -> unit, buf: seq<unit>, name: seq<unit>, ord: nat)
    requires 1 <= ord && |buf| == BUFFER && |name| < BUFFER
    ensures PieceAgrees(up, buf, name, ord, ord * 13) <==> (ord == Pieces(name) ==> buf[|name|] == 0)
  {
  }

  lemma {:induction false} CompareAgrees(up: unit -> unit, buf: seq<unit>, d: entry, name: seq<unit>, ord: nat, sum: byte, i: nat, s: nat, wc: unit)
    requires IsName(name) && IsPiece(d, name, ord, sum) && s <= 13 && |buf| == BUFFER
    requires forall x :: up(x) == 0 <==> x == 0
    requires var base := (ord - 1) * 13; if base + s <= |name| then i == base + s && wc != 0 else wc == 0 && (ord == Pieces(name) ==> buf[|name|] == 0)
    requires Aligned(i, s, wc)
    ensures CompareFrom(up, buf, d, i, s, wc) <==> PieceAgrees(up, buf, name, ord, (ord - 1) * 13 + s)
    decreases 13 - s
  {
    hide IsPiece, Passed, Attr, Pieces, Unit, Word, Aligned, PieceAgrees;
    FirstPieceByte(d, name, ord, sum);
    PieceSum(d, name, ord, sum);
    var base := (ord - 1) * 13;
    if s < 13 {
      var uc := Unit(d, s);
      PieceUnit(d, name, ord, sum, s);
      AgreesStep(up, buf, name, ord, base + s);
      if wc != 0 {
        AlignedNext(i, s, wc, uc);
        if up(uc) == up(buf[i]) {
          CompareAgrees(up, buf, d, name, ord, sum, i + 1, s + 1, uc);
        }
      } else {
        AlignedOn(i, s);
        CompareAgrees(up, buf, d, name, ord, sum, i, s + 1, wc);
      }
    } else {
      AgreesEnd(up, buf, name, ord);
    }
  }

  /**
   * A name in the buffer matches every piece of a stored name exactly when it agrees up to case with the name that is
   * read from them, and that has as many pieces; for a name that is read back this means the stored name itself.
   */
  lemma AllPiecesMatch(up: unit -> unit, buf: seq<unit>, name: seq<unit>, other: seq<unit>, block: seq<entry>, sfn: seq<byte>)
    requires IsName(name) && IsName(other) && Holds(buf, other) && |sfn| == 11 && IsBlock(block, name, sfn)
    requires forall x :: up(x) == 0 <==> x == 0
    ensures (forall k :: 0 <= k < Pieces(name) ==> Compare(up, buf, block[k]))
            <==> Pieces(ReadAs(name)) == Pieces(name) && SameUpToCase(up, ReadAs(name), other)
    ensures FillersAtEnd(name) ==> ReadAs(name) == name
  {
    hide Compare, IsWritten, ReadAs, FillersAtEnd, Put, Flagged, IsName;
    ReadAsSame(name);
    EffectiveName(name);
    var eff, n, chk := ReadAs(name), Pieces(name), SumFrom(sfn, 11);
    assert |buf| == BUFFER;
    if |eff| >= BUFFER {
      TopDiffers(up, buf, block[0], name, chk);
      assert |other| < BUFFER;
    } else if Pieces(eff) < n {
      var o := Pieces(eff);
      NextDiffers(up, buf, block[n - o], block[n - o - 1], name, o, chk);
    } else {
      forall k | 0 <= k < n ensures IsPiece(block[k], eff, n - k, chk) {
        WrittenAsRead(block[k], name, n - k, chk);
      }
      PiecesMatch(up, buf, eff, other, block, chk);
    }
  }

  /** The same for entries that hold the pieces of a name. */
  lemma PiecesMatch(up: unit -> unit, buf: seq<unit>, name: seq<unit>, other: seq<unit>, block: seq<entry>, chk: byte)
    requires IsName(name) && IsName(other) && Holds(buf, other) && |block| >= Pieces(name)
    requires forall k :: 0 <= k < Pieces(name) ==> IsPiece(block[k], name, Pieces(name) - k, chk)
    requires forall x :: up(x) == 0 <==> x == 0
    ensures (forall k :: 0 <= k < Pieces(name) ==> Compare(up, buf, block[k])) <==> SameUpToCase(up, name, other)
  {
    hide Compare, IsPiece, WholePiece;
    var n := Pieces(name);
    forall k | 0 <= k < n
      ensures Compare(up, buf, block[k]) <==> WholePiece(up, buf, name, n - k)
    {
      ComparePiece(up, buf, block[k], name, n - k, chk);
    }
    if forall k :: 0 <= k < n ==> Compare(up, buf, block[k]) {
      forall ord | 1 <= ord <= n ensures WholePiece(up, buf, name, ord) {
        assert Compare(up, buf, block[n - ord]);
      }
      AgreeEverywhere(up, buf, name, other);
    } else if SameUpToCase(up, name, other) {
      forall k | 0 <= k < n ensures Compare(up, buf, block[k]) {
        SameAgrees(up, buf, name, other, n - k);
      }
    }
  }

  /** A piece without a terminator that begins at index 247 does not fit the buffer. */
  lemma {:induction false} CompareOverflows(up: unit -> unit, buf: seq<unit>, d: entry, i: nat, s: nat, wc: unit)
    requires |buf| == BUFFER && s <= 13 && i == 247 + s && wc != 0 && i <= BUFFER
    requires forall t :: 0 <= t < 13 ==> Unit(d, t) != 0
    ensures !CompareFrom(up, buf, d, i, s, wc)
    decreases 13 - s
  {
    hide Unit;
    if i < BUFFER {
      CompareOverflows(up, buf, d, i + 1, s + 1, Unit(d, s));
    }
  }

  lemma TopDiffers(up: unit -> unit, buf: seq<unit>, d: entry, name: seq<unit>, chk: byte)
    requires IsName(name) && IsWritten(d, name, 20, chk) && Pieces(name) == 20 && 247 <= FirstFiller(name) < |name| && |buf| == BUFFER
    ensures !Compare(up, buf, d)
  {
    hide Unit, Word, Put, FirstFiller, ReadAs, CompareFrom, Padded, Flagged;
    forall t | 0 <= t < 13 ensures Unit(d, t) != 0 {
      TopUnit(d, name, chk, t);
    }
    WrittenIsPiece(d, name, 20, chk);
    CompareOverflows(up, buf, d, 247, 0, 1);
  }

  /** Behind a piece that U+FFFF has ended there must be a terminator, so the next piece does not match. */
  lemma NextDiffers(up: unit -> unit, buf: seq<unit>, d: entry, e: entry, name: seq<unit>, o: nat, chk: byte)
    requires IsName(name) && 0 < o == Pieces(ReadAs(name)) < Pieces(name) && |buf| == BUFFER
    requires IsWritten(d, name, o, chk) && IsWritten(e, name, o + 1, chk)
    requires forall x :: up(x) == 0 <==> x == 0
    ensures !Compare(up, buf, d) || !Compare(up, buf, e)
  {
    hide Word, Put, FirstFiller, ReadAs, Padded, Flagged, IsPiece, IsWritten, WholePiece, Compare, IsName;
    EffectiveName(name);
    EndedSize(name);
    var eff := ReadAs(name);
    WrittenAsRead(d, name, o, chk);
    ComparePiece(up, buf, d, eff, o, chk);
    if Compare(up, buf, d) {
      EndedPiece(up, buf, eff, o);
      FirstUnit(e, name, o + 1, chk);
      BeginsWith(up, buf, e, o + 1);
    }
  }

  lemma EndedSize(name: seq<unit>)
    requires IsName(name) && Pieces(ReadAs(name)) < Pieces(name)
    ensures |ReadAs(name)| == 13 * Pieces(ReadAs(name)) < BUFFER && IsName(ReadAs(name))
  {
    hide FirstFiller, IsName;
    EffectiveName(name);
    NotTwenty(name);
    if FirstFiller(name) < |name| {
      ReadAsSize(name);
    } else {
      NoFiller(name);
    }
  }

  lemma NotTwenty(name: seq<unit>)
    requires IsName(name)
    ensures Pieces(name) <= 20
  {
  }

  lemma EndedPiece(up: unit -> unit, buf: seq<unit>, name: seq<unit>, ord: nat)
    requires 1 <= ord && WholePiece(up, buf, name, ord) && |name| == 13 * ord < BUFFER
    ensures buf[13 * ord] == 0
  {
    assert ord == Pieces(name);
  }

  lemma FirstUnit(d: entry, name: seq<unit>, ord: nat, sum: byte)
    requires IsName(name) && IsWritten(d, name, ord, sum)
    ensures Unit(d, 0) != 0
    ensures d[0] as int % 64 == ord
  {
    hide Unit, Word;
    assert Unit(d, 0) == Put(name, (ord - 1) * 13, 0);
  }

  lemma BeginsWith(up: unit -> unit, buf: seq<unit>, d: entry, ord: nat)
    requires |buf| == BUFFER && 1 <= ord && d[0] as int % 64 == ord && 13 * (ord - 1) < BUFFER && buf[13 * (ord - 1)] == 0
    requires Unit(d, 0) != 0 && forall x :: up(x) == 0 <==> x == 0
    ensures !Compare(up, buf, d)
  {
    hide Unit, Word;
  }

  lemma ComparePiece(up: unit -> unit, buf: seq<unit>, d: entry, name: seq<unit>, ord: nat, sum: byte)
    requires IsName(name) && IsPiece(d, name, ord, sum) && |buf| == BUFFER
    requires forall x :: up(x) == 0 <==> x == 0
    ensures Compare(up, buf, d) <==> WholePiece(up, buf, name, ord)
  {
    hide CompareFrom, PieceAgrees;
    FirstPieceByte(d, name, ord, sum);
    CompareAgrees(up, buf, d, name, ord, sum, (ord - 1) * 13, 0, 1);
  }

  lemma SameAgrees(up: unit -> unit, buf: seq<unit>, name: seq<unit>, other: seq<unit>, ord: nat)
    requires IsName(name) && Holds(buf, other) && SameUpToCase(up, name, other) && 1 <= ord <= Pieces(name)
    ensures WholePiece(up, buf, name, ord)
  {
    assert forall j :: 0 <= j < |other| ==> buf[j] == (other + [0])[j];
    assert buf[|other|] == (other + [0])[|other|];
  }

  lemma AgreeEverywhere(up: unit -> unit, buf: seq<unit>, name: seq<unit>, other: seq<unit>)
    requires IsName(name) && IsName(other) && Holds(buf, other)
    requires forall x :: up(x) == 0 <==> x == 0
    requires forall ord :: 1 <= ord <= Pieces(name) ==> WholePiece(up, buf, name, ord)
    ensures SameUpToCase(up, name, other)
  {
    forall j | 0 <= j < |name| ensures up(name[j]) == up(buf[j]) {
      assert WholePiece(up, buf, name, j / 13 + 1);
    }
    assert WholePiece(up, buf, name, Pieces(name));
    assert forall j :: 0 <= j < |other| ==> buf[j] == (other + [0])[j];
    assert buf[|other|] == (other + [0])[|other|];
    forall k | 0 <= k < |name| ensures name[k] == 0 || k != |other| {
      NotZero(up, name[k]);
    }
    assert forall k :: 0 <= k < |other| ==> other[k] == 0 || k != |name|;
  }

  lemma NotZero(up: unit -> unit, x: unit)
    requires x != 0 && forall x :: up(x) == 0 <==> x == 0
    ensures up(x) != up(0)
  {
  }
}
