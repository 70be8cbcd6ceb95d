/** The geometry that f_mkfs chooses for a FAT volume, and the checks of mount_volume on it. */
module FatFormat {
  import opened Arith
  import opened FatBase
  import opened Options

  const TWO32: nat := 0x1_0000_0000

  /** A DWORD. */
  function Wrap(x: int): (r: nat)
    ensures r < TWO32 && (0 <= x < TWO32 ==> r == x)
  {
    x % TWO32
  }

  function Sectors(bytes: nat): nat { Wrap(bytes + SS - 1) / SS }

  /** What f_mkfs works on once its options are checked. */
  datatype Request = Request(szVol: nat, bVol: nat, szBlk: nat, nFat: nat, nRoot: nat, fat32Allowed: bool) {
    predicate Valid() {
      && 128 <= szVol < TWO32 && bVol in {0, 63}
      && szBlk in {1, 2, 4, 8, 16, 32, 64, 128, 256, 512, 1024, 2048, 4096, 8192, 16384, 32768}
      && nFat in {1, 2}
      && 0 < nRoot <= 32768 && nRoot % 16 == 0
    }
  }

  datatype Geometry = Geometry(fsty: FsType, pau: nat, szRsv: nat, szFat: nat, szDir: nat, nClst: nat)

  // ---------- f_mkfs ----------

  /** The cluster size picked from a table of volume sizes. */
  function FromTable(n: nat, table: seq<nat>, i: nat, pau: nat): (r: nat)
    requires i <= |table| <= 6 && pau == [1, 2, 4, 8, 16, 32, 64][i]
    ensures r in {1, 2, 4, 8, 16, 32, 64}
    decreases |table| - i
  {
    if i < |table| && table[i] <= n then FromTable(n, table, i + 1, pau * 2) else pau
  }

  function AutoSize(szVol: nat, fat32: bool): (r: nat)
    ensures r in {1, 2, 4, 8, 16, 32, 64}
  {
    if fat32 then FromTable(szVol / 0x20000, [1, 2, 4, 8, 16, 32], 0, 1)
    else FromTable(szVol / 0x1000, [1, 4, 16, 64, 256, 512], 0, 1)
  }

  /** The sectors before the data area, without and with the alignment to the erase block. */
  datatype Layout = Layout(fsty: FsType, before: nat, szRsv: nat, szFat: nat, szDir: nat)

  /** The sizes for a cluster size, from an estimate of the number of clusters. */
  function Estimate(q: Request, fat32: bool, pau: nat): Layout
    requires pau > 0
  {
    var n := q.szVol / pau;
    if fat32 then Layout(FAT32, 0, 32, Sectors(Wrap(n * 4 + 8)), 0)
    else if n > MAX_FAT12 then Layout(FAT16, 0, 1, Sectors(Wrap(n * 2 + 4)), q.nRoot * 32 / SS)
    else Layout(FAT12, 0, 1, Sectors((n * 3 + 1) / 2 + 3), q.nRoot * 32 / SS)
  }

  /** Sectors from x to the next multiple of the erase block. */
  function Gap(x: nat, szBlk: nat): (r: nat)
    requires szBlk > 0
    ensures r < szBlk && (x + r) % szBlk == 0
  {
    GapAligned(x, szBlk);
    (x + szBlk - 1) / szBlk * szBlk - x
  }

  lemma GapAligned(x: nat, d: nat)
    requires d > 0
    ensures var r := (x + d - 1) / d * d - x; 0 <= r < d && (x + r) % d == 0
  {
    var q := (x + d - 1) / d;
    assert x + d - 1 == d * q + (x + d - 1) % d;
    DivUnique(q * d, d, q, 0);
  }

  /** Moves or expands the FATs so that the data area begins on an erase block. */
  function Aligned(q: Request, l: Layout): Layout
    requires q.Valid()
  {
    var bData := q.bVol + l.szRsv + l.szFat * q.nFat + l.szDir;
    var n := Gap(bData, q.szBlk);
    if l.fsty == FAT32 then l.(before := bData, szRsv := l.szRsv + n)
    else if n % q.nFat != 0 then l.(before := bData, szRsv := l.szRsv + 1, szFat := l.szFat + (n - 1) / q.nFat)
    else l.(before := bData, szFat := l.szFat + n / q.nFat)
  }

  /** One round of the loop, up to the final check of the sub-type; none when the volume is too small or too large. */
  function Try(q: Request, fat32: bool, pau: nat): Option<Geometry>
    requires q.Valid() && ClusterSize(pau)
  {
    var n := q.szVol / pau;
    if fat32 && (n <= MAX_FAT16 || n > MAX_FAT32) then None
    else
      var l := Aligned(q, Estimate(q, fat32, pau));
      if q.szVol < Wrap(l.before + pau * 16 - q.bVol) then None
      else Some(Geometry(l.fsty, pau, l.szRsv, l.szFat, l.szDir, Clusters(q, l, pau)))
  }

  /** The number of clusters behind the FATs and the root directory, in 32 bits. */
  function Clusters(q: Request, l: Layout, pau: nat): nat
    requires pau > 0
  {
    Wrap(q.szVol - l.szRsv - l.szFat * q.nFat - l.szDir) / pau
  }

  /** What the checks at the end of a round decide. */
  datatype Decision = Done(g: Geometry) | Abort | Retry(fat32: bool, szAu: nat)

  function Round(q: Request, fat32: bool, szAu: nat): (r: Decision)
    requires q.Valid() && (szAu == 0 || ClusterSize(szAu))
    ensures r.Retry? ==> (r.szAu == 0 || ClusterSize(r.szAu)) && Rank(r.fat32, r.szAu) < Rank(fat32, szAu)
  {
    var pau := if szAu == 0 then AutoSize(q.szVol, fat32) else szAu;
    var t := Try(q, fat32, pau);
    if t == None then Abort
    else
      var fsty, nClst := t.value.fsty, t.value.nClst;
      if fsty == FAT32 && nClst <= MAX_FAT16 then
        if szAu == 0 && pau / 2 != 0 then Retry(fat32, pau / 2) else Abort
      else if fsty == FAT16 && nClst > MAX_FAT16 then
        if szAu == 0 && pau * 2 <= 64 then Retry(fat32, pau * 2)
        else if q.fat32Allowed && !fat32 then Retry(true, szAu)
        else if szAu == 0 && pau * 2 <= 128 then Retry(fat32, pau * 2)
        else Abort
      else if fsty == FAT16 && nClst <= MAX_FAT12 then
        if szAu == 0 && pau * 2 <= 128 then Retry(fat32, pau * 2) else Abort
      else if fsty == FAT12 && nClst > MAX_FAT12 then Abort
      else Done(t.value)
  }

  /** Every retry fixes the cluster size or moves on to FAT32, so the loop ends. */
  function Rank(fat32: bool, szAu: nat): nat {
    (if fat32 then 0 else 1) + (if szAu == 0 then 1 else 0)
  }

  /** The retry loop: fat32 is whether the type is FAT32 by now, szAu the cluster size asked for, or 0. */
  function Choose(q: Request, fat32: bool, szAu: nat): Option<Geometry>
    requires q.Valid() && (szAu == 0 || ClusterSize(szAu))
    decreases Rank(fat32, szAu)
  {
    match Round(q, fat32, szAu)
    case Done(g) => Some(g)
    case Abort => None
    case Retry(f, a) => Choose(q, f, a)
  }

  method MkfsGeometry(q: Request, fat32: bool, szAu: nat) returns (r: Option<Geometry>)
    requires q.Valid() && (szAu == 0 || ClusterSize(szAu))
    ensures r == Choose(q, fat32, szAu)
  {
    hide Round, ClusterSize;
    var f, a := fat32, szAu;
    while true
      invariant (a == 0 || ClusterSize(a)) && Choose(q, f, a) == Choose(q, fat32, szAu)
      decreases Rank(f, a)
    {
      match Round(q, f, a)
      case Done(g) => return Some(g);
      case Abort => return None;
      case Retry(f', a') => f, a := f', a';
    }
  }

  // ---------- mount_volume ----------

  /** The fields of the boot record that mounting reads. */
  datatype BootRecord = BootRecord(
    secPerClus: nat, rsvdSecCnt: nat, numFats: nat, rootEntCnt: nat, totSec16: nat, fatSz16: nat, totSec32: nat, fatSz32: nat)

  /** What f_mkfs stores, each field in its width. */
  function Stored(q: Request, g: Geometry): BootRecord {
    var fat32 := g.fsty == FAT32;
    BootRecord(g.pau % 0x100, g.szRsv % 0x1_0000, q.nFat % 0x100, if fat32 then 0 else q.nRoot % 0x1_0000,
      if q.szVol < 0x1_0000 then q.szVol else 0, if fat32 then 0 else g.szFat % 0x1_0000,
      if q.szVol < 0x1_0000 then 0 else q.szVol, if fat32 then g.szFat else 0)
  }

  /** The sub-type that a number of clusters stands for. */
  function TypeOf(nClst: nat): FsType {
    if nClst <= MAX_FAT12 then FAT12 else if nClst <= MAX_FAT16 then FAT16 else FAT32
  }

  /** The sectors of one FAT, and of the volume. */
  function FatSectors(b: BootRecord): nat { if b.fatSz16 == 0 then b.fatSz32 else b.fatSz16 }

  function TotalSectors(b: BootRecord): nat { if b.totSec16 == 0 then b.totSec32 else b.totSec16 }

  datatype Mounted = Volume(fsty: FsType, nFatEnt: nat, fSize: nat, cSize: nat, fatBase: nat, dataBase: nat) | NoFilesystem

  /** The checks of mount_volume on a boot record at bsect. */
  function Mount(b: BootRecord, bsect: nat): Mounted {
    var fSize, tSect := FatSectors(b), TotalSectors(b);
    if b.numFats != 1 && b.numFats != 2 then NoFilesystem
    else if !ClusterSize(b.secPerClus) then NoFilesystem
    else if b.rootEntCnt % 16 != 0 then NoFilesystem
    else if b.rsvdSecCnt == 0 then NoFilesystem
    else
      var sysect := Wrap(b.rsvdSecCnt + Wrap(fSize * b.numFats) + b.rootEntCnt / 16);
      if tSect < sysect then NoFilesystem
      else
        var nClst := (tSect - sysect) / b.secPerClus;
        if nClst == 0 || nClst > MAX_FAT32 then NoFilesystem
        else
          var fsty := TypeOf(nClst);
          var n := nClst + 2;
          if (fsty == FAT32) != (b.rootEntCnt == 0) then NoFilesystem
          else
            if fSize < (FatBytes(fsty, n) + (SS - 1)) / SS then NoFilesystem
            else Volume(fsty, n, fSize, b.secPerClus, Wrap(bsect + b.rsvdSecCnt), Wrap(bsect + sysect))
  }

  // ---------- agreement ----------

  /** The sectors in front of the data area. */
  function SysSectors(q: Request, g: Geometry): nat {
    g.szRsv + g.szFat * q.nFat + g.szDir
  }

  /** The geometry fits the volume, and its types and sizes are consistent. */
  ghost predicate Sound(q: Request, g: Geometry) {
    && ClusterSize(g.pau)
    && SysSectors(q, g) <= q.szVol
    && SysSectors(q, g) + 16 * g.pau < q.szVol + q.szBlk
    && g.nClst == (q.szVol - SysSectors(q, g)) / g.pau
    && 0 < g.szRsv < 0x1_0000
    && g.fsty == TypeOf(g.nClst) && g.nClst <= MAX_FAT32
    && g.szDir == (if g.fsty == FAT32 then 0 else q.nRoot / 16)
    && 0 < g.szFat < (if g.fsty == FAT32 then TWO32 / 2 else 0x1_0000)
    && FatBytes(g.fsty, g.nClst + 2) <= 512 * g.szFat
    && q.szBlk > 0 && (q.bVol + SysSectors(q, g)) % q.szBlk == 0
  }

  /** A sound geometry is mounted as it was made, unless it has no cluster at all. */
  lemma SoundMounts(q: Request, g: Geometry)
    requires q.Valid() && Sound(q, g)
    ensures g.nClst > 0 ==>
              Mount(Stored(q, g), q.bVol) == Volume(g.fsty, g.nClst + 2, g.szFat, g.pau, Wrap(q.bVol + g.szRsv), Wrap(q.bVol + SysSectors(q, g)))
    ensures g.nClst == 0 ==> Mount(Stored(q, g), q.bVol) == NoFilesystem
  {
    hide Wrap, FatBytes, ClusterSize, Stored, TypeOf;
    StoredFields(q, g);
    FatsFit(q, g);
    var b := Stored(q, g);
    assert b.rootEntCnt / 16 == g.szDir && b.rootEntCnt % 16 == 0;
  }

  lemma StoredFields(q: Request, g: Geometry)
    requires q.Valid() && Sound(q, g)
    ensures var b := Stored(q, g);
            && b.secPerClus == g.pau && b.rsvdSecCnt == g.szRsv && b.numFats == q.nFat
            && FatSectors(b) == g.szFat && TotalSectors(b) == q.szVol
            && b.rootEntCnt == if g.fsty == FAT32 then 0 else q.nRoot
  {
    hide FatBytes, TypeOf, Wrap, SysSectors;
  }

  lemma FatsFit(q: Request, g: Geometry)
    requires q.Valid() && Sound(q, g)
    ensures Wrap(g.szFat * q.nFat) == g.szFat * q.nFat && Wrap(SysSectors(q, g)) == SysSectors(q, g)
    ensures (FatBytes(g.fsty, g.nClst + 2) + (SS - 1)) / SS <= g.szFat
  {
    hide FatBytes, TypeOf, ClusterSize;
    if q.nFat == 1 {
      assert g.szFat * q.nFat == g.szFat;
    } else {
      assert g.szFat * q.nFat == 2 * g.szFat;
    }
  }

  // ---------- every geometry that is chosen is sound ----------

  lemma DivRange(v: nat, pau: nat)
    requires pau > 0
    ensures pau * (v / pau) <= v < pau * (v / pau) + pau
  {
  }

  /** Taking sectors away takes at most as many clusters away, and never adds one. */
  lemma FewerClusters(v: nat, sys: nat, pau: nat)
    requires pau > 0 && sys <= v
    ensures (v - sys) / pau <= v / pau <= (v - sys) / pau + sys
  {
    var m, n := (v - sys) / pau, v / pau;
    DivRange(v, pau);
    DivRange(v - sys, pau);
    NotBelow(pau, m, n, v - sys, v);
    MulMonotone(sys, 1, pau);
    Distribute(pau, m, sys);
    NotBelow(pau, n, m + sys, v, v - sys + pau * sys);
  }

  /** Quotients are ordered as their dividends. */
  lemma NotBelow(d: nat, m: nat, n: nat, x: int, y: int)
    requires d > 0 && d * m <= x <= y < d * n + d
    ensures m <= n
  {
    if m > n {
      MulMonotone(d, n + 1, m);
      Distribute(d, n, 1);
    }
  }

  /** A difference that has wrapped around is far more than 65525 clusters. */
  lemma WrappedIsHuge(v: nat, sys: nat, pau: nat)
    requires ClusterSize(pau) && v < sys < 0x400_0000
    ensures Wrap(v - sys) / pau > MAX_FAT16
  {
    var w := Wrap(v - sys);
    assert v - sys + TWO32 == w by { WrapNegative(v - sys); }
    var c := w / pau;
    DivRange(w, pau);
    if c <= MAX_FAT16 {
      MulMonotone(pau, c, MAX_FAT16);
    }
  }

  lemma WrapNegative(x: int)
    requires -0x400_0000 < x < 0
    ensures Wrap(x) == x + TWO32
  {
  }

  /** The alignment adds exactly the gap, in whichever way. */
  lemma AlignedSize(q: Request, e: Layout)
    requires q.Valid()
    ensures var l, b := Aligned(q, e), q.bVol + e.szRsv + e.szFat * q.nFat + e.szDir;
            && l.fsty == e.fsty && l.szDir == e.szDir && l.before == b
            && l.szRsv + l.szFat * q.nFat + l.szDir + q.bVol == b + Gap(b, q.szBlk)
            && e.szFat <= l.szFat <= e.szFat + Gap(b, q.szBlk)
            && e.szRsv <= l.szRsv <= e.szRsv + (if e.fsty == FAT32 then Gap(b, q.szBlk) else 1)
            && (e.fsty == FAT32 ==> l.szFat == e.szFat)
  {
    hide Gap;
    var n := Gap(q.bVol + e.szRsv + e.szFat * q.nFat + e.szDir, q.szBlk);
    if q.nFat == 2 {
      Distribute(2, e.szFat, n / 2);
    }
  }

  lemma BlockSize(q: Request)
    requires q.Valid()
    ensures 0 < q.szBlk <= 32768 && 1 <= q.nFat <= 2 && q.bVol <= 63 && q.szVol < TWO32 && 0 < q.nRoot <= 32768
  {
  }

  lemma Sound32(q: Request, pau: nat, l: Layout)
    requires q.Valid() && ClusterSize(pau) && l == Aligned(q, Estimate(q, true, pau))
    requires MAX_FAT16 < q.szVol / pau <= MAX_FAT32
    ensures var sys := l.szRsv + l.szFat * q.nFat + l.szDir;
            && sys <= q.szVol && (q.bVol + sys) % q.szBlk == 0
            && 0 < l.szRsv < 0x1_0000 && 0 < l.szFat < TWO32 / 2 && 4 * (q.szVol / pau + 2) <= 512 * l.szFat
            && l.fsty == FAT32 && l.szDir == 0
  {
    hide Aligned, Gap;
    var e, n := Estimate(q, true, pau), q.szVol / pau;
    BlockSize(q);
    AlignedSize(q, e);
    DivRange(q.szVol, pau);
    MulMonotone(n, 1, pau);
    MulMonotone(e.szFat, q.nFat, 2);
    assert Wrap(n * 4 + 8) == n * 4 + 8;
  }

  lemma SysBound(q: Request, pau: nat, l: Layout)
    requires q.Valid() && ClusterSize(pau) && l == Aligned(q, Estimate(q, false, pau))
    ensures var e := Estimate(q, false, pau);
            && l.szRsv + l.szFat * q.nFat + l.szDir <= 34817 + 2 * e.szFat && e.szFat <= 0x80_0000
            && l.fsty == e.fsty && l.fsty != FAT32 && 1 <= l.szRsv <= 2 && l.szDir == q.nRoot / 16
            && e.szFat <= l.szFat <= e.szFat + 32767
            && (q.bVol + l.szRsv + l.szFat * q.nFat + l.szDir) % q.szBlk == 0
  {
    hide Aligned, Gap;
    var e := Estimate(q, false, pau);
    BlockSize(q);
    AlignedSize(q, e);
    MulMonotone(e.szFat, q.nFat, 2);
  }

  lemma Sound16(q: Request, pau: nat, l: Layout)
    requires q.Valid() && ClusterSize(pau) && l == Aligned(q, Estimate(q, false, pau))
    requires Clusters(q, l, pau) <= MAX_FAT16
    ensures var sys := l.szRsv + l.szFat * q.nFat + l.szDir;
            sys <= q.szVol && 0 < l.szFat < 0x1_0000 && Clusters(q, l, pau) == (q.szVol - sys) / pau
    ensures FatBytes(l.fsty, Clusters(q, l, pau) + 2) <= 512 * l.szFat
  {
    hide Aligned, FatBytes, Estimate, Wrap;
    var sys, n, e := l.szRsv + l.szFat * q.nFat + l.szDir, q.szVol / pau, Estimate(q, false, pau);
    BlockSize(q);
    SysBound(q, pau, l);
    if q.szVol < sys {
      WrappedIsHuge(q.szVol, sys, pau);
    } else {
      var m := (q.szVol - sys) / pau;
      InRange(q.szVol - sys);
      FewerClusters(q.szVol, sys, pau);
      NotLarge(q, pau);
      FatBytesMonotone(e.fsty, m + 2, n + 2);
    }
  }

  lemma InRange(x: int)
    requires 0 <= x < TWO32
    ensures Wrap(x) == x
  {
  }

  lemma FatBytesMonotone(fsty: FsType, m: nat, n: nat)
    requires m <= n
    ensures FatBytes(fsty, m) <= FatBytes(fsty, n)
  {
  }

  /** The estimate did not wrap around, and is enough. */
  lemma NotLarge(q: Request, pau: nat)
    requires pau > 0
    requires var n, e := q.szVol / pau, Estimate(q, false, pau).szFat; n <= MAX_FAT16 + 34817 + 2 * e && e <= 0x80_0000
    ensures var n, e := q.szVol / pau, Estimate(q, false, pau);
            0 < e.szFat < 500 && FatBytes(e.fsty, n + 2) <= 512 * e.szFat
  {
    hide Wrap;
    var n, e := q.szVol / pau, Estimate(q, false, pau).szFat;
    assert n * 2 + 515 < TWO32;
    InRange(n * 2 + 4);
    InRange(n * 2 + 4 + SS - 1);
    InRange((n * 3 + 1) / 2 + 3 + SS - 1);
    if n > MAX_FAT12 {
      assert e == (n * 2 + 515) / 512;
      Estimated16(n, e);
    } else {
      assert e == ((n * 3 + 1) / 2 + 514) / 512;
      Estimated12(n, e);
    }
  }

  lemma Estimated16(n: nat, e: nat)
    requires e == (n * 2 + 515) / 512 && n <= MAX_FAT16 + 34817 + 2 * e
    ensures 0 < e < 500 && (n + 2) * 2 <= 512 * e
  {
  }

  lemma Estimated12(n: nat, e: nat)
    requires e == ((n * 3 + 1) / 2 + 514) / 512 && n <= MAX_FAT12
    ensures 0 < e < 500 && (n + 2) * 3 / 2 + (n + 2) % 2 <= 512 * e
  {
  }

  /** A round that ends the loop leaves a sound geometry. */
  lemma RoundSound(q: Request, fat32: bool, szAu: nat)
    requires q.Valid() && (szAu == 0 || ClusterSize(szAu)) && Round(q, fat32, szAu).Done?
    ensures Sound(q, Round(q, fat32, szAu).g)
  {
    hide Aligned, Estimate, AutoSize, Clusters, Request.Valid;
    var pau := if szAu == 0 then AutoSize(q.szVol, fat32) else szAu;
    var l := Aligned(q, Estimate(q, fat32, pau));
    BlockSize(q);
    RoomForSixteen(q, fat32, pau, l);
    if fat32 {
      Sound32(q, pau, l);
      Clusters32(q, l, pau);
    } else {
      SysBound(q, pau, l);
      Sound16(q, pau, l);
    }
  }

  /** The size check before the alignment. */
  lemma RoomForSixteen(q: Request, fat32: bool, pau: nat, l: Layout)
    requires q.Valid() && ClusterSize(pau) && l == Aligned(q, Estimate(q, fat32, pau)) && Try(q, fat32, pau).Some?
    ensures l.szRsv + l.szFat * q.nFat + l.szDir + 16 * pau < q.szVol + q.szBlk
  {
    hide Aligned, Gap, Estimate, Wrap, Request.Valid, Clusters;
    var e := Estimate(q, fat32, pau);
    BlockSize(q);
    EstimateBound(q, fat32, pau);
    AlignedSize(q, e);
    MulMonotone(e.szFat, q.nFat, 2);
    assert 0 <= l.before + pau * 16 - q.bVol < TWO32;
    InRange(l.before + pau * 16 - q.bVol);
  }

  lemma EstimateBound(q: Request, fat32: bool, pau: nat)
    requires q.Valid() && pau > 0
    ensures var e := Estimate(q, fat32, pau); e.szFat <= 0x80_0000 && e.szRsv <= 32 && e.szDir <= 2048
  {
    hide Wrap;
    BlockSize(q);
  }

  lemma Clusters32(q: Request, l: Layout, pau: nat)
    requires q.Valid() && ClusterSize(pau)
    requires var sys := l.szRsv + l.szFat * q.nFat + l.szDir; sys <= q.szVol
    ensures var sys := l.szRsv + l.szFat * q.nFat + l.szDir;
            Clusters(q, l, pau) == (q.szVol - sys) / pau <= q.szVol / pau
  {
    var sys := l.szRsv + l.szFat * q.nFat + l.szDir;
    BlockSize(q);
    InRange(q.szVol - sys);
    FewerClusters(q.szVol, sys, pau);
  }

  lemma {:induction false} ChosenSound(q: Request, fat32: bool, szAu: nat)
    requires q.Valid() && (szAu == 0 || ClusterSize(szAu)) && Choose(q, fat32, szAu).Some?
    ensures Sound(q, Choose(q, fat32, szAu).value)
    decreases Rank(fat32, szAu)
  {
    hide Sound, Round, ClusterSize;
    match Round(q, fat32, szAu)
    case Done(_) => RoundSound(q, fat32, szAu);
    case Abort =>
    case Retry(f, a) => ChosenSound(q, f, a);
  }

  // ---------- which requests are formatted so that they mount ----------

  /** The sectors in front of the data area of a FAT12 or FAT16 volume with this cluster size. */
  function SystemArea(q: Request, pau: nat): nat
    requires q.Valid() && pau > 0
  {
    var l := Aligned(q, Estimate(q, false, pau));
    l.szRsv + l.szFat * q.nFat + l.szDir
  }

  /** The volume is small enough for FAT12 at this cluster size. */
  predicate IsSmall(q: Request, pau: nat)
    requires pau > 0
  {
    q.szVol / pau <= MAX_FAT12
  }

  /**
   * The aligned system area leaves room for one cluster. Only FAT12 volumes can lack it: at the cluster size asked
   * for, at the automatic one, or at its double when the automatic one is too small for FAT12.
   */
  predicate HasRoom(q: Request, fat32: bool, szAu: nat)
    requires q.Valid()
  {
    var pau := if szAu == 0 then AutoSize(q.szVol, false) else szAu;
    fat32 || (
      if IsSmall(q, pau) then SystemArea(q, pau) + pau <= q.szVol
      else szAu == 0 && IsSmall(q, pau * 2) ==> SystemArea(q, pau * 2) + pau * 2 <= q.szVol)
  }

  /** FAT32 is never left again. */
  lemma {:induction false} StaysFat32(q: Request, szAu: nat)
    requires q.Valid() && (szAu == 0 || ClusterSize(szAu)) && Choose(q, true, szAu).Some?
    ensures Choose(q, true, szAu).value.fsty == FAT32
    decreases Rank(true, szAu)
  {
    hide Clusters, AutoSize, Request.Valid, ClusterSize;
    KeepsType(q, Estimate(q, true, if szAu == 0 then AutoSize(q.szVol, true) else szAu));
    match Round(q, true, szAu)
    case Done(_) =>
    case Abort =>
    case Retry(_, a) => StaysFat32(q, a);
  }

  lemma KeepsType(q: Request, e: Layout)
    requires q.Valid()
    ensures Aligned(q, e).fsty == e.fsty
  {
  }

  /** What the rounds without FAT32 end with, and when they go on. */
  lemma RoundOutcome(q: Request, szAu: nat)
    requires q.Valid() && (szAu == 0 || ClusterSize(szAu))
    ensures var pau := if szAu == 0 then AutoSize(q.szVol, false) else szAu;
            match Round(q, false, szAu)
            case Done(g) => g.pau == pau && g.fsty == (if IsSmall(q, pau) then FAT12 else FAT16) && SysSectors(q, g) == SystemArea(q, pau)
            case Abort => true
            case Retry(f, a) => !IsSmall(q, pau) && (if f then a == szAu && (szAu == 0 ==> pau == 64) else szAu == 0 && a == pau * 2)
  {
    hide Clusters, AutoSize, Request.Valid, ClusterSize, Wrap, Sectors, Aligned;
    var pau := if szAu == 0 then AutoSize(q.szVol, false) else szAu;
    KeepsType(q, Estimate(q, false, pau));
  }

  /** More than 4085 clusters are some. */
  lemma SomeClusters(q: Request, g: Geometry)
    requires q.Valid() && Sound(q, g)
    ensures g.fsty != FAT12 ==> g.nClst > 0
    ensures g.fsty == FAT16 ==> SysSectors(q, g) + 4086 * g.pau <= q.szVol
    ensures g.nClst > 0 <==> SysSectors(q, g) + g.pau <= q.szVol
  {
    hide SysSectors, Request.Valid, FatBytes;
    SomeCluster(q.szVol - SysSectors(q, g), g.pau);
    DivRange(q.szVol - SysSectors(q, g), g.pau);
    if g.fsty == FAT16 {
      MulMonotone(g.pau, 4086, g.nClst);
    }
  }

  /** With a fixed cluster size, only the first round can be one for FAT12. */
  lemma FixedSize(q: Request, szAu: nat)
    requires q.Valid() && ClusterSize(szAu) && Choose(q, false, szAu).Some?
    ensures Choose(q, false, szAu).value.nClst > 0 <==> (IsSmall(q, szAu) ==> SystemArea(q, szAu) + szAu <= q.szVol)
  {
    hide Sound, Round, SysSectors, SystemArea, Request.Valid, IsSmall;
    ChosenSound(q, false, szAu);
    RoundOutcome(q, szAu);
    SomeClusters(q, Choose(q, false, szAu).value);
    if Round(q, false, szAu).Retry? {
      StaysFat32(q, szAu);
    }
  }

  /** With the automatic cluster size, the second round has a cluster size twice as large, or is one for FAT32. */
  lemma AutomaticSize(q: Request)
    requires q.Valid() && Choose(q, false, 0).Some?
    ensures Choose(q, false, 0).value.nClst > 0 <==> HasRoom(q, false, 0)
  {
    hide Sound, Round, SysSectors, SystemArea, Request.Valid, IsSmall, AutoSize;
    var pau, g := AutoSize(q.szVol, false), Choose(q, false, 0).value;
    ChosenSound(q, false, 0);
    RoundOutcome(q, 0);
    SomeClusters(q, g);
    match Round(q, false, 0)
    case Done(_) =>
      if !IsSmall(q, pau) && IsSmall(q, pau * 2) {
        DoubleFits(q, pau);
      }
    case Abort =>
    case Retry(f, _) =>
      if f {
        StaysFat32(q, 0);
        LargeForFat12(q);
      } else {
        FixedSize(q, pau * 2);
      }
  }

  lemma LargeForFat12(q: Request)
    requires AutoSize(q.szVol, false) == 64
    ensures !IsSmall(q, 128)
  {
    FullTable(q.szVol / 0x1000, [1, 4, 16, 64, 256, 512], 0, 1);
  }

  /** The largest size is picked at the end of the table only. */
  lemma {:induction false} FullTable(n: nat, table: seq<nat>, i: nat, pau: nat)
    requires |table| == 6 && i <= 6 && pau == [1, 2, 4, 8, 16, 32, 64][i] && (i > 0 ==> table[i - 1] <= n)
    ensures FromTable(n, table, i, pau) == 64 ==> table[5] <= n
    decreases |table| - i
  {
    if i < 6 && table[i] <= n {
      FullTable(n, table, i + 1, pau * 2);
    }
  }

  lemma DivMonotone(x: nat, y: nat, d: nat)
    requires d > 0 && x <= y
    ensures x / d <= y / d
  {
    DivRange(x, d);
    DivRange(y, d);
    NotBelow(d, x / d, y / d, x, y);
  }

  lemma GapValue(x: nat, d: nat)
    requires d > 0
    ensures x + Gap(x, d) == d * ((x + d - 1) / d)
  {
  }

  /** Aligning keeps the order. */
  lemma GapMonotone(x: nat, y: nat, d: nat)
    requires d > 0 && x <= y
    ensures x + Gap(x, d) <= y + Gap(y, d)
  {
    hide *;
    GapValue(x, d);
    GapValue(y, d);
    DivMonotone(x + d - 1, y + d - 1, d);
    MulMonotone(d, (x + d - 1) / d, (y + d - 1) / d);
  }

  /** The system area is no larger for FAT12 at the double cluster size. */
  lemma DoubleFits(q: Request, pau: nat)
    requires q.Valid() && pau > 0 && !IsSmall(q, pau) && IsSmall(q, pau * 2)
    ensures SystemArea(q, pau * 2) <= SystemArea(q, pau)
  {
    hide Aligned, Gap, Request.Valid, Wrap, Sectors;
    var e, e' := Estimate(q, false, pau), Estimate(q, false, pau * 2);
    BlockSize(q);
    Halved(q, pau);
    AlignedSize(q, e);
    AlignedSize(q, e');
    MulMonotone(q.nFat, e'.szFat, e.szFat);
    GapMonotone(q.bVol + e'.szRsv + e'.szFat * q.nFat + e'.szDir, q.bVol + e.szRsv + e.szFat * q.nFat + e.szDir, q.szBlk);
  }

  lemma Halved(q: Request, pau: nat)
    requires q.Valid() && pau > 0 && !IsSmall(q, pau) && IsSmall(q, pau * 2)
    ensures Estimate(q, false, pau * 2).szFat <= Estimate(q, false, pau).szFat
  {
    hide Wrap;
    var n := q.szVol / pau;
    DivMul(q.szVol, pau, 2);
    InRange(n * 2 + 4);
    InRange(n * 2 + 4 + SS - 1);
    InRange((n / 2 * 3 + 1) / 2 + 3 + SS - 1);
    DivMonotone((n / 2 * 3 + 1) / 2 + 3 + SS - 1, n * 2 + 4 + SS - 1, SS);
  }

  /**
   * Every geometry that f_mkfs arrives at is mounted with the same sub-type, cluster count and sizes, exactly when
   * the request leaves room for one cluster; the data area begins on an erase block.
   */
  lemma FormatterMountAgree(q: Request, fat32: bool, szAu: nat)
    requires q.Valid() && (szAu == 0 || ClusterSize(szAu)) && Choose(q, fat32, szAu).Some?
    ensures var g := Choose(q, fat32, szAu).value;
            && (Mount(Stored(q, g), q.bVol) != NoFilesystem <==> HasRoom(q, fat32, szAu))
            && (HasRoom(q, fat32, szAu) ==>
                  Mount(Stored(q, g), q.bVol)
                  == Volume(g.fsty, g.nClst + 2, g.szFat, g.pau, Wrap(q.bVol + g.szRsv), Wrap(q.bVol + SysSectors(q, g))))
            && q.szBlk > 0 && (q.bVol + SysSectors(q, g)) % q.szBlk == 0
            && FatBytes(g.fsty, g.nClst + 2) <= 512 * g.szFat
  {
    hide Choose, Mount, Stored, FatBytes, SysSectors, TypeOf, HasRoom, ClusterSize;
    var g := Choose(q, fat32, szAu).value;
    ChosenSound(q, fat32, szAu);
    SoundMounts(q, g);
    RoomForOne(q, fat32, szAu);
  }

  lemma RoomForOne(q: Request, fat32: bool, szAu: nat)
    requires q.Valid() && (szAu == 0 || ClusterSize(szAu)) && Choose(q, fat32, szAu).Some?
    ensures Choose(q, fat32, szAu).value.nClst > 0 <==> HasRoom(q, fat32, szAu)
  {
    hide Choose, Sound, SystemArea, IsSmall;
    if fat32 {
      StaysFat32(q, szAu);
      ChosenSound(q, true, szAu);
      SomeClusters(q, Choose(q, true, szAu).value);
    } else if szAu == 0 {
      AutomaticSize(q);
    } else {
      FixedSize(q, szAu);
    }
  }

  /** With erase blocks of at most sixteen sectors every geometry is mounted. */
  lemma SmallBlocksMount(q: Request, fat32: bool, szAu: nat)
    requires q.Valid() && (szAu == 0 || ClusterSize(szAu)) && Choose(q, fat32, szAu).Some? && q.szBlk <= 16
    ensures Mount(Stored(q, Choose(q, fat32, szAu).value), q.bVol) != NoFilesystem
  {
    hide Choose, Mount, Stored, FatBytes, SysSectors, TypeOf;
    var g := Choose(q, fat32, szAu).value;
    ChosenSound(q, fat32, szAu);
    SoundMounts(q, g);
    SomeCluster(q.szVol - SysSectors(q, g), g.pau);
  }

  lemma SomeCluster(x: nat, pau: nat)
    requires pau > 0
    ensures x / pau > 0 <==> pau <= x
  {
    DivRange(x, pau);
    if x / pau >= 1 {
      MulMonotone(pau, 1, x / pau);
    }
  }

  /** 128 sectors with an erase block of 128. */
  const BARE: Request := Request(128, 0, 128, 1, 512, true)

  lemma BareLayout()
    ensures BARE.Valid() && Aligned(BARE, Estimate(BARE, false, 1)) == Layout(FAT12, 34, 1, 95, 32)
  {
    assert Estimate(BARE, false, 1) == Layout(FAT12, 0, 1, 1, 32);
    assert Gap(34, 128) == 94;
  }

  lemma BareTry()
    ensures BARE.Valid() && Try(BARE, false, 1) == Some(Geometry(FAT12, 1, 1, 95, 32, 0))
  {
    hide Aligned, Estimate;
    BareLayout();
  }

  /** A volume of 128 sectors with an erase block of 128 is formatted without any cluster, and then not mounted. */
  lemma FormatterMountDiffer()
    ensures BARE.Valid() && Choose(BARE, false, 0) == Some(Geometry(FAT12, 1, 1, 95, 32, 0))
    ensures Mount(Stored(BARE, Geometry(FAT12, 1, 1, 95, 32, 0)), 0) == NoFilesystem
  {
    hide Round, Stored;
    BareRound();
    BareRecord();
  }

  lemma BareRound()
    ensures BARE.Valid() && Round(BARE, false, 0) == Done(Geometry(FAT12, 1, 1, 95, 32, 0))
  {
    hide Try, Request.Valid, FromTable;
    BareTry();
    assert 128 / 0x1000 == 0;
    assert FromTable(0, [1, 4, 16, 64, 256, 512], 0, 1) == 1 by { SmallestSize(); }
  }

  lemma SmallestSize()
    ensures FromTable(0, [1, 4, 16, 64, 256, 512], 0, 1) == 1
  {
  }

  lemma BareRecord()
    ensures Stored(BARE, Geometry(FAT12, 1, 1, 95, 32, 0)) == BootRecord(1, 1, 1, 512, 128, 95, 0, 0)
  {
  }

  // ---------- a mounted volume ----------

  /** The fields of the volume object that the FAT operations use. */
  function GeoOf(m: Mounted, nFats: nat): Geo
    requires m.Volume?
  {
    Geo(m.fsty, nFats, m.cSize, m.nFatEnt, m.fSize, m.fatBase, m.dataBase)
  }

  /** The fields have their widths, and the volume lies within the sector numbers. */
  ghost predicate Placed(b: BootRecord, bsect: nat) {
    && b.rsvdSecCnt < 0x1_0000 && b.rootEntCnt < 0x1_0000 && b.fatSz16 < 0x1_0000 && b.fatSz32 < TWO32
    && bsect + b.rsvdSecCnt < TWO32 && bsect + TotalSectors(b) < TWO32
  }

  /**
   * A volume that mounting accepts has the geometry that the FAT and file operations rely on, exactly when the
   * sectors of its system area add up below 2^32.
   */
  lemma MountedIsValid(b: BootRecord, bsect: nat)
    requires Placed(b, bsect) && Mount(b, bsect).Volume?
    ensures GeoOf(Mount(b, bsect), b.numFats).Valid()
            <==> b.rsvdSecCnt + FatSectors(b) * b.numFats + b.rootEntCnt / 16 < TWO32
  {
    hide Mount, FatBytes, ClusterSize, Wrap, FatSectors, TotalSectors;
    MountedFacts(b, bsect);
    SystemSectors(b);
    InRange(bsect + b.rsvdSecCnt);
    InRange(bsect + SystemSum(b));
    var m, f := Mount(b, bsect), FatSectors(b) * b.numFats;
    assert m.fatBase == bsect + b.rsvdSecCnt && m.dataBase == bsect + SystemSum(b);
    assert f == b.numFats * m.fSize;
  }

  /** Two FATs of 0x80000010 sectors, on a volume of 100000. */
  const OVERLONG: BootRecord := BootRecord(1, 32, 2, 0, 0, 0, 100_000, 0x8000_0010)

  /**
   * Twice that size wraps around to 32 sectors, so mounting accepts the boot record, with a data area that begins
   * inside the first FAT and FATs that end behind the volume.
   */
  lemma MountedNotValid()
    ensures Placed(OVERLONG, 0) && Mount(OVERLONG, 0) == Volume(FAT32, 99938, 0x8000_0010, 1, 32, 64)
    ensures !GeoOf(Mount(OVERLONG, 0), 2).Valid()
  {
    var b := OVERLONG;
    assert FatSectors(b) * b.numFats == 0x1_0000_0020 && Wrap(0x1_0000_0020) == 32;
    assert FatBytes(FAT32, 99938) == 399752 && TypeOf(99936) == FAT32;
    MountedIsValid(b, 0);
  }

  /** The sectors in front of the data area, in 32 bits. */
  function SystemSum(b: BootRecord): nat { Wrap(b.rsvdSecCnt + Wrap(FatSectors(b) * b.numFats) + b.rootEntCnt / 16) }

  lemma MountedFacts(b: BootRecord, bsect: nat)
    requires Mount(b, bsect).Volume?
    ensures var m := Mount(b, bsect);
            && (b.numFats == 1 || b.numFats == 2) && ClusterSize(m.cSize) && b.rsvdSecCnt > 0 && SystemSum(b) <= TotalSectors(b)
            && 3 <= m.nFatEnt <= MaxClusters(m.fsty) + 2 && m.cSize * (m.nFatEnt - 2) <= TotalSectors(b) - SystemSum(b)
            && FatBytes(m.fsty, m.nFatEnt) <= m.fSize * SS && m.fSize == FatSectors(b)
            && m.fatBase == Wrap(bsect + b.rsvdSecCnt) && m.dataBase == Wrap(bsect + SystemSum(b))
  {
    hide FatBytes, Wrap;
    DivRange(TotalSectors(b) - SystemSum(b), Mount(b, bsect).cSize);
  }

  lemma SystemSectors(b: BootRecord)
    requires b.rsvdSecCnt < 0x1_0000 && b.rootEntCnt < 0x1_0000 && b.fatSz16 < 0x1_0000 && b.fatSz32 < TWO32
    requires b.numFats == 1 || b.numFats == 2
    ensures var f := FatSectors(b) * b.numFats; var sum := b.rsvdSecCnt + f + b.rootEntCnt / 16;
            SystemSum(b) == if sum < TWO32 then sum else if sum < 2 * TWO32 then sum - TWO32 else sum - 2 * TWO32
  {
  }

  /** What f_mkfs makes is a valid geometry, if it mounts at all. */
  lemma FormattedIsValid(q: Request, fat32: bool, szAu: nat)
    requires q.Valid() && (szAu == 0 || ClusterSize(szAu)) && Choose(q, fat32, szAu).Some? && HasRoom(q, fat32, szAu)
    requires q.bVol + q.szVol < TWO32
    ensures var m := Mount(Stored(q, Choose(q, fat32, szAu).value), q.bVol);
            m.Volume? && GeoOf(m, q.nFat).Valid()
  {
    hide Choose, Mount, FatBytes, SysSectors, TypeOf, HasRoom, ClusterSize, Stored, Geo.Valid;
    var g := Choose(q, fat32, szAu).value;
    FormatterMountAgree(q, fat32, szAu);
    ChosenSound(q, fat32, szAu);
    StoredFields(q, g);
    StoredPlaced(q, g);
    MountedIsValid(Stored(q, g), q.bVol);
  }

  lemma StoredPlaced(q: Request, g: Geometry)
    requires q.Valid() && Sound(q, g) && q.bVol + q.szVol < TWO32
    ensures var b := Stored(q, g);
            Placed(b, q.bVol) && b.rsvdSecCnt + FatSectors(b) * b.numFats + b.rootEntCnt / 16 < TWO32
  {
    hide FatBytes, TypeOf, Request.Valid;
    BlockSize(q);
    StoredFields(q, g);
  }
}
