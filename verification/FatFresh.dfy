/** A volume as f_mkfs leaves it: its table, and what every run on it keeps. */
module FatFresh {
  import opened Arith
  import opened FatBase
  import opened FatCodec
  import opened FatVolume
  import opened FatChains
  import opened FatAlloc
  import opened FatFileModel
  import opened FatFileState
  import opened FatFile
  import FatFormat

  // ---------- writing the FATs and the root directory ----------

  /** The first sector of a FAT: the two reserved entries and, on FAT32, the cluster of the root directory. */
  function FirstSector(t: FsType): (r: Sector)
    ensures |r| == SS
  {
    match t
    case FAT12 => [0xF8, 0xFF, 0xFF, 0] + seq(SS - 4, _ => 0)
    case FAT16 => [0xF8, 0xFF, 0xFF, 0xFF] + seq(SS - 4, _ => 0)
    case FAT32 => [0xF8, 0xFF, 0xFF, 0xFF, 0xFF, 0xFF, 0xFF, 0xFF, 0xFF, 0xFF, 0xFF, 0x0F] + seq(SS - 12, _ => 0)
  }

  function Zeros(n: nat): (r: seq<Sector>)
    ensures |r| == n
  {
    seq(n, _ => ZeroSector())
  }

  /** A sector, and zeros behind it up to n sectors. */
  function Headed(first: Sector, n: nat): (r: seq<Sector>)
    ensures |r| == n
  {
    if n == 0 then [] else [first] + Zeros(n - 1)
  }

  /** The FATs, and dir sectors of the root directory. */
  function Area(t: FsType, nFats: nat, fsize: nat, dir: nat): (r: seq<Sector>)
    ensures |r| == nFats * fsize + dir
    decreases nFats
  {
    if nFats == 0 then Zeros(dir)
    else
      OneLess(nFats, fsize);
      Headed(FirstSector(t), fsize) + Area(t, nFats - 1, fsize, dir)
  }

  lemma OneLess(n: nat, f: nat)
    requires n > 0
    ensures n * f == f + (n - 1) * f
  {
  }

  lemma OverwrittenNext(disk: seq<Sector>, x: nat, a: seq<Sector>, b: seq<Sector>)
    requires x + |a| + |b| <= |disk|
    ensures Overwritten(Overwritten(disk, x, a), x + |a|, b) == Overwritten(disk, x, a + b)
  {
  }

  /** disk_write, which may fail. */
  method WriteSectors(reliable: bool, disk: seq<Sector>, sect: nat, data: seq<Sector>) returns (ok: bool, disk': seq<Sector>)
    ensures reliable && sect + |data| <= |disk| ==> ok
    ensures ok ==> sect + |data| <= |disk| && disk' == Overwritten(disk, sect, data)
  {
    var fault: bool := *;
    if (fault && !reliable) || sect + |data| > |disk| {
      return false, disk;
    }
    return true, Overwritten(disk, sect, data);
  }

  /** Writes n sectors out of a working buffer that is zero but for its first sector. */
  method Fill(reliable: bool, disk: seq<Sector>, sect: nat, n: nat, work: seq<Sector>) returns (ok: bool, disk': seq<Sector>)
    requires n > 0 && |work| > 0 && work == Headed(work[0], |work|)
    ensures ok ==> sect + n <= |disk| && disk' == Overwritten(disk, sect, Headed(work[0], n))
    ensures reliable && sect + n <= |disk| ==> ok
  {
    hide Overwritten, Headed, Zeros;
    disk' := disk;
    var buf, at, nsect := work, sect, n;
    while true
      invariant 0 < nsect <= n && at == sect + n - nsect && (nsect < n ==> at <= |disk|)
      invariant disk' == if nsect == n then disk else Overwritten(disk, sect, Headed(work[0], n - nsect))
      invariant buf == if nsect == n then work else Zeros(|work|)
      decreases nsect
    {
      var k := if nsect > |buf| then |buf| else nsect;
      ghost var before := disk';
      ok, disk' := WriteSectors(reliable, disk', at, buf[..k]);
      if !ok { return; }
      HeadedNext(disk, before, sect, work[0], n - nsect, buf[..k], |work|);
      buf := buf[0 := ZeroSector()];
      Cleaned(work, n == nsect, buf);
      at := at + k;
      nsect := nsect - k;
      if nsect == 0 { return; }
    }
  }

  lemma Cleaned(work: seq<Sector>, first: bool, buf: seq<Sector>)
    requires |work| > 0 && work == Headed(work[0], |work|) && buf == (if first then work else Zeros(|work|))[0 := ZeroSector()]
    ensures buf == Zeros(|work|)
  {
  }

  lemma HeadedNext(disk: seq<Sector>, before: seq<Sector>, sect: nat, first: Sector, m: nat, part: seq<Sector>, size: nat)
    requires 0 < |part| <= size && sect + m + |part| <= |disk|
    requires before == if m == 0 then disk else Overwritten(disk, sect, Headed(first, m))
    requires part == if m == 0 then Headed(first, size)[..|part|] else Zeros(size)[..|part|]
    ensures Overwritten(before, sect + m, part) == Overwritten(disk, sect, Headed(first, m + |part|))
  {
    hide Overwritten, ZeroSector;
    HeadedMore(first, m, part, size);
    if m > 0 {
      OverwrittenNext(disk, sect, Headed(first, m), part);
    }
  }

  lemma HeadedMore(first: Sector, m: nat, part: seq<Sector>, size: nat)
    requires 0 < |part| <= size && part == if m == 0 then Headed(first, size)[..|part|] else Zeros(size)[..|part|]
    ensures Headed(first, m + |part|) == if m == 0 then part else Headed(first, m) + part
  {
    hide ZeroSector;
  }

  /** The end of f_mkfs: the FATs, and the root directory behind them. */
  method InitArea(reliable: bool, t: FsType, nFats: nat, fsize: nat, dir: nat, bFat: nat, szBuf: nat, before: seq<Sector>) returns (ok: bool, disk: seq<Sector>)
    requires 0 < fsize && 0 < dir && 0 < szBuf && 0 < nFats
    ensures ok ==> bFat + nFats * fsize + dir <= |before| && disk == Overwritten(before, bFat, Area(t, nFats, fsize, dir))
    ensures reliable && bFat + nFats * fsize + dir <= |before| ==> ok
  {
    hide FirstSector, Overwritten, Zeros, Headed, Area, ZeroSector;
    disk := before;
    var sect, i := bFat, 0;
    ghost var done: seq<Sector> := [];
    ghost var area := Area(t, nFats, fsize, dir);
    while i < nFats
      invariant 0 <= i <= nFats && sect == bFat + |done| && done + Area(t, nFats - i, fsize, dir) == area
      invariant if i == 0 then disk == before && done == [] else sect <= |before| && disk == Overwritten(before, bFat, done)
    {
      var buf := Headed(FirstSector(t), szBuf);
      HeadedFirst(FirstSector(t), szBuf);
      ghost var prior := disk;
      ghost var fat := Headed(FirstSector(t), fsize);
      AreaNext(done, fat, t, nFats - i, fsize, dir);
      ok, disk := Fill(reliable, disk, sect, fsize, buf);
      if !ok { return; }
      Appended(before, prior, bFat, done, fat);
      done := done + fat;
      sect := sect + fsize;
      i := i + 1;
    }
    ghost var prior := disk;
    HeadedFirst(ZeroSector(), szBuf);
    AreaEnd(t, fsize, dir);
    ok, disk := Fill(reliable, disk, sect, dir, Headed(ZeroSector(), szBuf));
    if ok {
      ZerosHeaded(dir);
      Appended(before, prior, bFat, done, Zeros(dir));
    }
  }

  lemma HeadedFirst(first: Sector, n: nat)
    requires n > 0
    ensures Headed(first, n)[0] == first
  {
  }

  lemma AreaEnd(t: FsType, fsize: nat, dir: nat)
    ensures Area(t, 0, fsize, dir) == Zeros(dir)
  {
  }

  lemma ZerosHeaded(n: nat)
    ensures Headed(ZeroSector(), n) == Zeros(n)
  {
  }

  lemma AreaNext(done: seq<Sector>, fat: seq<Sector>, t: FsType, n: nat, fsize: nat, dir: nat)
    requires n > 0 && fat == Headed(FirstSector(t), fsize)
    ensures done + Area(t, n, fsize, dir) == done + fat + Area(t, n - 1, fsize, dir)
  {
    hide FirstSector;
  }

  lemma Appended(before: seq<Sector>, prior: seq<Sector>, x: nat, done: seq<Sector>, more: seq<Sector>)
    requires x + |done| + |more| <= |before|
    requires if done == [] then prior == before else prior == Overwritten(before, x, done)
    ensures Overwritten(prior, x + |done|, more) == Overwritten(before, x, done + more)
  {
    if done == [] {
      assert done + more == more;
    } else {
      OverwrittenNext(before, x, done, more);
    }
  }

  // ---------- the table that this is ----------

  /** The reserved entries; on FAT32 the root directory has the first cluster; the rest is free. */
  function FreshTable(t: FsType, n: nat): (r: Fat)
    ensures |r| == n
  {
    seq(n, c requires 0 <= c < n => FreshEntry(t, c))
  }

  function FreshEntry(t: FsType, c: nat): nat {
    if c == 0 then match t case FAT12 => 0xFF8 case FAT16 => 0xFFF8 case FAT32 => 0x0FFFFFF8
    else if c == 1 then match t case FAT12 => 0xFFF case FAT16 => 0xFFFF case FAT32 => 0x0FFFFFFF
    else if c == 2 && t == FAT32 then 0x0FFFFFFF
    else 0
  }

  /** The FATs of the geometry have just been written. */
  ghost predicate Formatted(g: Geo, disk: seq<Sector>) {
    && g.fatbase + g.nFats * g.fsize <= |disk|
    && forall i :: g.fatbase <= i < g.fatbase + g.nFats * g.fsize ==>
         disk[i] == if i == g.fatbase || i == g.fatbase + g.fsize then FirstSector(g.fsType) else ZeroSector()
  }

  lemma AreaIsFormatted(g: Geo, before: seq<Sector>, dir: nat)
    requires g.nFats in {1, 2} && 0 < g.fsize && g.fatbase + g.nFats * g.fsize + dir <= |before|
    ensures Formatted(g, Overwritten(before, g.fatbase, Area(g.fsType, g.nFats, g.fsize, dir)))
  {
    hide FirstSector, ZeroSector;
    var area := Area(g.fsType, g.nFats, g.fsize, dir);
    var one := Headed(FirstSector(g.fsType), g.fsize);
    if g.nFats == 1 {
      assert Area(g.fsType, 0, g.fsize, dir) == Zeros(dir);
      assert area == one + Zeros(dir);
    } else {
      assert Area(g.fsType, 0, g.fsize, dir) == Zeros(dir);
      assert area == one + (one + Zeros(dir));
    }
    assert forall i :: g.fatbase <= i < g.fatbase + |area| ==> Overwritten(before, g.fatbase, area)[i] == area[i - g.fatbase];
  }

  lemma FreshByte(g: Geo, disk: seq<Sector>, p: nat)
    requires g.Valid() && g.database <= |disk| && Formatted(g, disk) && p < g.fsize * SS
    ensures g.fatbase + g.fsize <= |disk|
    ensures FatImage(g, disk)[p] == if p < SS then FirstSector(g.fsType)[p] else 0
  {
    hide FirstSector;
    FirstFat(g);
    DivNat(p, SS);
    if p < SS {
      DivUnique(p, SS, 0, p);
    } else {
      assert 0 < p / SS < g.fsize;
    }
  }

  lemma FirstFat(g: Geo)
    requires g.Valid()
    ensures g.fatbase + g.fsize <= g.database && g.fsize <= g.nFats * g.fsize && 0 < g.fsize
  {
  }

  lemma FreshDecoded(g: Geo, disk: seq<Sector>, c: nat)
    requires g.Valid() && g.database <= |disk| && Formatted(g, disk) && c < g.nFatent
    ensures g.fatbase + g.fsize <= |disk| && Fits(g.fsType, g.fsize * SS, c)
    ensures Decode(g.fsType, FatImage(g, disk), c) == FreshEntry(g.fsType, c)
  {
    hide FatImage, Formatted, Geo.Valid, Decode, FreshEntry, FirstSector;
    FirstFat(g);
    GeoTableFits(g);
    assert Fits(g.fsType, g.fsize * SS, c);
    var img, p := FatImage(g, disk), Offset(g.fsType, c);
    FreshByte(g, disk, p);
    FreshByte(g, disk, p + 1);
    if g.fsType == FAT32 {
      FreshByte(g, disk, p + 2);
      FreshByte(g, disk, p + 3);
      Fresh32(img, c);
    } else if g.fsType == FAT16 {
      Fresh16(img, c);
    } else {
      Fresh12(img, c);
    }
  }

  lemma Fresh12(img: seq<byte>, c: nat)
    requires Fits(FAT12, |img|, c) && var p := c + c / 2; forall q :: p <= q < p + 2 ==> img[q] == if q < SS then FirstSector(FAT12)[q] else 0
    ensures Decode(FAT12, img, c) == FreshEntry(FAT12, c)
  {
    if c >= 2 {
      assert c + c / 2 >= 3;
    }
  }

  lemma Fresh16(img: seq<byte>, c: nat)
    requires Fits(FAT16, |img|, c) && forall q :: 2 * c <= q < 2 * c + 2 ==> img[q] == if q < SS then FirstSector(FAT16)[q] else 0
    ensures Decode(FAT16, img, c) == FreshEntry(FAT16, c)
  {
  }

  lemma Fresh32(img: seq<byte>, c: nat)
    requires Fits(FAT32, |img|, c) && forall q :: 4 * c <= q < 4 * c + 4 ==> img[q] == if q < SS then FirstSector(FAT32)[q] else 0
    ensures Decode(FAT32, img, c) == FreshEntry(FAT32, c)
  {
  }

  /** The table decoded from what was written. */
  lemma FreshFat(g: Geo, disk: seq<Sector>)
    requires g.Valid() && g.End() <= |disk| && g.database <= g.End() && Formatted(g, disk)
    ensures FatOf(g, disk) == FreshTable(g.fsType, g.nFatent)
  {
    hide FatImage, Formatted, Geo.Valid, Decode, FreshEntry;
    FirstFat(g);
    GeoTableFits(g);
    forall c | 0 <= c < g.nFatent ensures FatOf(g, disk)[c] == FreshEntry(g.fsType, c) {
      FreshDecoded(g, disk, c);
    }
  }

  /** Chains in order, no reserved entry zero, and how many clusters are free. */
  lemma FreshInOrder(g: Geo)
    requires g.Valid()
    ensures var fat := FreshTable(g.fsType, g.nFatent);
            && WellFormed(fat) && Overcount(g, fat) == 0
            && FreeCount(fat) == g.nFatent - (if g.fsType == FAT32 then 3 else 2)
            && (forall free :: free == INVALID || free == FreeCount(fat) ==> InOrder(g, Alloc(fat, free)))
  {
    var fat, n := FreshTable(g.fsType, g.nFatent), g.nFatent;
    FreshEnds(fat, n);
    FreshFree(g.fsType, n);
  }

  lemma FreshEnds(fat: Fat, n: nat)
    requires |fat| == n && forall c :: Cluster(fat, c) ==> fat[c] == 0 || (c == 2 && fat[c] >= n)
    ensures WellFormed(fat)
  {
    forall c | Cluster(fat, c) && fat[c] != 0 ensures EndsFrom(fat, c) {
      assert Path(fat, [c]);
    }
  }

  lemma FreshFree(t: FsType, n: nat)
    requires 3 <= n
    ensures FreeCount(FreshTable(t, n)) == n - (if t == FAT32 then 3 else 2)
  {
    var used := if t == FAT32 then {0, 1, 2} else {0, 1};
    assert used <= Below(n);
    assert Free(FreshTable(t, n)) == Below(n) - used;
  }

  /** The medium behind any clean window is a valid volume with this table. */
  lemma FreshImage(g: Geo, disk: seq<Sector>, win: Sector, winsect: nat)
    requires g.Valid() && g.End() <= |disk| <= INVALID && Formatted(g, disk)
    requires winsect == INVALID || (winsect < |disk| && win == disk[winsect])
    ensures var s := Image(disk, win, winsect, false, false);
            s.Valid(g) && s.View() == disk && FatOf(g, s.View()) == FreshTable(g.fsType, g.nFatent)
  {
    hide FirstSector, ZeroSector;
    FirstFat(g);
    var s := Image(disk, win, winsect, false, false);
    assert s.View() == disk;
    FreshMirror(g, disk);
    DatabaseFirst(g);
    FreshFat(g, disk);
  }

  lemma DatabaseFirst(g: Geo)
    requires g.Valid()
    ensures g.database <= g.End()
  {
  }

  lemma FreshMirror(g: Geo, disk: seq<Sector>)
    requires g.Valid() && Formatted(g, disk)
    ensures Image(disk, ZeroSector(), INVALID, false, false).Mirrored(g)
  {
    hide FirstSector, ZeroSector;
    FirstFat(g);
    if g.nFats == 2 {
      forall i | g.fatbase <= i < g.fatbase + g.fsize && i + g.fsize < |disk| ensures disk[i + g.fsize] == disk[i] {
        assert i + g.fsize < g.fatbase + g.nFats * g.fsize;
      }
    }
  }

  // ---------- a formatted volume ----------

  /** What the formatter's last writes leave of a medium. */
  ghost predicate IsFresh(q: FatFormat.Request, f: FatFormat.Geometry, before: seq<Sector>, disk: seq<Sector>) {
    var x, area := q.bVol + f.szRsv, Area(f.fsty, q.nFat, f.szFat, if f.fsty == FAT32 then f.pau else f.szDir);
    x + |area| <= |before| && disk == Overwritten(before, x, area)
  }

  /** The geometry with which a formatted volume is mounted. */
  ghost function FreshGeo(q: FatFormat.Request, fat32: bool, szAu: nat): (g: Geo)
    requires q.Valid() && (szAu == 0 || ClusterSize(szAu)) && FatFormat.Choose(q, fat32, szAu).Some?
    requires FatFormat.HasRoom(q, fat32, szAu) && q.bVol + q.szVol <= INVALID
    ensures g.Valid()
  {
    hide FatFormat.Choose, FatFormat.HasRoom, FatFormat.Mount, FatFormat.Stored, ClusterSize;
    FatFormat.FormattedIsValid(q, fat32, szAu);
    FatFormat.GeoOf(FatFormat.Mount(FatFormat.Stored(q, FatFormat.Choose(q, fat32, szAu).value), q.bVol), q.nFat)
  }

  /**
   * Every volume that is formatted with room for a cluster is, once mounted, a valid volume whose table has its chains
   * in order: the reserved entries are not zero, and all clusters are free but the root directory's on FAT32.
   */
  lemma FormattedVolume(q: FatFormat.Request, fat32: bool, szAu: nat, before: seq<Sector>, disk: seq<Sector>, win: Sector, winsect: nat)
    requires q.Valid() && (szAu == 0 || ClusterSize(szAu)) && FatFormat.Choose(q, fat32, szAu).Some?
    requires FatFormat.HasRoom(q, fat32, szAu) && q.bVol + q.szVol <= |before| <= INVALID
    requires IsFresh(q, FatFormat.Choose(q, fat32, szAu).value, before, disk)
    requires winsect == INVALID || (winsect < |disk| && win == disk[winsect])
    ensures var g, s := FreshGeo(q, fat32, szAu), Image(disk, win, winsect, false, false);
            && s.Valid(g) && g.End() <= |s.View()| && FatOf(g, s.View()) == FreshTable(g.fsType, g.nFatent)
            && InOrder(g, Alloc(FatOf(g, s.View()), INVALID))
            && FreeCount(FatOf(g, s.View())) == g.nFatent - (if g.fsType == FAT32 then 3 else 2)
  {
    hide FatFormat.Choose, FatFormat.HasRoom, ClusterSize, FreshTable, Area, InOrder, FatOf, Image.Valid, Image.View, Formatted;
    var f, g := FatFormat.Choose(q, fat32, szAu).value, FreshGeo(q, fat32, szAu);
    FreshFields(q, fat32, szAu);
    AreaIsFormatted(g, before, if f.fsty == FAT32 then f.pau else f.szDir);
    FreshImage(g, disk, win, winsect);
    FreshInOrder(g);
  }

  lemma FreshFields(q: FatFormat.Request, fat32: bool, szAu: nat)
    requires q.Valid() && (szAu == 0 || ClusterSize(szAu)) && FatFormat.Choose(q, fat32, szAu).Some?
    requires FatFormat.HasRoom(q, fat32, szAu) && q.bVol + q.szVol <= INVALID
    ensures var f, g := FatFormat.Choose(q, fat32, szAu).value, FreshGeo(q, fat32, szAu);
            && g.fsType == f.fsty && g.nFats == q.nFat && g.nFats in {1, 2} && g.fsize == f.szFat > 0
            && g.fatbase == q.bVol + f.szRsv && g.End() <= q.bVol + q.szVol
  {
    hide FatFormat.Choose, FatFormat.HasRoom, FatFormat.Mount, FatFormat.Stored, FatBytes, FatFormat.TypeOf;
    var f := FatFormat.Choose(q, fat32, szAu).value;
    FatFormat.FormatterMountAgree(q, fat32, szAu);
    FatFormat.ChosenSound(q, fat32, szAu);
    FatFormat.BlockSize(q);
    FatFormat.InRange(q.bVol + f.szRsv);
    FatFormat.InRange(q.bVol + FatFormat.SysSectors(q, f));
    FatFormat.DivRange(q.szVol - FatFormat.SysSectors(q, f), f.pau);
  }

  /** On a formatted volume the record is unknown or right after every run, and the chains are always in order. */
  lemma FreshRun(q: FatFormat.Request, fat32: bool, szAu: nat, free: nat, run: seq<Alloc>, calls: seq<Call>)
    requires q.Valid() && (szAu == 0 || ClusterSize(szAu)) && FatFormat.Choose(q, fat32, szAu).Some?
    requires FatFormat.HasRoom(q, fat32, szAu) && q.bVol + q.szVol <= INVALID
    requires var g := FreshGeo(q, fat32, szAu);
             && |run| == |calls| + 1 && (forall i :: 0 <= i < |run| ==> |run[i].fat| == g.nFatent) && g.nFatent >= 2
             && (free == INVALID || free == g.nFatent - (if g.fsType == FAT32 then 3 else 2))
             && run[0] == Alloc(FreshTable(g.fsType, g.nFatent), free)
             && forall i :: 0 <= i < |calls| ==> Step(g, calls[i], run[i], run[i + 1])
    ensures forall i :: 0 <= i < |run| ==> InOrder(FreshGeo(q, fat32, szAu), run[i])
  {
    hide FatFormat.Choose, FatFormat.HasRoom, ClusterSize, FreshTable, InOrder, Step, Geo.Valid;
    var g := FreshGeo(q, fat32, szAu);
    FreshInOrder(g);
    RunKeeps(g, run, calls);
  }

  /** A new, empty file can be opened on it, and with it every run of file calls begins. */
  lemma FreshOpens(g: Geo, s: Image)
    requires s.Valid(g) && g.Valid() && g.End() <= |s.View()| && FatOf(g, s.View()) == FreshTable(g.fsType, g.nFatent)
    requires s.winsect < g.database || s.winsect == INVALID
    ensures var f := Opened(FatOf(g, s.View()), 0, 0, []); Core(g, s, f) && Positioned(g, f) && Content(g, s, f) == []
    ensures |Opened(FatOf(g, s.View()), 0, 0, []).mine| == g.nFatent - (if g.fsType == FAT32 then 3 else 2)
  {
    hide FreshTable, FatOf, Image.Valid, Image.View, Core, Positioned, Content;
    FreshInOrder(g);
    DatabaseFirst(g);
    OpenedCore(g, s, 0, 0, []);
    assert Opened(FatOf(g, s.View()), 0, 0, []).mine == Free(FatOf(g, s.View()));
  }

  // ---------- a zero reserved entry ----------

  /** The smallest FAT16 volume: 4086 clusters of one sector, one FAT of sixteen, a root directory of one. */
  const SMALLEST16: FatFormat.BootRecord := FatFormat.BootRecord(1, 1, 1, 16, 4104, 16, 0, 0)

  const GEO16: Geo := Geo(FAT16, 1, 1, 4088, 16, 1, 18)

  lemma SmallestMounts()
    ensures FatFormat.Mount(SMALLEST16, 0) == FatFormat.Volume(FAT16, 4088, 16, 1, 1, 18)
    ensures FatFormat.GeoOf(FatFormat.Mount(SMALLEST16, 0), 1) == GEO16 && GEO16.Valid()
  {
  }

  /** All clusters but the last one are in use, each as a chain of its own, and entry 0 is zero. */
  function ZeroFirst(): Fat { [0] + seq(4086, _ => 0xFFFF) + [0] }

  /**
   * On the smallest FAT16 volume that mounting accepts, with a table in order but for a zero entry 0, f_getfree records
   * two free clusters where there is one.
   */
  lemma ZeroReservedMiscounts()
    ensures FatFormat.Mount(SMALLEST16, 0).Volume? && FatFormat.GeoOf(FatFormat.Mount(SMALLEST16, 0), 1) == GEO16 && GEO16.Valid()
    ensures |ZeroFirst()| == GEO16.nFatent && WellFormed(ZeroFirst()) && Counted(ZeroFirst(), INVALID)
    ensures Step(GEO16, Count, Alloc(ZeroFirst(), INVALID), Alloc(ZeroFirst(), 2)) && !Counted(ZeroFirst(), 2)
  {
    SmallestMounts();
    var fat := ZeroFirst();
    assert forall c :: Cluster(fat, c) ==> fat[c] == if c == 4087 then 0 else 0xFFFF;
    assert Free(fat) == {4087};
    forall c | Cluster(fat, c) && fat[c] != 0 ensures EndsFrom(fat, c) {
      assert Path(fat, [c]);
    }
  }
}
