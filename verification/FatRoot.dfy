/** The root directory of a volume as f_mkfs leaves it. */
module FatRoot {
  import opened Arith
  import opened FatBase
  import opened FatVolume
  import opened FatChains
  import opened FatAlloc
  import opened FatFileModel
  import opened FatFileState
  import opened FatFile
  import opened FatFresh
  import opened FatDirModel
  import FatDirectory
  import FatFormat

  /** The sectors of its own that the root directory has on FAT12 and FAT16, and its cluster on FAT32. */
  ghost function RootHome(g: Geo): Home {
    var x := g.fatbase + g.nFats * g.fsize;
    if g.fsType == FAT32 then Clusters([2]) else Fixed(x, if x < g.database then g.database - x else 0)
  }

  /** These sectors are there, and zero. */
  ghost predicate RootCleared(g: Geo, disk: seq<Sector>) {
    var x, n := g.fatbase + g.nFats * g.fsize, if g.fsType == FAT32 then g.csize else g.database - g.fatbase - g.nFats * g.fsize;
    && n > 0 && x + n <= |disk| && (g.fsType == FAT32 ==> g.database == x)
    && forall i :: x <= i < x + n ==> disk[i] == ZeroSector()
  }

  /** The root directory of a fresh table with cleared sectors has entries never used only. */
  lemma FreshRoot(g: Geo, disk: seq<Sector>)
    requires g.Valid() && g.End() <= |disk| && FatOf(g, disk) == FreshTable(g.fsType, g.nFatent) && RootCleared(g, disk)
    ensures HomeOk(g, FatOf(g, disk), RootHome(g))
    ensures forall i :: 0 <= i < |TableOf(g, FatOf(g, disk), RootHome(g), disk)| ==>
              TableOf(g, FatOf(g, disk), RootHome(g), disk)[i] == FatDirectory.Blank()
  {
    hide FatOf, FreshTable, ZeroSector, EntryOf, HomeOk;
    var fat, h := FatOf(g, disk), RootHome(g);
    RootHomeOk(g);
    var t := TableOf(g, fat, h, disk);
    forall i | 0 <= i < |t| ensures t[i] == FatDirectory.Blank() {
      RootSector(g, disk, i / 16);
      ZeroEntry(i % 16);
    }
  }

  lemma RootHomeOk(g: Geo)
    requires g.Valid() && (g.fsType != FAT32 ==> g.fatbase + g.nFats * g.fsize < g.database)
    ensures HomeOk(g, FreshTable(g.fsType, g.nFatent), RootHome(g))
  {
    hide WellFormed;
    var fat := FreshTable(g.fsType, g.nFatent);
    FreshInOrder(g);
    if g.fsType == FAT32 {
      assert Path(fat, [2]) && IsHead(fat, 2);
    }
  }

  lemma RootSector(g: Geo, disk: seq<Sector>, k: nat)
    requires g.Valid() && g.End() <= |disk| && RootCleared(g, disk) && k < SectorCount(g, RootHome(g))
    requires HomeOk(g, FatOf(g, disk), RootHome(g))
    ensures TableSector(g, FatOf(g, disk), RootHome(g), disk, k) == ZeroSector()
  {
    hide HomeOk, FatOf, ZeroSector;
    if g.fsType == FAT32 {
      DivUnique(k, g.csize, 0, k);
    }
  }

  /** What was written behind the FATs is zero. */
  lemma AreaTail(t: FsType, nFats: nat, fsize: nat, dir: nat, i: nat)
    requires nFats * fsize <= i < nFats * fsize + dir
    ensures Area(t, nFats, fsize, dir)[i] == ZeroSector()
    decreases nFats
  {
    hide FirstSector, ZeroSector;
    if nFats > 0 {
      OneLess(nFats, fsize);
      AreaTail(t, nFats - 1, fsize, dir, i - fsize);
    }
  }

  /**
   * On every volume that is formatted with room for a cluster, the root directory is a table in which nothing is found,
   * no short name occurs, and nothing lies behind the first entry never used.
   */
  lemma FormattedRoot(q: FatFormat.Request, fat32: bool, szAu: nat, before: seq<Sector>, disk: seq<Sector>)
    requires q.Valid() && (szAu == 0 || ClusterSize(szAu)) && FatFormat.Choose(q, fat32, szAu).Some?
    requires FatFormat.HasRoom(q, fat32, szAu) && q.bVol + q.szVol <= |before| <= INVALID
    requires IsFresh(q, FatFormat.Choose(q, fat32, szAu).value, before, disk)
    ensures var g := FreshGeo(q, fat32, szAu);
            && g.End() <= |disk| && HomeOk(g, FatOf(g, disk), RootHome(g))
            && var t := TableOf(g, FatOf(g, disk), RootHome(g), disk);
               |t| > 0 && FatDirectory.Ended(t) && FatDirectory.DistinctShort(t) && forall i :: 0 <= i < |t| ==> t[i] == FatDirectory.Blank()
  {
    hide FatFormat.Choose, FatFormat.HasRoom, ClusterSize, FreshTable, Area, FatOf, HomeOk, TableOf, FatDirectory.Ended, FatDirectory.DistinctShort, FatDirectory.Blank, RootHome, IsFresh, Formatted, RootCleared, SectorCount;
    var f, g := FatFormat.Choose(q, fat32, szAu).value, FreshGeo(q, fat32, szAu);
    FreshFields(q, fat32, szAu);
    FreshPlaces(q, fat32, szAu);
    FreshFormatted(g, q, f, before, disk);
    DatabaseFirst(g);
    FreshFat(g, disk);
    TailCleared(g, q, f, before, disk);
    FreshRoot(g, disk);
    BlankTable(TableOf(g, FatOf(g, disk), RootHome(g), disk));
    SomeSectors(g);
  }

  lemma FreshPlaces(q: FatFormat.Request, fat32: bool, szAu: nat)
    requires q.Valid() && (szAu == 0 || ClusterSize(szAu)) && FatFormat.Choose(q, fat32, szAu).Some?
    requires FatFormat.HasRoom(q, fat32, szAu) && q.bVol + q.szVol <= INVALID
    ensures var f, g := FatFormat.Choose(q, fat32, szAu).value, FreshGeo(q, fat32, szAu);
            && g.csize == f.pau > 0 && g.database == g.fatbase + g.nFats * g.fsize + f.szDir && (f.szDir == 0 <==> f.fsty == FAT32)
  {
    hide FatFormat.Choose, FatFormat.HasRoom, FatFormat.Mount, FatFormat.Stored, FatBytes, FatFormat.TypeOf;
    var f := FatFormat.Choose(q, fat32, szAu).value;
    FreshFields(q, fat32, szAu);
    FatFormat.FormatterMountAgree(q, fat32, szAu);
    FatFormat.ChosenSound(q, fat32, szAu);
    FatFormat.BlockSize(q);
    FatFormat.InRange(q.bVol + FatFormat.SysSectors(q, f));
    FatFormat.DivRange(q.szVol - FatFormat.SysSectors(q, f), f.pau);
  }

  lemma FreshFormatted(g: Geo, q: FatFormat.Request, f: FatFormat.Geometry, before: seq<Sector>, disk: seq<Sector>)
    requires IsFresh(q, f, before, disk) && g.fsType == f.fsty && g.nFats == q.nFat && g.fsize == f.szFat && g.fatbase == q.bVol + f.szRsv
    requires g.nFats in {1, 2} && 0 < g.fsize
    ensures Formatted(g, disk) && |disk| == |before|
  {
    hide Area, Formatted;
    AreaIsFormatted(g, before, if f.fsty == FAT32 then f.pau else f.szDir);
  }

  lemma TailCleared(g: Geo, q: FatFormat.Request, f: FatFormat.Geometry, before: seq<Sector>, disk: seq<Sector>)
    requires IsFresh(q, f, before, disk) && g.fsType == f.fsty && g.nFats == q.nFat && g.fsize == f.szFat && g.fatbase == q.bVol + f.szRsv
    requires g.csize == f.pau > 0 && g.database == g.fatbase + g.nFats * g.fsize + f.szDir && (f.szDir == 0 <==> f.fsty == FAT32)
    ensures RootCleared(g, disk)
  {
    hide Area, ZeroSector;
    var dir := if f.fsty == FAT32 then f.pau else f.szDir;
    var x, n := g.fatbase, g.nFats * g.fsize;
    forall i | x + n <= i < x + n + dir ensures disk[i] == ZeroSector() {
      AreaTail(g.fsType, g.nFats, g.fsize, dir, i - x);
    }
  }

  lemma BlankTable(t: seq<FatDirModel.entry>)
    requires forall i :: 0 <= i < |t| ==> t[i] == FatDirectory.Blank()
    ensures FatDirectory.Ended(t) && FatDirectory.DistinctShort(t)
  {
  }

  lemma SomeSectors(g: Geo)
    requires g.Valid() && (g.fsType != FAT32 ==> g.fatbase + g.nFats * g.fsize < g.database)
    ensures EntryCount(SectorCount(g, RootHome(g))) > 0
  {
  }
}
