/** A directory on a volume: its entries are read and written through the window. */
module FatDir {
  import opened Arith
  import opened FatBase
  import opened FatVolume
  import opened FatChains
  import opened FatAlloc
  import opened FatFileModel
  import opened FatFileState
  import opened FatFile
  import opened FatDirModel
  import opened FatDirectory
  import opened Options
  import FatLongName

  // ---------- clearing a new cluster ----------

  /** The image when the window has been moved to a cluster of zeros, n sectors of which are written. */
  ghost function Clearing(s: Image, x: nat, n: nat): Image
    requires x + n <= |s.disk|
  {
    s.(disk := Overwritten(s.disk, x, seq(n, _ => ZeroSector())), win := ZeroSector(), winsect := x)
  }

  lemma ClearedImage(g: Geo, s: Image, c: nat)
    requires s.Valid(g) && !s.wflag && 2 <= c < g.nFatent
    ensures 0 < ClusterBase(g, c) && ClusterBase(g, c) + g.csize <= g.End() <= |s.disk| && Clst2Sect(g, c) == ClusterBase(g, c)
    ensures var x, t := ClusterBase(g, c), Clearing(s, ClusterBase(g, c), g.csize);
            && t.Valid(g) && |t.View()| == |s.View()| && FatOf(g, t.View()) == FatOf(g, s.View())
            && forall y :: 0 <= y < |s.View()| ==> t.View()[y] == if x <= y < x + g.csize then ZeroSector() else s.View()[y]
  {
    hide FatOf, ZeroSector, Clst2Sect, ClusterBase;
    ValidSizes(g, s);
    ClusterRange(g, c);
    Clst2SectIsBase(g, c);
    DataEnd(g);
    var x := ClusterBase(g, c);
    var t := Clearing(s, x, g.csize);
    ClearedDisk(s, x, g.csize);
    ClearedValid(g, s, x);
    assert s.View() == s.disk;
    assert t.View() == t.disk;
    FatsSame(g, s.View(), t.View());
  }

  lemma ClearedDisk(s: Image, x: nat, n: nat)
    requires x + n <= |s.disk|
    ensures |Clearing(s, x, n).disk| == |s.disk|
    ensures forall y :: 0 <= y < |s.disk| ==> Clearing(s, x, n).disk[y] == if x <= y < x + n then ZeroSector() else s.disk[y]
  {
  }

  lemma ClearedValid(g: Geo, s: Image, x: nat)
    requires s.Valid(g) && g.Valid() && !s.wflag && g.database <= x && x + g.csize <= g.End() <= |s.disk|
    requires g.fatbase + g.nFats * g.fsize <= g.database && g.csize > 0
    ensures Clearing(s, x, g.csize).Valid(g)
  {
    hide ZeroSector, Geo.Valid, Geo.End;
    ClearedDisk(s, x, g.csize);
    FatLast(g);
  }

  lemma OneMoreZero(s: Image, x: nat, n: nat)
    requires x + n + 1 <= |s.disk|
    ensures Overwritten(Clearing(s, x, n).disk, x + n, [ZeroSector()]) == Clearing(s, x, n + 1).disk
  {
    hide ZeroSector;
  }

  /** dir_clear. */
  method Clear(v: Volume, clst: nat) returns (ok: bool)
    requires v.Valid() && 2 <= clst < v.g.nFatent
    modifies v`disk, v`wflag, v`writeFailed, v`winsect, v.win
    ensures ok ==> v.Valid() && v.Fat() == old(v.Fat()) && |v.View()| == old(|v.View()|)
    ensures 0 < ClusterBase(v.g, clst)
    ensures ok ==> forall y :: 0 <= y < |v.View()| && !InFirstFat(v.g, y) && !v.g.InMirror(y) ==>
              v.View()[y] == if ClusterBase(v.g, clst) <= y < ClusterBase(v.g, clst) + v.g.csize then ZeroSector() else old(v.View())[y]
    ensures v.reliable ==> ok
  {
    hide SamePrimary, FatTraffic, Image.Valid, Image.View, Geo.Valid, Geo.InMirror, FatOf, ClusterBase, Clst2Sect, Overwritten, ZeroSector, InFirstFat;
    VolumeFacts(v);
    ghost var s0 := v.Img();
    ClusterPositive(v.g, clst);
    var res := v.SyncWindow();
    if res != FR_OK { return false; }
    ghost var s := v.Img();
    VolumeFacts(v);
    SyncedView(v.g, s0, s);
    ClearedImage(v.g, s, clst);
    var sect := Clst2Sect(v.g, clst);
    v.winsect := sect;
    forall i | 0 <= i < SS { v.win[i] := 0; }
    assert v.win[..] == ZeroSector() by { hide *; assert ZeroSector() == seq(SS, _ => 0); }
    var n := 0;
    NothingCleared(s, sect);
    while n < v.g.csize
      invariant 0 <= n <= v.g.csize && v.Img() == Clearing(s, sect, n)
    {
      var done := v.DiskWrite(sect + n, [v.win[..]]);
      if !done { return false; }
      OneMoreZero(s, sect, n);
      n := n + 1;
      assert v.Img().disk == Clearing(s, sect, n).disk;
    }
    return true;
  }

  lemma NothingCleared(s: Image, x: nat)
    requires x <= |s.disk|
    ensures Clearing(s, x, 0).disk == s.disk
  {
  }

  lemma ClusterPositive(g: Geo, c: nat)
    requires g.Valid() && 2 <= c < g.nFatent
    ensures 0 < ClusterBase(g, c)
  {
    ClusterRange(g, c);
  }

  lemma SyncedView(g: Geo, a: Image, b: Image)
    requires a.Valid(g) && SafeStep(g, a, b) && g.Valid() && g.End() <= |a.View()|
    ensures b.Valid(g) && |b.View()| == |a.View()| && FatOf(g, b.View()) == FatOf(g, a.View())
    ensures forall y :: 0 <= y < |a.View()| && !g.InMirror(y) ==> b.View()[y] == a.View()[y]
  {
    hide FatOf, Image.Valid, Image.View;
    SamePrimaryFat(g, a.View(), b.View());
  }

  // ---------- another cluster for a table ----------

  /** From a to b the table has grown by the cluster c, full of zeros. */
  ghost predicate Longer(g: Geo, a: Image, b: Image, chain: seq<nat>, c: nat) {
    && DirKept(g, a, b, Clusters(chain), Clusters(chain + [c]))
    && Lengthened(TableOf(g, FatOf(g, a.View()), Clusters(chain), a.View()), TableOf(g, FatOf(g, b.View()), Clusters(chain + [c]), b.View()))
  }

  /** From a to b the table is as it was. */
  ghost predicate Unmoved(g: Geo, a: Image, b: Image, h: Home) {
    && Undisturbed(g, a, b) && HomeOk(g, FatOf(g, a.View()), h)
    && TableOf(g, FatOf(g, a.View()), h, a.View()) == TableOf(g, FatOf(g, b.View()), h, b.View())
  }

  /** The part of dir_next that takes a cluster and clears it. */
  method GrowTable(v: Volume, clust: nat, ghost chain: seq<nat>) returns (res: FResult, clst: nat)
    requires v.Valid() && HomeOk(v.g, v.Fat(), Clusters(chain)) && |chain| > 0 && clust == chain[|chain| - 1]
    modifies v`disk, v`wflag, v`writeFailed, v`winsect, v`lastClst, v`freeClst, v.win
    ensures res == FR_OK ==> v.Valid() && Longer(v.g, old(v.Img()), v.Img(), chain, clst) && HomeOk(v.g, v.Fat(), Clusters(chain + [clst]))
    ensures res == FR_DENIED ==> v.Valid() && Unmoved(v.g, old(v.Img()), v.Img(), Clusters(chain)) && HomeOk(v.g, v.Fat(), Clusters(chain)) && Full(v)
    ensures res in {FR_OK, FR_DENIED, FR_DISK_ERR}
    ensures v.reliable ==> res != FR_DISK_ERR
  {
    hide HomeOk, FatOf, Image.Valid, Image.View, Undisturbed, DirKept, TableOf, Lengthened, FatStep, CreateOutcome, Created, Exhausted, Counted, ClusterBase, ZeroSector, Owns;
    ghost var g, s, h := v.g, v.Img(), Clusters(chain);
    VolumeFacts(v);
    SizePositive(g);
    clst := CreateChain(v, clust);
    VolumeFacts(v);
    ghost var t := v.Img();
    if clst <= 1 {
      NotGrown(g, FatOf(g, s.View()), FatOf(g, t.View()), chain, old(v.freeClst) == 0, clst);
      FatStepUndisturbed(g, s, t);
      UndisturbedTable(g, h, s, t);
    }
    if clst == 0 { return FR_DENIED, clst; }
    if clst == 1 { return FR_INT_ERR, clst; }
    if clst == INVALID { return FR_DISK_ERR, clst; }
    HomeGrown(g, FatOf(g, s.View()), FatOf(g, t.View()), chain, old(v.freeClst) == 0, clst);
    var ok := Clear(v, clst);
    if !ok { return FR_DISK_ERR, clst; }
    VolumeFacts(v);
    NewTable(g, s, t, v.Img(), chain, clst);
    return FR_OK, clst;
  }

  /** The volume after stretching, from before the allocation (s) over after it (t) to after the clearing (u). */
  lemma NewTable(g: Geo, s: Image, t: Image, u: Image, chain: seq<nat>, c: nat)
    requires g.Valid() && s.Valid(g) && t.Valid(g) && u.Valid(g) && FatStep(g, s, t) && 2 <= c < g.nFatent && c !in chain
    requires g.End() <= |s.View()| && |t.View()| == |u.View()| && g.End() <= |t.View()| && FatOf(g, u.View()) == FatOf(g, t.View())
    requires HomeOk(g, FatOf(g, s.View()), Clusters(chain)) && HomeOk(g, FatOf(g, t.View()), Clusters(chain + [c]))
    requires OthersKept(FatOf(g, s.View()), FatOf(g, t.View()), Clusters(chain), Clusters(chain + [c]))
    requires 0 < ClusterBase(g, c)
    requires forall y :: 0 <= y < |u.View()| && !InFirstFat(g, y) && !g.InMirror(y) ==>
               u.View()[y] == if ClusterBase(g, c) <= y < ClusterBase(g, c) + g.csize then ZeroSector() else t.View()[y]
    ensures DirKept(g, s, u, Clusters(chain), Clusters(chain + [c]))
    ensures Lengthened(TableOf(g, FatOf(g, s.View()), Clusters(chain), s.View()), TableOf(g, FatOf(g, u.View()), Clusters(chain + [c]), u.View()))
  {
    hide FatOf, Image.Valid, Image.View, HomeOk, TableOf, OthersKept, ZeroSector, FatDirectory.Lengthened, ClusterOf;
    var h, k, x := Clusters(chain), Clusters(chain + [c]), ClusterBase(g, c);
    ClusterRange(g, c);
    DataEnd(g);
    assert (chain + [c])[|chain|] == c;
    forall y | x <= y < x + g.csize ensures Owns(g, k, y) {
      ClusterOfSector(g, c, y - x);
    }
    forall y | 0 <= y < g.End() && Owns(g, h, y) ensures u.View()[y] == s.View()[y] {
      BehindFats(g, y);
      if x <= y < x + g.csize {
        ClusterOfSector(g, c, y - x);
      }
    }
    forall y: nat | x <= y < x + g.csize ensures u.View()[y] == ZeroSector() {
      BehindFats(g, y);
    }
    TableGrown(g, FatOf(g, s.View()), FatOf(g, u.View()), chain, c, s.View(), u.View());
  }

  // ---------- the directory object ----------

  class Dir {
    const v: Volume
    const sclust: nat
    const dirbase: nat
    const nRoot: nat
    var dptr: nat
    var clust: nat
    var sect: nat
    ghost var home: Home

    /** The start cluster, or the place of the root directory, is where the table begins. */
    ghost predicate Begins(h: Home) {
      match h
      case Fixed(first, count) => sclust == 0 && v.g.fsType != FAT32 && dirbase == first && nRoot == 16 * count
      case Clusters(chain) =>
        && |chain| > 0 && chain[0] == (if sclust == 0 then dirbase else sclust)
        && (sclust == 0 ==> v.g.fsType == FAT32)
    }

    ghost predicate Valid()
      reads this`home, v, v.win
    {
      v.Valid() && HomeOk(v.g, v.Fat(), home) && Begins(home)
    }

    /** The entries of the directory. */
    ghost function Table(): (r: seq<entry>)
      requires Valid()
      reads this`home, v, v.win
      ensures |r| == EntryCount(SectorCount(v.g, home))
    {
      VolumeFacts(v);
      TableOf(v.g, v.Fat(), home, v.View())
    }

    ghost function Now(): Image
      requires Valid()
      reads this`home, v, v.win
    {
      v.Img()
    }

    /** The directory is as it was; of the volume, only the FATs may have been written to, and not changed. */
    ghost predicate Same(s: Image, h: Home, t: seq<entry>)
      reads this`home, v, v.win
    {
      Valid() && home == h && Undisturbed(v.g, s, Now()) && Table() == t
    }

    /** The directory is as it was, or longer by entries never used. */
    ghost predicate Stretched(s: Image, h: Home, t: seq<entry>)
      reads this`home, v, v.win
    {
      Valid() && DirKept(v.g, s, Now(), h, home) && Lengthened(t, Table())
    }

    /** The object stands at entry i. */
    ghost predicate At(i: nat)
      reads this
    {
      v.g.csize > 0 && AtEntry(v.g, home, i, dptr, sect, clust)
    }

    constructor (v: Volume, sclust: nat, dirbase: nat, nRoot: nat, ghost h: Home)
      requires v.Valid() && HomeOk(v.g, v.Fat(), h)
      requires match h
        case Fixed(first, count) => sclust == 0 && v.g.fsType != FAT32 && dirbase == first && nRoot == 16 * count
        case Clusters(chain) => |chain| > 0 && chain[0] == (if sclust == 0 then dirbase else sclust) && (sclust == 0 ==> v.g.fsType == FAT32)
      ensures Valid() && this.v == v && home == h
    {
      hide HomeOk, FatOf, Image.Valid, Image.View;
      this.v, this.sclust, this.dirbase, this.nRoot := v, sclust, dirbase, nRoot;
      dptr, clust, sect := 0, 0, 0;
      home := h;
    }

    /** Where the table begins, in the fields of the object. */
    lemma Start()
      requires Valid()
      ensures v.g.csize > 0 && Undisturbed(v.g, Now(), Now())
      ensures home.Fixed? ==> sclust == 0 && v.g.fsType != FAT32 && dirbase == home.first && nRoot == 16 * home.count
      ensures home.Clusters? ==> |home.chain| > 0 && home.chain[0] >= 2 && home.chain[0] == (if sclust == 0 then dirbase else sclust)
      ensures home.Clusters? && sclust == 0 ==> v.g.fsType == FAT32
    {
      hide HomeOk, FatOf, Image.Valid, Image.View, Undisturbed;
      VolumeFacts(v);
      SizePositive(v.g);
      UndisturbedStays(v.g, v.Img());
      StartCluster(v.g, v.Fat(), home);
    }

    lemma FixedPlace(ofs: nat)
      requires Valid() && home.Fixed? && ofs % 32 == 0 && ofs < 0x20_0000
      ensures v.g.csize > 0
      ensures home.first > 0
      ensures if ofs / 32 < 16 * home.count then AtEntry(v.g, home, ofs / 32, ofs, home.first + ofs / SS, 0) else ofs / 32 >= |Table()|
    {
      hide HomeOk, FatOf, Image.Valid, Image.View, TableOf, AtEntry;
      VolumeFacts(v);
      SizePositive(v.g);
      FixedBase(v.g, v.Fat(), home);
      if ofs / 32 < 16 * home.count {
        FixedPosition(v.g, v.Fat(), home, ofs);
      }
    }

    lemma ClusterPlace(k: nat, o: nat, ofs: nat)
      requires Valid() && home.Clusters? && k < |home.chain| && o < v.g.csize * SS
      requires ofs % 32 == 0 && ofs == k * (v.g.csize * SS) + o && ofs < 0x20_0000
      ensures v.g.csize > 0 && 2 <= home.chain[k] < v.g.nFatent && Clst2Sect(v.g, home.chain[k]) > 0
      ensures AtEntry(v.g, home, ofs / 32, ofs, Clst2Sect(v.g, home.chain[k]) + o / SS, home.chain[k])
    {
      hide HomeOk, FatOf, Image.Valid, Image.View, TableOf, AtEntry, Clst2Sect;
      VolumeFacts(v);
      SizePositive(v.g);
      ClusterPosition(v.g, v.Fat(), home.chain, k, o, ofs);
    }

    lemma Behind(ofs: nat)
      requires Valid() && ofs >= 0x20_0000
      ensures ofs / 32 >= |Table()|
    {
      hide HomeOk, FatOf, Image.Valid, Image.View, TableOf;
      VolumeFacts(v);
    }

    /** dir_sdi. */
    method Sdi(ofs: nat) returns (res: FResult)
      requires Valid()
      modifies this`dptr, this`clust, this`sect, v`disk, v`wflag, v`writeFailed, v`winsect, v.win
      ensures Same(old(Now()), old(home), old(Table())) && v.g.csize > 0
      ensures res == FR_OK ==> ofs % 32 == 0 && At(ofs / 32)
      ensures ofs % 32 == 0 && ofs / 32 < |Table()| ==> res == FR_OK || res == FR_DISK_ERR
      ensures res in {FR_OK, FR_DISK_ERR, FR_INT_ERR}
      ensures v.reliable ==> res != FR_DISK_ERR
    {
      hide Dir.Valid, Dir.Table, Now, Begins, Undisturbed, AtEntry, Clst2Sect;
      Start();
      if ofs >= 0x20_0000 { Behind(ofs); }
      if ofs >= 0x20_0000 || ofs % 32 != 0 { return FR_INT_ERR; }
      dptr := ofs;
      var clst := sclust;
      if clst == 0 && v.g.fsType == FAT32 { clst := dirbase; }
      var o := ofs;
      if clst == 0 {
        FixedPlace(ofs);
        if ofs / 32 >= nRoot { return FR_INT_ERR; }
        sect := dirbase;
      } else {
        ghost var k;
        res, clst, o, k := Follow(clst, ofs);
        if res != FR_OK { return; }
        ClusterPlace(k, o, ofs);
        sect := Clst2Sect(v.g, clst);
      }
      clust := clst;
      if sect == 0 { return FR_INT_ERR; }
      sect := sect + o / SS;
      return FR_OK;
    }

    /** The loop of dir_sdi over the chain. */
    method Follow(first: nat, ofs: nat) returns (res: FResult, clst: nat, o: nat, ghost k: nat)
      requires Valid() && home.Clusters? && |home.chain| > 0 && first == home.chain[0] && ofs % 32 == 0
      modifies v`disk, v`wflag, v`writeFailed, v`winsect, v.win
      ensures Same(old(Now()), old(home), old(Table()))
      ensures res == FR_OK ==> k < |home.chain| && clst == home.chain[k] && ofs == k * (v.g.csize * SS) + o && o < v.g.csize * SS
      ensures res == FR_INT_ERR ==> ofs / 32 >= |Table()|
      ensures res in {FR_OK, FR_DISK_ERR, FR_INT_ERR}
      ensures v.reliable ==> res != FR_DISK_ERR
    {
      hide HomeOk, FatOf, Image.Valid, Image.View, Undisturbed, FatStep, TableOf;
      ghost var g, s := v.g, v.Img();
      VolumeFacts(v);
      UndisturbedStays(g, s);
      SizePositive(g);
      var csz := v.g.csize * SS;
      o, clst, k := ofs, first, 0;
      while o >= csz
        invariant Valid() && Undisturbed(g, s, v.Img()) && v.Fat() == old(v.Fat()) && Table() == old(Table())
        invariant k < |home.chain| && clst == home.chain[k] && ofs == k * csz + o
        decreases o
      {
        FollowTable(g, v.Fat(), home.chain, k);
        VolumeFacts(v);
        ghost var t := v.Img();
        clst := GetFat(v, clst);
        VolumeFacts(v);
        FatStepUndisturbed(g, t, v.Img());
        UndisturbedTable(g, home, t, v.Img());
        UndisturbedTrans(g, s, t, v.Img());
        if clst == INVALID { return FR_DISK_ERR, clst, o, k; }
        if clst < 2 || clst >= v.g.nFatent {
          BehindTable(g, home.chain, k, o, ofs);
          return FR_INT_ERR, clst, o, k;
        }
        NextStep(k, csz);
        o := o - csz;
        k := k + 1;
      }
      return FR_OK, clst, o, k;
    }

    /** What dir_next does and answers at entry i; it tells that the volume is full, and when the table cannot grow. */
    ghost predicate Advanced(s: Image, h: Home, t: seq<entry>, stretch: bool, i: nat, res: FResult)
      reads this, v, v.win
    {
      && (res == FR_OK ==> Stretched(s, h, t) && At(i + 1) && (stretch || i + 1 < |t|))
      && (res == FR_OK && i + 1 < |t| ==> Same(s, h, t))
      && (res == FR_DENIED ==> stretch && Valid() && Full(v))
      && (res == FR_NO_FILE && stretch ==> h.Fixed? || |t| == LIMIT)
      && (res in {FR_NO_FILE, FR_DENIED} ==> i + 1 == |t|)
      && (res == FR_NO_FILE ==> sect == 0)
      && (res in {FR_NO_FILE, FR_DENIED} || !stretch ==> Same(s, h, t))
      && res in {FR_OK, FR_NO_FILE, FR_DENIED, FR_DISK_ERR}
    }

    /** Without stretching, dir_next only ever goes on to an entry that is there. */
    lemma Inner(s: Image, h: Home, t: seq<entry>, i: nat, res: FResult)
      requires Advanced(s, h, t, false, i, res) && i + 1 < |t|
      ensures Same(s, h, t) && res in {FR_OK, FR_DISK_ERR} && (res == FR_OK ==> At(i + 1))
    {
      hide Dir.Valid, Now, Dir.Table, Undisturbed, AtEntry, Stretched;
    }

    /** dir_next: at the end of the table it is stretched by a cluster of zeros, if that is asked for. */
    method Next(stretch: bool, ghost i: nat) returns (res: FResult)
      requires Valid() && At(i)
      modifies this`dptr, this`clust, this`sect, this`home
      modifies v`disk, v`wflag, v`writeFailed, v`winsect, v`lastClst, v`freeClst, v.win
      ensures Advanced(old(Now()), old(home), old(Table()), stretch, i, res)
      ensures v.reliable ==> res != FR_DISK_ERR
    {
      hide HomeOk, FatOf, Image.Valid, Image.View, Undisturbed, DirKept, TableOf, AtEntry, AtClusterEnd, Clst2Sect, Lengthened, EntryCount, SectorCount;
      ghost var g, s := v.g, v.Img();
      VolumeFacts(v);
      SizePositive(g);
      Stays(i);
      EntryFacts(g, home, i, dptr, sect, clust);
      FixedHasNoCluster(g, v.Fat(), home, i, dptr, sect, clust);
      var ofs := dptr + 32;
      if ofs >= 0x20_0000 { sect := 0; }
      if sect == 0 { return FR_NO_FILE; }
      if ofs % SS == 0 {
        if clust == 0 {
          NextFixed(g, home, i, dptr, sect, clust);
          sect := sect + 1;
          if ofs / 32 >= nRoot {
            sect := 0;
            return FR_NO_FILE;
          }
        } else {
          if ofs / SS % v.g.csize == 0 {
            NextCluster(g, v.Fat(), home, i, dptr, sect, clust);
            sect := sect + 1;
            DivNat(i / 16, g.csize);
            res := NextOf(stretch, i, i / 16 / g.csize, ofs);
            return;
          }
          NextInCluster(g, home, i, dptr, sect, clust);
          sect := sect + 1;
        }
      } else {
        NextSameSector(g, home, i, dptr, sect, clust);
      }
      InTable(g, home, i + 1, ofs, sect, clust);
      dptr := ofs;
      return FR_OK;
    }

    /** Nothing has changed yet. */
    lemma Stays(i: nat)
      requires Valid() && At(i)
      ensures Undisturbed(v.g, Now(), Now()) && DirKept(v.g, Now(), Now(), home, home) && Lengthened(Table(), Table())
    {
      hide HomeOk, FatOf, Image.Valid, Image.View, TableOf, AtEntry;
      VolumeFacts(v);
      UndisturbedStays(v.g, v.Img());
      UndisturbedKept(v.g, v.Img(), v.Img(), home);
    }

    /** The part of dir_next that goes to another cluster. */
    method NextOf(stretch: bool, ghost i: nat, ghost j: nat, ofs: nat) returns (res: FResult)
      requires Valid() && v.g.csize > 0 && v.g.nFatent >= 2 && ofs < 0x20_0000 && AtClusterEnd(v.g, home, j, i + 1, ofs, clust)
      modifies this`dptr, this`clust, this`sect, this`home
      modifies v`disk, v`wflag, v`writeFailed, v`winsect, v`lastClst, v`freeClst, v.win
      ensures Advanced(old(Now()), old(home), old(Table()), stretch, i, res) && (res == FR_NO_FILE ==> !stretch)
      ensures v.reliable ==> res != FR_DISK_ERR
    {
      hide HomeOk, FatOf, Image.Valid, Image.View, Undisturbed, DirKept, TableOf, AtEntry, Clst2Sect, Lengthened, FatStep;
      ghost var g, s, h := v.g, v.Img(), home;
      VolumeFacts(v);
      SizePositive(g);
      FollowTable(g, v.Fat(), h.chain, j);
      var clst := GetFat(v, clust);
      VolumeFacts(v);
      FatStepUndisturbed(g, s, v.Img());
      UndisturbedTable(g, h, s, v.Img());
      UndisturbedKept(g, s, v.Img(), h);
      SameLength(Table());
      if clst <= 1 { return FR_INT_ERR; }
      if clst == INVALID { return FR_DISK_ERR; }
      if clst >= v.g.nFatent {
        if !stretch {
          sect := 0;
          return FR_NO_FILE;
        }
        ghost var t := v.Img();
        res := Stretch(i, ofs);
        if res == FR_OK {
          DirKeptTrans(g, s, t, v.Img(), h, h, home);
        } else if res == FR_DENIED {
          UndisturbedTrans(g, s, t, v.Img());
        }
        return;
      }
      InTable(g, h, i + 1, ofs, Clst2Sect(g, clst), clst);
      clust := clst;
      sect := Clst2Sect(v.g, clst);
      dptr := ofs;
      return FR_OK;
    }

    /** What stretching at the last entry i does and answers. */
    ghost predicate Extended(s: Image, h: Home, t: seq<entry>, i: nat, res: FResult)
      reads this, v, v.win
    {
      && (res == FR_OK ==> Stretched(s, h, t) && At(i + 1))
      && (res == FR_DENIED ==> Same(s, h, t) && Full(v))
      && res in {FR_OK, FR_DENIED, FR_DISK_ERR}
    }

    /** The offset is that behind so many clusters. */
    ghost predicate IsBehind(ofs: nat, clusters: nat) {
      ofs == clusters * (v.g.csize * SS)
    }

    /** The first place in the last cluster. */
    lemma LastPlace(ofs: nat)
      requires Valid() && home.Clusters? && |home.chain| > 0 && IsBehind(ofs, |home.chain| - 1) && ofs % 32 == 0 && ofs < 0x20_0000
      ensures v.g.csize > 0 && v.g.nFatent >= 2
      ensures var c := home.chain[|home.chain| - 1];
              2 <= c < v.g.nFatent && AtEntry(v.g, home, ofs / 32, ofs, Clst2Sect(v.g, c), c)
    {
      hide Dir.Valid, Dir.Table, Now, Undisturbed, Geo.Valid, AtEntry, Clst2Sect;
      Start();
      ClusterPlace(|home.chain| - 1, 0, ofs);
    }

    /** Stretching the table: a new cluster, full of zeros. */
    method Stretch(ghost i: nat, ofs: nat) returns (res: FResult)
      requires Valid() && v.g.csize > 0 && home.Clusters? && |home.chain| > 0 && clust == home.chain[|home.chain| - 1]
      requires ofs == 32 * (i + 1) < 0x20_0000 && i + 1 == |Table()| && IsBehind(ofs, |home.chain|)
      modifies this`dptr, this`clust, this`sect, this`home
      modifies v`disk, v`wflag, v`writeFailed, v`winsect, v`lastClst, v`freeClst, v.win
      ensures Extended(old(Now()), old(home), old(Table()), i, res)
      ensures v.reliable ==> res != FR_DISK_ERR
    {
      hide IsBehind, Full, Capacity, Geo.Valid, Volume.Valid, Volume.Img, Volume.View, Volume.Fat, Dir.Valid, Dir.Table, Now, Begins, Same, Stretched, Longer, Unmoved, HomeOk, FatOf, Image.Valid, Image.View, TableOf, AtEntry, Clst2Sect, Exhausted;
      ghost var s, chain := Now(), home.chain;
      Parts();
      var clst;
      res, clst := GrowTable(v, clust, chain);
      if res == FR_DENIED { Unchanged(s); }
      if res != FR_OK { return; }
      home := Clusters(chain + [clst]);
      Adopted(s, chain, clst);
      LastPlace(ofs);
      clust := clst;
      sect := Clst2Sect(v.g, clst);
      dptr := ofs;
    }

    /** What the directory consists of. */
    lemma Parts()
      requires Valid()
      ensures v.g.Valid() && v.Valid() && HomeOk(v.g, v.Fat(), home) && Begins(home) && Now() == v.Img()
      ensures v.g.End() <= |v.View()| && Table() == TableOf(v.g, FatOf(v.g, v.Img().View()), home, v.Img().View())
    {
      VolumeFacts(v);
    }

    /** The directory has not changed with the volume. */
    lemma Unchanged(s: Image)
      requires v.Valid() && Unmoved(v.g, s, v.Img(), home) && HomeOk(v.g, v.Fat(), home) && Begins(home)
      ensures Same(s, home, TableOf(v.g, FatOf(v.g, s.View()), home, s.View()))
    {
      hide HomeOk, FatOf, Image.Valid, Image.View, Undisturbed, TableOf;
      VolumeFacts(v);
    }

    /** The directory has taken the grown table for its own. */
    lemma Adopted(s: Image, chain: seq<nat>, c: nat)
      requires v.Valid() && Longer(v.g, s, v.Img(), chain, c) && HomeOk(v.g, v.Fat(), Clusters(chain + [c]))
      requires Begins(Clusters(chain)) && home == Clusters(chain + [c])
      ensures Valid() && Stretched(s, Clusters(chain), TableOf(v.g, FatOf(v.g, s.View()), Clusters(chain), s.View()))
    {
      hide HomeOk, FatOf, Image.Valid, Image.View, DirKept, TableOf, Lengthened;
      VolumeFacts(v);
      assert (chain + [c])[0] == chain[0];
    }

    /** Moves the window to the sector of the entry, and reads the entry. */
    method Load(ghost i: nat) returns (res: FResult, d: entry)
      requires Valid() && At(i)
      modifies v`disk, v`wflag, v`writeFailed, v`winsect, v.win
      ensures Same(old(Now()), old(home), old(Table()))
      ensures res == FR_OK || res == FR_DISK_ERR
      ensures res == FR_OK ==> i < |Table()| && d == Table()[i] && v.winsect == sect < |v.disk|
      ensures v.reliable ==> res == FR_OK
    {
      hide HomeOk, FatOf, Image.Valid, Image.View, Undisturbed, TableOf, AtEntry, Coherent, SafeStep, EntryOf;
      ghost var g, s := v.g, v.Img();
      VolumeFacts(v);
      SizePositive(g);
      InTable(g, home, i, dptr, sect, clust);
      Reachable(g, v.Fat(), home, i, dptr, sect, clust);
      EntryThere(g, v.Fat(), home, i, dptr, sect, clust, v.View());
      res := v.MoveWindow(sect);
      VolumeFacts(v);
      CoherentUndisturbed(g, s, v.Img());
      UndisturbedTable(g, home, s, v.Img());
      d := EntryOf(v.win[..], dptr % SS / 32);
    }

    /** dir_find. */
    method Find(up: FatLongName.unit -> FatLongName.unit, q: Target) returns (res: FResult, at: nat, blk: Option<nat>)
      requires Valid() && q.Valid()
      modifies this`dptr, this`clust, this`sect, this`home
      modifies v`disk, v`wflag, v`writeFailed, v`winsect, v`lastClst, v`freeClst, v.win
      ensures Same(old(Now()), old(home), old(Table())) && v.g.csize > 0
      ensures res == FR_OK ==> FatDirectory.Find(up, q, Table()) == Hit(at, blk) && At(at)
      ensures res == FR_NO_FILE ==> FatDirectory.Find(up, q, Table()) == Miss
      ensures res in {FR_OK, FR_NO_FILE, FR_DISK_ERR}
      ensures v.reliable ==> res != FR_DISK_ERR
    {
      hide Dir.Valid, Dir.Table, Now, HomeOk, FatOf, Image.Valid, Image.View, Undisturbed, TableOf, AtEntry, DirKept, Lengthened, Stops, FatDirectory.Step;
      ghost var g, s, t := v.g, Now(), Table();
      SomeEntries();
      res := Sdi(0);
      at, blk := 0, None;
      if res != FR_OK { return; }
      var st := RESET;
      while true
        invariant Valid() && home == old(home) && Undisturbed(g, s, Now()) && Table() == t && At(at) && at < |t|
        invariant FindFrom(up, q, t, at, st) == FatDirectory.Find(up, q, t)
        decreases |t| - at
      {
        var d, found, next;
        ghost var m := Now();
        res, d := Load(at);
        UndisturbedTrans(g, s, m, Now());
        if res != FR_OK { return; }
        if d[0] == 0 { return FR_NO_FILE, at, st.blk; }
        found, next := Look(up, q, d, at, st);
        if found { return FR_OK, at, st.blk; }
        m := Now();
        res := Next(false, at);
        UndisturbedTrans(g, s, m, Now());
        if res != FR_OK { return; }
        at, st := at + 1, next;
      }
    }

    /** There is at least one entry. */
    lemma SomeEntries()
      requires Valid()
      ensures |Table()| > 0 && v.g.csize > 0 && Undisturbed(v.g, Now(), Now()) && DirKept(v.g, Now(), Now(), home, home)
    {
      hide FatOf, Image.Valid, Image.View, TableOf, WellFormed, Chains, Undisturbed, DirKept;
      VolumeFacts(v);
      SizePositive(v.g);
      UndisturbedStays(v.g, v.Img());
      UndisturbedKept(v.g, v.Img(), v.Img(), home);
      if home.Clusters? {
        MulMonotone(v.g.csize, 1, |home.chain|);
      }
    }

    /** dir_alloc: at is the last of n free entries in a row; the entry before them is in use. */
    method Alloc(n: nat) returns (res: FResult, at: nat)
      requires Valid() && n > 0
      modifies this`dptr, this`clust, this`sect, this`home
      modifies v`disk, v`wflag, v`writeFailed, v`winsect, v`lastClst, v`freeClst, v.win
      ensures res == FR_OK ==> Stretched(old(Now()), old(home), old(Table())) && At(at) && IsRun(Table(), at + 1 - n, n)
      ensures res == FR_DENIED ==> Valid() && (Full(v) || home.Fixed? || |Table()| == LIMIT)
      ensures res == FR_DENIED ==> forall start :: 0 <= start && start + n <= |Table()| ==> !AllFree(Table(), start, n)
      ensures res in {FR_OK, FR_DENIED, FR_DISK_ERR}
      ensures v.reliable ==> res != FR_DISK_ERR
    {
      hide Dir.Valid, Dir.Table, Now, HomeOk, FatOf, Image.Valid, Image.View, Undisturbed, TableOf, AtEntry, DirKept, Lengthened, EntryCount, SectorCount, IsFree;
      ghost var g, s, h, t := v.g, Now(), home, Table();
      SomeEntries();
      res := Sdi(0);
      at := 0;
      if res != FR_OK { return; }
      KeptUndisturbed(g, s, s, Now(), h, h);
      SameLength(t);
      var c := 0;
      while true
        invariant Valid() && DirKept(g, s, Now(), h, home) && Lengthened(t, Table()) && At(at) && at < |Table()|
        invariant c < n && c <= at && IsRun(Table(), at - c, c) && NoneBefore(Table(), at, n)
        decreases LIMIT - at
      {
        var d;
        ghost var m := Now();
        res, d := Load(at);
        KeptUndisturbed(g, s, m, Now(), h, home);
        if res != FR_OK { return; }
        RunNext(Table(), at, c, n);
        if IsFree(d) {
          c := c + 1;
          if c == n { return; }
        } else {
          c := 0;
        }
        ghost var m1, h1, t1 := Now(), home, Table();
        res := Next(true, at);
        if res == FR_NO_FILE { return FR_DENIED, at; }
        if res != FR_OK { return; }
        DirKeptTrans(g, s, m1, Now(), h, h1, home);
        LengthenedTrans(t, t1, Table());
        RunStays(t1, Table(), at + 1 - c, c, n);
        at := at + 1;
        Inside(at);
      }
    }

    lemma Inside(i: nat)
      requires Valid() && At(i)
      ensures i < |Table()| <= LIMIT
    {
      hide HomeOk, FatOf, Image.Valid, Image.View, TableOf;
    }

    /** Writes the entry, whose sector is in the window. */
    method Put(ghost i: nat, d: entry)
      requires Valid() && At(i) && v.winsect == sect < |v.disk|
      modifies v`wflag, v.win
      ensures Valid() && i < old(|Table()|) && Table() == old(Table())[i := d]
      ensures DirKept(v.g, old(Now()), Now(), home, home)
    {
      hide HomeOk, FatOf, Image.Valid, Image.View, TableOf, AtEntry, DirKept, WithEntry;
      ghost var g, s, t := v.g, v.Img(), Table();
      VolumeFacts(v);
      SizePositive(g);
      Reachable(g, v.Fat(), home, i, dptr, sect, clust);
      Inside(i);
      EntryThere(g, v.Fat(), home, i, dptr, sect, clust, v.View());
      ghost var w := WithEntry(v.win[..], i % 16, d);
      DirtiedImage(g, s, w);
      StoredEntry(g, home, i, dptr, sect, clust, s, w, d);
      var off := dptr % SS;
      forall j | 0 <= j < 32 { v.win[off + j] := d[j]; }
      v.wflag := true;
      WindowPatched(s.win, i % 16, d, v.win[..]);
      assert v.Img() == Dirtied(s, w);
      VolumeFacts(v);
    }

    // ---------- dir_register ----------

    /** The numbered short names are tried in turn, up to the 99th. */
    method Number(up: FatLongName.unit -> FatLongName.unit, buf: seq<FatLongName.unit>, numbered: nat -> ShortName)
      returns (res: FResult, sfn: ShortName)
      requires Valid() && |buf| == FatLongName.BUFFER
      modifies this`dptr, this`clust, this`sect, this`home
      modifies v`disk, v`wflag, v`writeFailed, v`winsect, v`lastClst, v`freeClst, v.win
      ensures Same(old(Now()), old(home), old(Table()))
      ensures res == FR_NO_FILE ==> IsFirstUnused(up, Table(), buf, numbered, sfn)
      ensures res == FR_DENIED ==> UsedBelow(up, Table(), buf, numbered, 100)
      ensures res in {FR_NO_FILE, FR_DENIED, FR_DISK_ERR}
      ensures v.reliable ==> res != FR_DISK_ERR
    {
      hide Dir.Valid, Dir.Table, Now, HomeOk, FatOf, Image.Valid, Image.View, Undisturbed, TableOf, FatDirectory.Find;
      ghost var g, s, t := v.g, Now(), Table();
      SomeEntries();
      var n := 1;
      while n < 100
        invariant 1 <= n <= 100 && UsedBelow(up, t, buf, numbered, n)
        invariant Valid() && home == old(home) && Undisturbed(g, s, Now()) && Table() == t
      {
        sfn := numbered(n);
        ghost var m := Now();
        var at, blk;
        res, at, blk := Find(up, Target(buf, sfn, false, true));
        UndisturbedTrans(g, s, m, Now());
        if res != FR_OK { return; }
        n := n + 1;
      }
      return FR_DENIED, numbered(0);
    }

    /** The pieces of the name, the topmost one first, are stored from entry a on. */
    method StorePieces(buf: seq<FatLongName.unit>, nEnt: nat, sum: byte, ghost a: nat, ghost name: seq<FatLongName.unit>) returns (res: FResult)
      requires Valid() && At(a) && FatLongName.IsName(name) && FatLongName.Holds(buf, name)
      requires nEnt == FatLongName.Pieces(name) && a + nEnt < |Table()|
      modifies this`dptr, this`clust, this`sect, this`home
      modifies v`disk, v`wflag, v`writeFailed, v`winsect, v`lastClst, v`freeClst, v.win
      ensures res == FR_OK ==> Valid() && At(a + nEnt) && home == old(home) && DirKept(v.g, old(Now()), Now(), home, home)
      ensures res == FR_OK ==> PiecesStored(old(Table()), Table(), a, nEnt, name, sum)
      ensures res in {FR_OK, FR_DISK_ERR}
      ensures v.reliable ==> res == FR_OK
    {
      hide Dir.Valid, Dir.Table, Now, HomeOk, FatOf, Image.Valid, Image.View, Undisturbed, TableOf, AtEntry, DirKept, FatLongName.IsWritten, FatLongName.Holds, Lengthened, PiecesStored, Advanced, Stretched;
      ghost var g, s, h, t := v.g, Now(), home, Table();
      Stays(a);
      NoneStored(t, a, name, sum);
      var dir := new byte[32](_ => 0);
      var left := nEnt;
      while left > 0
        invariant 0 <= left <= nEnt && Valid() && home == h && At(a + nEnt - left) && DirKept(g, s, Now(), h, h)
        invariant |Table()| == |t| && PiecesStored(t, Table(), a, nEnt - left, name, sum)
      {
        ghost var i, u := a + nEnt - left, Table();
        var d;
        ghost var m := Now();
        res, d := Load(i);
        KeptUndisturbed(g, s, m, Now(), h, h);
        if res != FR_OK { return; }
        FatLongName.PutLfn(buf, dir, left, sum, name);
        m := Now();
        Put(i, dir[..]);
        DirKeptTrans(g, s, m, Now(), h, h, h);
        OneMorePiece(t, u, Table(), a, nEnt - left, name, sum, dir[..]);
        m := Now();
        ghost var w := Table();
        res := Next(false, i);
        Inner(m, h, w, i, res);
        if res != FR_OK { return; }
        KeptUndisturbed(g, s, m, Now(), h, h);
        left := left - 1;
      }
      return FR_OK;
    }

    /** The part of dir_register behind the allocation: last is the last of the entries allocated. */
    method StoreName(buf: seq<FatLongName.unit>, flags: Flags, sfn: ShortName, nEnt: nat, ghost last: nat, ghost name: seq<FatLongName.unit>) returns (res: FResult)
      requires Valid() && At(last) && FatLongName.IsName(name) && FatLongName.Holds(buf, name)
      requires nEnt == EntriesFor(flags, name) <= last + 1
      modifies this`dptr, this`clust, this`sect, this`home
      modifies v`disk, v`wflag, v`writeFailed, v`winsect, v`lastClst, v`freeClst, v.win
      ensures res == FR_OK ==> Valid() && home == old(home) && DirKept(v.g, old(Now()), Now(), home, home)
      ensures res == FR_OK ==> NameStored(old(Table()), Table(), last + 1 - nEnt, flags, name, sfn)
      ensures res in {FR_OK, FR_DISK_ERR}
      ensures v.reliable ==> res == FR_OK
    {
      hide Dir.Valid, Dir.Table, Now, HomeOk, FatOf, Image.Valid, Image.View, Undisturbed, TableOf, AtEntry, DirKept, FatLongName.IsWritten, FatLongName.Holds, Lengthened, PiecesStored, FatLongName.SumFrom;
      ghost var g, s, h, t := v.g, Now(), home, Table();
      Stays(last);
      Inside(last);
      var sum := FatLongName.SumSfn(sfn);
      assert sfn[..11] == sfn;
      NoneStored(t, last + 1 - nEnt, name, sum);
      if flags.lfn {
        EntryFacts(g, home, last, dptr, sect, clust);
        res := Sdi(dptr - (nEnt - 1) * 32);
        if res != FR_OK { return FR_DISK_ERR; }
        KeptUndisturbed(g, s, s, Now(), h, h);
        ghost var m := Now();
        res := StorePieces(buf, nEnt - 1, sum, last + 1 - nEnt, name);
        if res != FR_OK { return; }
        DirKeptTrans(g, s, m, Now(), h, h, h);
      }
      ghost var m, u := Now(), Table();
      res := StoreShort(last, sfn, flags.nt);
      if res == FR_OK {
        DirKeptTrans(g, s, m, Now(), h, h, h);
        NameThere(t, u, Table(), last + 1 - nEnt, flags, name, sfn);
      }
    }

    /** The short entry. */
    method StoreShort(ghost i: nat, sfn: ShortName, nt: byte) returns (res: FResult)
      requires Valid() && At(i)
      modifies v`disk, v`wflag, v`writeFailed, v`winsect, v.win
      ensures Valid() && DirKept(v.g, old(Now()), Now(), home, home)
      ensures res == FR_OK ==> i < old(|Table()|) && Table() == old(Table())[i := NewEntry(sfn, nt)]
      ensures res in {FR_OK, FR_DISK_ERR}
      ensures v.reliable ==> res == FR_OK
    {
      hide Dir.Valid, Dir.Table, Now, HomeOk, FatOf, Image.Valid, Image.View, Undisturbed, TableOf, AtEntry, DirKept;
      ghost var g, s, h := v.g, Now(), home;
      Stays(i);
      var d;
      res, d := Load(i);
      KeptUndisturbed(g, s, s, Now(), h, h);
      if res != FR_OK { return; }
      ghost var m := Now();
      Put(i, NewEntry(sfn, nt));
      DirKeptTrans(g, s, m, Now(), h, h, h);
    }

    /**
     * dir_register: fn is the short name with its flags; the working buffer holds the name. On success the entries
     * from at on of the table, stretched to t, have been replaced.
     */
    method Register(up: FatLongName.unit -> FatLongName.unit, buf: seq<FatLongName.unit>, fn: ShortName, flags: Flags,
                    numbered: nat -> ShortName, ghost name: seq<FatLongName.unit>)
      returns (res: FResult, sfn: ShortName, ghost at: nat, ghost t: seq<entry>)
      requires Valid() && FatLongName.IsName(name) && FatLongName.Holds(buf, name)
      modifies this`dptr, this`clust, this`sect, this`home
      modifies v`disk, v`wflag, v`writeFailed, v`winsect, v`lastClst, v`freeClst, v.win
      ensures res == FR_INVALID_NAME <==> flags.invalid
      ensures res == FR_OK ==> Valid() && DirKept(v.g, old(Now()), Now(), old(home), home) && Registered(old(Table()), t, Table(), at, flags, name, sfn)
      ensures res == FR_OK ==> if flags.loss then IsFirstUnused(up, old(Table()), buf, numbered, sfn) else sfn == fn
      ensures res == FR_DENIED ==>
                || (flags.loss && UsedBelow(up, old(Table()), buf, numbered, 100))
                || (Valid() && (Full(v) || home.Fixed? || |Table()| == LIMIT) && NoneBefore(Table(), |Table()|, EntriesFor(flags, name)))
      ensures res in {FR_OK, FR_INVALID_NAME, FR_DENIED, FR_DISK_ERR}
      ensures v.reliable ==> res != FR_DISK_ERR
    {
      hide Dir.Valid, Dir.Table, Now, HomeOk, FatOf, Image.Valid, Image.View, Undisturbed, TableOf, AtEntry, DirKept, Lengthened, NameStored, UsedBelow, IsFirstUnused, Registered, IsFree;
      ghost var g, s, h, t0 := v.g, Now(), home, Table();
      SomeEntries();
      sfn, at, t := fn, 0, [];
      if flags.invalid { return FR_INVALID_NAME, sfn, at, t; }
      var len := 0;
      while buf[len] != 0
        invariant 0 <= len <= |name|
        decreases |name| - len
      {
        len := len + 1;
      }
      if flags.loss {
        res, sfn := Number(up, buf, numbered);
        KeptUndisturbed(g, s, s, Now(), h, h);
        if res != FR_NO_FILE { return; }
      }
      var nEnt := if flags.lfn then (len + 12) / 13 + 1 else 1;
      ghost var m := Now();
      var last;
      res, last := Alloc(nEnt);
      if res != FR_OK { return; }
      DirKeptTrans(g, s, m, Now(), h, h, home);
      t := Table();
      at := last + 1 - nEnt;
      m := Now();
      ghost var h1 := home;
      Inside(last);
      res := StoreName(buf, flags, sfn, nEnt, last, name);
      if res != FR_OK { return; }
      DirKeptTrans(g, s, m, Now(), h, h1, h1);
      AllStored(t0, t, Table(), at, flags, name, sfn);
      return FR_OK, sfn, at, t;
    }
  }

  lemma SizePositive(g: Geo)
    requires g.Valid()
    ensures g.csize > 0 && g.nFatent >= 3 && g.nFatent < INVALID
  {
  }

  lemma StartCluster(g: Geo, fat: Fat, h: Home)
    requires HomeOk(g, fat, h)
    ensures h.Clusters? ==> |h.chain| > 0 && h.chain[0] >= 2
  {
  }

  lemma FixedBase(g: Geo, fat: Fat, h: Home)
    requires g.Valid() && HomeOk(g, fat, h) && h.Fixed?
    ensures h.first > 0
  {
  }

  lemma FixedPosition(g: Geo, fat: Fat, h: Home, ofs: nat)
    requires g.csize > 0 && HomeOk(g, fat, h) && h.Fixed? && ofs % 32 == 0 && ofs / 32 < 16 * h.count && ofs < 0x20_0000
    ensures AtEntry(g, h, ofs / 32, ofs, h.first + ofs / SS, 0)
  {
    OffsetParts(ofs);
  }

  lemma NextStep(k: nat, csz: nat)
    ensures (k + 1) * csz == k * csz + csz
  {
  }

  /** An offset behind the last cluster is behind the table. */
  lemma BehindTable(g: Geo, chain: seq<nat>, k: nat, o: nat, ofs: nat)
    requires g.csize > 0 && k + 1 == |chain| && o >= g.csize * SS && ofs == k * (g.csize * SS) + o && ofs % 32 == 0
    ensures ofs / 32 >= EntryCount(SectorCount(g, Clusters(chain)))
  {
    Regrouped(k, g.csize);
    Distribute(g.csize, k, 1);
  }

  lemma SameLength(t: seq<entry>)
    ensures Lengthened(t, t)
  {
  }

  lemma InTable(g: Geo, h: Home, i: nat, dptr: nat, sect: nat, clust: nat)
    requires g.csize > 0 && AtEntry(g, h, i, dptr, sect, clust)
    ensures i < EntryCount(SectorCount(g, h))
  {
  }

  lemma EntryFacts(g: Geo, h: Home, i: nat, dptr: nat, sect: nat, clust: nat)
    requires g.csize > 0 && AtEntry(g, h, i, dptr, sect, clust)
    ensures dptr == 32 * i && i < EntryCount(SectorCount(g, h)) <= LIMIT
    ensures (dptr + 32) % SS == 0 <==> i % 16 == 15
    ensures i % 16 == 15 ==> (dptr + 32) / SS == (i + 1) / 16
    ensures (dptr + 32) / 32 == i + 1
    ensures dptr + 32 >= 0x20_0000 ==> i + 1 == EntryCount(SectorCount(g, h)) == LIMIT
    ensures dptr + 32 < 0x20_0000 ==> i + 1 < LIMIT
  {
    OffsetParts(dptr);
    OffsetParts(dptr + 32);
  }

  lemma FixedHasNoCluster(g: Geo, fat: Fat, h: Home, i: nat, dptr: nat, sect: nat, clust: nat)
    requires g.Valid() && HomeOk(g, fat, h) && AtEntry(g, h, i, dptr, sect, clust)
    ensures sect > 0 && (clust == 0 <==> h.Fixed?)
  {
    hide WellFormed, Chains, SectorNo;
    SectorOwned(g, fat, h, i / 16);
  }

  lemma Reachable(g: Geo, fat: Fat, h: Home, i: nat, dptr: nat, sect: nat, clust: nat)
    requires g.Valid() && HomeOk(g, fat, h) && AtEntry(g, h, i, dptr, sect, clust)
    ensures !g.InMirror(sect) && sect < g.End() <= INVALID && g.fatbase + g.nFats * g.fsize <= sect
  {
    hide HomeOk, SectorNo;
    SectorOwned(g, fat, h, i / 16);
    BehindFats(g, sect);
    DataEnd(g);
  }

  lemma EntryThere(g: Geo, fat: Fat, h: Home, i: nat, dptr: nat, sect: nat, clust: nat, view: seq<Sector>)
    requires g.Valid() && HomeOk(g, fat, h) && AtEntry(g, h, i, dptr, sect, clust) && g.End() <= |view|
    ensures sect < |view| && dptr % SS / 32 < 16 && i < |TableOf(g, fat, h, view)|
    ensures TableOf(g, fat, h, view)[i] == EntryOf(view[sect], dptr % SS / 32)
    ensures dptr % SS == i % 16 * 32
  {
    hide HomeOk, SectorNo, EntryOf;
    OffsetParts(dptr);
    SectorOwned(g, fat, h, i / 16);
  }

  // ---------- composing ----------

  lemma KeptUndisturbed(g: Geo, a: Image, b: Image, c: Image, h0: Home, h1: Home)
    requires DirKept(g, a, b, h0, h1) && Undisturbed(g, b, c)
    ensures DirKept(g, a, c, h0, h1)
  {
    hide FatOf, Image.Valid, Image.View, HomeOk, Chains, Owns, Undisturbed, DirKept;
    KeptHome(g, a, b, h0, h1);
    UndisturbedKept(g, b, c, h1);
    DirKeptTrans(g, a, b, c, h0, h1, h1);
  }

  lemma KeptHome(g: Geo, a: Image, b: Image, h0: Home, h1: Home)
    requires DirKept(g, a, b, h0, h1)
    ensures g.Valid() && b.Valid(g) && g.End() <= |b.View()| && HomeOk(g, FatOf(g, b.View()), h1)
  {
    hide FatOf, Image.Valid, Image.View, HomeOk, Chains, Owns;
  }

  // ---------- storing an entry ----------

  lemma WindowPatched(a: Sector, j: nat, d: entry, b: seq<byte>)
    requires j < 16 && |b| == SS
    requires forall k :: 0 <= k < SS ==> b[k] == if j * 32 <= k < j * 32 + 32 then d[k - j * 32] else a[k]
    ensures b == WithEntry(a, j, d)
  {
  }

  /** What storing an entry does to the table and to the rest of the volume. */
  lemma StoredEntry(g: Geo, h: Home, i: nat, dptr: nat, sect: nat, clust: nat, s: Image, w: Sector, d: entry)
    requires g.Valid() && s.Valid(g) && g.End() <= |s.View()| == |s.disk| && HomeOk(g, FatOf(g, s.View()), h)
    requires AtEntry(g, h, i, dptr, sect, clust) && s.winsect == sect < |s.disk| && w == WithEntry(s.win, i % 16, d)
    requires Dirtied(s, w).Valid(g) && Dirtied(s, w).View() == s.View()[sect := w] && FatOf(g, Dirtied(s, w).View()) == FatOf(g, s.View())
    ensures var t := Dirtied(s, w);
            && i < |TableOf(g, FatOf(g, s.View()), h, s.View())|
            && TableOf(g, FatOf(g, t.View()), h, t.View()) == TableOf(g, FatOf(g, s.View()), h, s.View())[i := d]
            && DirKept(g, s, t, h, h)
  {
    hide FatOf, HomeOk, TableOf, Image.Valid, WithEntry, SectorNo, Owns, Chains;
    var t, fat := Dirtied(s, w), FatOf(g, s.View());
    SectorOwned(g, fat, h, i / 16);
    TableSize(g, fat, h, s.View());
    assert s.View()[sect] == s.win;
    EntryReplaced(g, fat, fat, h, s.View(), t.View(), i, d);
  }

  lemma TableSize(g: Geo, fat: Fat, h: Home, view: seq<Sector>)
    requires g.Valid() && HomeOk(g, fat, h) && g.End() <= |view|
    ensures |TableOf(g, fat, h, view)| == EntryCount(SectorCount(g, h))
  {
  }

  // ---------- registering ----------

  /** No piece is stored yet. */
  lemma NoneStored(t: seq<entry>, a: nat, name: seq<FatLongName.unit>, sum: byte)
    requires a <= |t|
    ensures PiecesStored(t, t, a, 0, name, sum)
  {
  }

  /** The topmost n pieces of the name are stored from entry a on; the rest is as it was. */
  ghost predicate PiecesStored(t: seq<entry>, u: seq<entry>, a: nat, n: nat, name: seq<FatLongName.unit>, sum: byte) {
    && a + n <= |t| == |u| && n <= FatLongName.Pieces(name)
    && (forall k :: 0 <= k < |t| && !(a <= k < a + n) ==> u[k] == t[k])
    && (forall k :: a <= k < a + n ==> FatLongName.IsWritten(u[k], name, FatLongName.Pieces(name) - (k - a), sum))
  }

  lemma OneMorePiece(t: seq<entry>, u: seq<entry>, w: seq<entry>, a: nat, n: nat, name: seq<FatLongName.unit>, sum: byte, d: entry)
    requires PiecesStored(t, u, a, n, name, sum) && a + n < |t| && w == u[a + n := d]
    requires n < FatLongName.Pieces(name) && FatLongName.IsWritten(d, name, FatLongName.Pieces(name) - n, sum)
    ensures PiecesStored(t, w, a, n + 1, name, sum)
  {
    hide FatLongName.IsWritten, FatLongName.Pieces;
  }

  /** The pieces, if there are any, and the short entry are stored from entry a on; the rest is as it was. */
  ghost predicate NameStored(t: seq<entry>, u: seq<entry>, a: nat, flags: Flags, name: seq<FatLongName.unit>, sfn: ShortName) {
    var last := a + EntriesFor(flags, name) - 1;
    && last < |t| == |u| && u[last] == NewEntry(sfn, flags.nt)
    && PiecesStored(t, u[last := t[last]], a, last - a, name, FatLongName.SumFrom(sfn, 11))
  }

  lemma NameThere(t: seq<entry>, u: seq<entry>, w: seq<entry>, a: nat, flags: Flags, name: seq<FatLongName.unit>, sfn: ShortName)
    requires a + EntriesFor(flags, name) <= |t| && PiecesStored(t, u, a, EntriesFor(flags, name) - 1, name, FatLongName.SumFrom(sfn, 11))
    requires w == u[a + EntriesFor(flags, name) - 1 := NewEntry(sfn, flags.nt)]
    ensures NameStored(t, w, a, flags, name, sfn)
  {
    hide FatLongName.IsWritten, FatLongName.Pieces, FatLongName.SumFrom;
    var last := a + EntriesFor(flags, name) - 1;
    assert w[last := t[last]] == u;
  }

  lemma AllStored(t0: seq<entry>, t: seq<entry>, w: seq<entry>, at: nat, flags: Flags, name: seq<FatLongName.unit>, sfn: ShortName)
    requires Lengthened(t0, t) && IsRun(t, at, EntriesFor(flags, name)) && NameStored(t, w, at, flags, name, sfn)
    ensures Registered(t0, t, w, at, flags, name, sfn)
  {
    hide FatLongName.IsWritten, FatLongName.Pieces, FatLongName.SumFrom, IsFree, Lengthened;
    var n := EntriesFor(flags, name);
    var block, u := w[at..at + n], w[at + n - 1 := t[at + n - 1]];
    BlockThere(t, w, at, n);
    assert sfn[..11] == sfn && block[n - 1][..11] == sfn;
    forall i | 0 <= i < n - 1 ensures FatLongName.IsWritten(block[i], name, FatLongName.Pieces(name) - i, FatLongName.SumFrom(sfn, 11)) {
      assert block[i] == u[at + i];
    }
  }

  lemma BlockThere(t: seq<entry>, w: seq<entry>, at: nat, n: nat)
    requires at + n <= |t| == |w| && forall k :: 0 <= k < |t| && !(at <= k < at + n) ==> w[k] == t[k]
    ensures Replaced(t, w, at, w[at..at + n])
  {
  }
}
