/** A mounted volume: the access window and the entries of the FAT read and
    written through it. */
module FatVolume {
  import opened FatBase
  import opened FatCodec

  // ---------- the FAT as seen through the window ----------

  /** The byte image of the first FAT copy. */
  ghost function FatImage(g: Geo, view: seq<Sector>): (r: seq<byte>)
    requires g.fatbase + g.fsize <= |view|
    ensures |r| == g.fsize * SS
  {
    seq(g.fsize * SS, p requires 0 <= p < g.fsize * SS => view[g.fatbase + p / SS][p % SS])
  }

  ghost predicate TableFits(g: Geo) {
    forall c :: 0 <= c < g.nFatent ==> Fits(g.fsType, g.fsize * SS, c)
  }

  lemma GeoTableFits(g: Geo)
    requires g.Valid()
    ensures TableFits(g)
  {
    hide Offset, Width, Geo.Valid;
    LastEntryFits(g);
    forall c | 0 <= c < g.nFatent ensures Fits(g.fsType, g.fsize * SS, c) {
      OffsetMonotone(g.fsType, c, g.nFatent - 1);
    }
  }

  lemma LastEntryFits(g: Geo)
    requires g.Valid()
    ensures g.nFatent >= 3 && Fits(g.fsType, g.fsize * SS, g.nFatent - 1)
  {
  }

  /** The table of nFatent entries the view holds. */
  ghost function FatOf(g: Geo, view: seq<Sector>): (r: seq<nat>)
    requires g.Valid() && g.End() <= |view|
    ensures |r| == g.nFatent
  {
    GeoTableFits(g);
    Table(g.fsType, FatImage(g, view), g.nFatent)
  }

  lemma SamePrimaryFat(g: Geo, a: seq<Sector>, b: seq<Sector>)
    requires g.Valid() && g.End() <= |a| && SamePrimary(g, a, b)
    ensures FatOf(g, a) == FatOf(g, b)
  {
    assert FatImage(g, a) == FatImage(g, b);
  }

  /** b is a with byte p of the FAT image replaced. */
  lemma FatImagePatched(g: Geo, a: seq<Sector>, b: seq<Sector>, p: nat, x: byte)
    requires g.fatbase + g.fsize <= |a| == |b| && p < g.fsize * SS
    requires b == a[g.fatbase + p / SS := a[g.fatbase + p / SS][p % SS := x]]
    ensures FatImage(g, b) == FatImage(g, a)[p := x]
  {
    forall q | 0 <= q < g.fsize * SS ensures FatImage(g, b)[q] == FatImage(g, a)[p := x][q] {
      if q / SS == p / SS && q != p {
        assert q % SS != p % SS;
      }
    }
  }

  // ---------- writing back the window ----------

  function Overwritten(disk: seq<Sector>, sect: nat, data: seq<Sector>): (r: seq<Sector>)
    requires sect + |data| <= |disk|
    ensures |r| == |disk|
  {
    disk[..sect] + data + disk[sect + |data|..]
  }

  /** The image after the window reached its own sector. */
  ghost function Flushed(s: Image): Image
    requires s.winsect < |s.disk|
  {
    s.(disk := s.disk[s.winsect := s.win], wflag := false)
  }

  ghost predicate InFirstFat(g: Geo, sect: nat) {
    g.fatbase <= sect < g.fatbase + g.fsize
  }

  /** The image after the window also reached the second FAT. */
  ghost function Reflected(g: Geo, s: Image): Image
    requires s.winsect + g.fsize < |s.disk|
  {
    s.(disk := s.disk[s.winsect := s.win][s.winsect + g.fsize := s.win], wflag := false)
  }

  /** The view of the volume is the same, whatever sector the window shows. */
  ghost predicate Coherent(g: Geo, s: Image, t: Image) {
    t.Valid(g) && SamePrimary(g, s.View(), t.View())
  }

  ghost predicate SafeStep(g: Geo, s: Image, t: Image) {
    t.Valid(g) && SamePrimary(g, s.View(), t.View()) && FatTraffic(g, s, t)
  }

  lemma FlushedImage(g: Geo, s: Image)
    requires s.Valid(g) && s.wflag
    ensures SafeStep(g, s, Flushed(s).(writeFailed := true))
    ensures !(g.nFats == 2 && InFirstFat(g, s.winsect)) ==> SafeStep(g, s, Flushed(s))
  {
    assert Flushed(s).View() == s.View();
  }

  lemma StepStays(g: Geo, s: Image)
    requires s.Valid(g)
    ensures SafeStep(g, s, s) && SafeStep(g, s, s.(writeFailed := true))
  {
    assert s.(writeFailed := true).View() == s.View();
  }

  lemma OverwrittenOne(disk: seq<Sector>, sect: nat, x: Sector)
    requires sect < |disk|
    ensures Overwritten(disk, sect, [x]) == disk[sect := x]
  {
  }

  /** A dirty window is on the medium; the unsigned difference tells whether it is in the first FAT. */
  lemma DirtyWindow(g: Geo, s: Image)
    requires s.Valid(g) && s.wflag
    ensures s.winsect < |s.disk|
    ensures (s.winsect - g.fatbase) % 0x1_0000_0000 < g.fsize <==> InFirstFat(g, s.winsect)
    ensures g.nFats == 2 && InFirstFat(g, s.winsect) ==> s.winsect + g.fsize < |s.disk|
  {
  }

  lemma SafeIsCoherent(g: Geo, s: Image, t: Image)
    requires SafeStep(g, s, t)
    ensures t.Valid(g) && Coherent(g, s, t)
  {
  }

  lemma CoherentTrans(g: Geo, s: Image, t: Image, u: Image)
    requires s.Valid(g) && SafeStep(g, s, t) && Coherent(g, t, u)
    ensures Coherent(g, s, u)
    ensures SafeStep(g, t, u) ==> SafeStep(g, s, u)
  {
  }

  lemma SafeStepSector(g: Geo, s: Image, t: Image, sect: nat)
    requires s.Valid(g) && SafeStep(g, s, t) && !g.InMirror(sect) && sect < |t.disk| && !t.wflag
    ensures |s.View()| == |t.disk| && s.View()[sect] == t.disk[sect]
  {
  }

  lemma WindowInPlace(g: Geo, s: Image, sect: nat)
    requires s.Valid(g) && s.winsect == sect != INVALID
    ensures sect < |s.disk| == |s.View()| && s.win == s.View()[sect]
  {
  }

  /** A clean window may be filled with another sector. */
  lemma WindowMoved(g: Geo, t: Image, sect: nat)
    requires t.Valid(g) && !t.wflag && sect < |t.disk|
    ensures Coherent(g, t, t.(win := t.disk[sect], winsect := sect))
    ensures sect < g.database ==> SafeStep(g, t, t.(win := t.disk[sect], winsect := sect))
  {
    assert t.(win := t.disk[sect], winsect := sect).View() == t.disk;
  }

  /** A clean window may be invalidated. */
  lemma WindowLost(g: Geo, t: Image)
    requires t.Valid(g) && !t.wflag
    ensures SafeStep(g, t, t.(winsect := INVALID))
  {
    assert t.View() == t.disk;
  }

  lemma ReflectedImage(g: Geo, s: Image)
    requires s.Valid(g) && s.wflag && g.nFats == 2 && InFirstFat(g, s.winsect)
    ensures SafeStep(g, s, Reflected(g, s))
  {
    var t := Reflected(g, s);
    assert t.View() == t.disk;
  }

  // ---------- reading and poking FAT bytes ----------

  /** Everything outside the FAT copies is unchanged. */
  ghost predicate SameOutsideFat(g: Geo, a: seq<Sector>, b: seq<Sector>) {
    |a| == |b| && forall i :: 0 <= i < |a| && !InFirstFat(g, i) && !g.InMirror(i) ==> a[i] == b[i]
  }

  /** t comes from s by changing FAT entries only. */
  ghost predicate FatStep(g: Geo, s: Image, t: Image) {
    t.Valid(g) && SameOutsideFat(g, s.View(), t.View()) && FatTraffic(g, s, t)
  }

  lemma ValidSizes(g: Geo, s: Image)
    requires s.Valid(g)
    ensures g.Valid() && |s.View()| == |s.disk|
    ensures g.fatbase + g.fsize <= g.database <= g.End() <= |s.disk|
  {
  }

  lemma SafeIsFatStep(g: Geo, s: Image, t: Image)
    requires s.Valid(g) && SafeStep(g, s, t)
    ensures FatStep(g, s, t) && FatImage(g, t.View()) == FatImage(g, s.View())
    ensures FatOf(g, t.View()) == FatOf(g, s.View())
  {
    SamePrimaryFat(g, s.View(), t.View());
  }

  lemma FatStepTrans(g: Geo, s: Image, t: Image, u: Image)
    requires s.Valid(g) && FatStep(g, s, t) && FatStep(g, t, u)
    ensures FatStep(g, s, u)
  {
  }

  /** The window is over a sector of the first FAT; one of its bytes is changed. */
  ghost function Poked(s: Image, off: nat, x: byte): Image
    requires off < SS
  {
    s.(win := s.win[off := x], wflag := true)
  }

  lemma PokedImage(g: Geo, s: Image, p: nat, x: byte)
    requires s.Valid(g) && p < g.fsize * SS && s.winsect == g.fatbase + p / SS
    ensures Poked(s, p % SS, x).Valid(g) && FatStep(g, s, Poked(s, p % SS, x))
    ensures s.win[p % SS] == FatImage(g, s.View())[p]
    ensures FatImage(g, Poked(s, p % SS, x).View()) == FatImage(g, s.View())[p := x]
  {
    hide FatImage;
    var t := Poked(s, p % SS, x);
    assert t.View() == s.View()[s.winsect := t.win];
    WindowByte(g, s, p);
    FatImagePatched(g, s.View(), t.View(), p, x);
  }

  lemma WindowByte(g: Geo, s: Image, p: nat)
    requires s.Valid(g) && p < g.fsize * SS && s.winsect == g.fatbase + p / SS
    ensures s.win[p % SS] == FatImage(g, s.View())[p]
  {
  }

  lemma FatSectorInRange(g: Geo, p: nat)
    requires g.Valid() && p < g.fsize * SS
    ensures !g.InMirror(g.fatbase + p / SS) && g.fatbase + p / SS < g.database
  {
  }

  /** Entry c lies in the table, and the table of an image is its decoded entries. */
  lemma EntryInTable(g: Geo, view: seq<Sector>, c: nat)
    requires g.Valid() && g.fatbase + g.fsize <= g.End() <= |view| && c < g.nFatent
    ensures Fits(g.fsType, g.fsize * SS, c)
    ensures FatOf(g, view)[c] == Decode(g.fsType, FatImage(g, view), c)
  {
    hide FatImage, Decode;
    GeoTableFits(g);
  }

  lemma StoredTable(g: Geo, a: seq<Sector>, b: seq<Sector>, c: nat, v: nat)
    requires g.Valid() && g.database <= g.End() <= |a| && g.End() <= |b| && c < g.nFatent
    requires g.fatbase + g.fsize <= |a| && g.fatbase + g.fsize <= |b|
    requires Fits(g.fsType, g.fsize * SS, c)
    requires FatImage(g, b) == Store(g.fsType, FatImage(g, a), c, v)
    ensures FatOf(g, b) == FatOf(g, a)[c := Trunc(g.fsType, v)]
  {
    hide FatImage;
    GeoTableFits(g);
    TableStored(g.fsType, FatImage(g, a), g.nFatent, c, v);
  }

  /** A 12-bit update cut short after its first byte has changed no other entry. */
  lemma HalfStored(g: Geo, a: seq<Sector>, b: seq<Sector>, c: nat, v: nat)
    requires g.Valid() && g.database <= g.End() <= |a| && g.End() <= |b| && c < g.nFatent && g.fsType == FAT12
    requires g.fatbase + g.fsize <= |a| && g.fatbase + g.fsize <= |b|
    requires Fits(FAT12, g.fsize * SS, c)
    requires var p := Offset(FAT12, c); FatImage(g, b) == FatImage(g, a)[p := First12(c, FatImage(g, a)[p], v)]
    ensures FatOf(g, b) == FatOf(g, a)[c := FatOf(g, b)[c]]
  {
    hide FatImage, FatOf, Store, Offset, First12, Trunc, Fits, Geo.Valid, Geo.End;
    var w := StoreHalf(FatImage(g, a), c, v);
    StoredTable(g, a, b, c, w);
    assert FatOf(g, b)[c] == Trunc(FAT12, w);
  }

  // ---------- the volume ----------

  class Volume {
    const g: Geo
    const win: array<byte>
    /** The medium never fails: no transfer of sectors that it has goes wrong. */
    const reliable: bool
    var disk: seq<Sector>
    var winsect: nat
    var wflag: bool
    var lastClst: nat
    var freeClst: nat
    ghost var writeFailed: bool

    ghost function Img(): Image
      requires win.Length == SS
      reads this`disk, this`winsect, this`wflag, this`writeFailed, win
    {
      Image(disk, win[..], winsect, wflag, writeFailed)
    }

    ghost predicate Valid()
      reads this`disk, this`winsect, this`wflag, this`writeFailed, win
    {
      win.Length == SS && Img().Valid(g)
    }

    ghost function View(): seq<Sector>
      requires win.Length == SS
      reads this`disk, this`winsect, this`wflag, this`writeFailed, win
    {
      Img().View()
    }

    /** The FAT entries 0..nFatent-1. */
    ghost function Fat(): (r: seq<nat>)
      requires Valid()
      reads this`disk, this`winsect, this`wflag, this`writeFailed, win
      ensures |r| == g.nFatent
    {
      FatOf(g, View())
    }

    /** The byte image of the table. */
    ghost function TableBytes(): (r: seq<byte>)
      requires Valid()
      reads this`disk, this`winsect, this`wflag, this`writeFailed, win
      ensures |r| == g.fsize * SS
    {
      FatImage(g, View())
    }

    /** A read that may fail for a reason of the medium. */
    method DiskRead(sect: nat, count: nat) returns (ok: bool, data: seq<Sector>)
      ensures ok ==> sect + count <= |disk| && data == disk[sect..sect + count]
      ensures reliable && sect + count <= |disk| ==> ok
    {
      var fault: bool := *;
      if (fault && !reliable) || sect + count > |disk| {
        return false, [];
      }
      return true, disk[sect..sect + count];
    }

    /** A write that may fail, and then changes nothing but the record that a write has failed. */
    method DiskWrite(sect: nat, data: seq<Sector>) returns (ok: bool)
      modifies this`disk, this`writeFailed
      ensures writeFailed == (old(writeFailed) || !ok)
      ensures ok ==> sect + |data| <= |old(disk)| && disk == Overwritten(old(disk), sect, data)
      ensures !ok ==> disk == old(disk)
      ensures |disk| == old(|disk|)
      ensures reliable && sect + |data| <= |old(disk)| ==> ok
    {
      var fault: bool := *;
      if (fault && !reliable) || sect + |data| > |disk| {
        writeFailed := true;
        return false;
      }
      disk := Overwritten(disk, sect, data);
      return true;
    }

    /** Writes the dirty window back, and reflects it to the second FAT. */
    method SyncWindow() returns (res: FResult)
      requires Valid()
      modifies this`disk, this`wflag, this`writeFailed
      ensures Valid() && SafeStep(g, old(Img()), Img())
      ensures res == FR_OK || (res == FR_DISK_ERR && disk == old(disk) && wflag && writeFailed)
      ensures res == FR_OK ==> !wflag
      ensures |disk| == old(|disk|) && (reliable ==> res == FR_OK)
    {
      hide SamePrimary, FatTraffic, Image.Valid, Image.View, Image.Mirrored, Geo.Valid, Geo.InMirror, Overwritten, InFirstFat;
      res := FR_OK;
      ghost var s := Img();
      StepStays(g, s);
      if wflag {
        DirtyWindow(g, s);
        var ok := DiskWrite(winsect, [win[..]]);
        if ok {
          FlushedImage(g, s);
          OverwrittenOne(s.disk, winsect, win[..]);
          wflag := false;
          assert Img() == Flushed(s);
          if (winsect - g.fatbase) % 0x1_0000_0000 < g.fsize {
            if g.nFats == 2 {
              ReflectedImage(g, s);
              var reflected := DiskWrite(winsect + g.fsize, [win[..]]);
              if reflected {
                OverwrittenOne(Flushed(s).disk, winsect + g.fsize, win[..]);
                assert Img() == Reflected(g, s);
              } else {
                assert Img() == Flushed(s).(writeFailed := true);
              }
            }
          }
        } else {
          StepStays(g, s);
          assert Img() == s.(writeFailed := true);
          res := FR_DISK_ERR;
        }
      }
    }

    /** Brings any sector into the window: FAT, directory, or data. */
    method MoveWindow(sect: nat) returns (res: FResult)
      requires Valid() && !g.InMirror(sect) && sect != INVALID
      modifies this`disk, this`wflag, this`writeFailed, this`winsect, win
      ensures Valid() && Coherent(g, old(Img()), Img())
      ensures sect < g.database ==> SafeStep(g, old(Img()), Img())
      ensures res == FR_OK || res == FR_DISK_ERR
      ensures res == FR_OK ==> winsect == sect && sect < |disk| && win[..] == old(View())[sect]
      ensures reliable && sect < old(|disk|) ==> res == FR_OK
    {
      hide SamePrimary, FatTraffic, Image.Valid, Image.View, Geo.Valid, Geo.InMirror, Coherent, SafeStep;
      res := FR_OK;
      ghost var s := Img();
      StepStays(g, s);
      SafeIsCoherent(g, s, s);
      if sect != winsect {
        res := SyncWindow();
        ghost var t := Img();
        SafeIsCoherent(g, s, t);
        if res == FR_OK {
          var ok, data := DiskRead(sect, 1);
          if ok {
            WindowMoved(g, t, sect);
            SafeStepSector(g, s, t, sect);
            Load(data[0]);
            winsect := sect;
            assert win[..] == t.disk[sect];
            assert Img() == t.(win := t.disk[sect], winsect := sect);
          } else {
            WindowLost(g, t);
            winsect := INVALID;
            res := FR_DISK_ERR;
            assert win[..] == t.win;
            assert Img() == t.(winsect := INVALID);
            SafeIsCoherent(g, t, Img());
          }
          CoherentTrans(g, s, t, Img());
        }
      } else {
        WindowInPlace(g, s, sect);
      }
    }

    method Load(data: Sector)
      requires win.Length == SS
      modifies win
      ensures win[..] == data
    {
      forall i | 0 <= i < SS { win[i] := data[i]; }
    }

    /** Brings the k-th sector of the first FAT into the window. */
    method MoveToFat(k: nat) returns (res: FResult)
      requires Valid() && k < g.fsize
      modifies this`disk, this`wflag, this`writeFailed, this`winsect, win
      ensures Valid() && FatStep(g, old(Img()), Img())
      ensures TableBytes() == old(TableBytes()) && Fat() == old(Fat())
      ensures res == FR_OK || res == FR_DISK_ERR
      ensures res == FR_OK ==> winsect == g.fatbase + k
      ensures reliable ==> res == FR_OK
    {
      hide Image.Valid, Image.View, Geo.Valid, FatImage, FatOf, FatStep, SafeStep;
      ghost var s := Img();
      ValidSizes(g, s);
      FatSectorInRange(g, k * SS);
      res := MoveWindow(g.fatbase + k);
      SafeIsFatStep(g, s, Img());
    }

    /** Changes byte p of the table, which is in the window, and marks the window dirty. */
    method Poke(off: nat, x: byte, ghost p: nat)
      requires Valid() && p < g.fsize * SS && winsect == g.fatbase + p / SS && off == p % SS
      modifies this`wflag, win
      ensures Valid() && FatStep(g, old(Img()), Img())
      ensures TableBytes() == old(TableBytes())[p := x]
    {
      hide Image.Valid, Image.View, Geo.Valid, FatImage, FatOf, FatStep;
      ValidSizes(g, Img());
      PokedImage(g, Img(), p, x);
      ghost var t := Poked(Img(), off, x);
      win[off] := x;
      wflag := true;
      assert Img() == t;
    }
  }

  // ---------- FAT entries ----------

  predicate InRange(g: Geo, clst: nat) { 2 <= clst < g.nFatent }

  lemma VolumeFacts(v: Volume)
    requires v.Valid()
    ensures v.win.Length == SS && v.Img().Valid(v.g) && v.View() == v.Img().View() && v.Fat() == FatOf(v.g, v.View())
    ensures v.g.Valid() && v.g.fatbase + v.g.fsize <= v.g.database <= v.g.End() <= |v.disk| == |v.View()|
    ensures v.TableBytes() == FatImage(v.g, v.View())
    ensures v.Img().win == v.win[..] && v.Img().winsect == v.winsect
  {
    ValidSizes(v.g, v.Img());
  }

  /** One byte of the table, through the window. */
  method FatByte(v: Volume, bc: nat) returns (ok: bool, b: byte)
    requires v.Valid() && bc < v.g.fsize * SS
    modifies v`disk, v`wflag, v`writeFailed, v`winsect, v.win
    ensures v.Valid() && FatStep(v.g, old(v.Img()), v.Img())
    ensures v.TableBytes() == old(v.TableBytes()) && v.Fat() == old(v.Fat())
    ensures ok ==> b == v.TableBytes()[bc]
    ensures v.reliable ==> ok
  {
    hide Image.Valid, Image.View, Geo.Valid, FatImage, FatOf, FatStep;
    var res := v.MoveToFat(bc / SS);
    if res != FR_OK { return false, 0; }
    WindowByte(v.g, v.Img(), bc);
    return true, v.win[bc % SS];
  }

  /** get_fat: the value of an entry, 1 for a cluster out of range, INVALID on a disk error. */
  method GetFat(v: Volume, clst: nat) returns (val: nat)
    requires v.Valid()
    modifies v`disk, v`wflag, v`writeFailed, v`winsect, v.win
    ensures v.Valid() && FatStep(v.g, old(v.Img()), v.Img()) && v.Fat() == old(v.Fat())
    ensures !InRange(v.g, clst) ==> val == 1
    ensures InRange(v.g, clst) ==> val == INVALID || val == v.Fat()[clst]
    ensures v.reliable ==> val != INVALID
  {
    hide Volume.Valid, Volume.Img, Volume.View, Volume.Fat, Volume.TableBytes, Image.Valid, Image.View, Geo.Valid, FatImage, FatOf, FatStep;
    VolumeFacts(v);
    if clst < 2 || clst >= v.g.nFatent {
      val := 1;
      FatStepStays(v.g, v.Img());
    } else {
      EntryInTable(v.g, v.View(), clst);
      DecodeRange(v.g.fsType, v.TableBytes(), clst);
      match v.g.fsType
      case FAT12 => val := GetFat12(v, clst);
      case FAT16 => val := GetFat16(v, clst);
      case FAT32 => val := GetFat32(v, clst);
      VolumeFacts(v);
      EntryInTable(v.g, v.View(), clst);
    }
  }

  lemma DecodeRange(t: FsType, img: seq<byte>, c: nat)
    requires Fits(t, |img|, c)
    ensures Decode(t, img, c) < 0x1000_0000
  {
  }

  method GetFat12(v: Volume, clst: nat) returns (val: nat)
    requires v.Valid() && v.g.fsType == FAT12 && Fits(FAT12, v.g.fsize * SS, clst)
    modifies v`disk, v`wflag, v`writeFailed, v`winsect, v.win
    ensures v.Valid() && FatStep(v.g, old(v.Img()), v.Img())
    ensures v.TableBytes() == old(v.TableBytes()) && v.Fat() == old(v.Fat())
    ensures val == INVALID || val == Decode(FAT12, v.TableBytes(), clst)
    ensures v.reliable ==> val == Decode(FAT12, v.TableBytes(), clst)
  {
    hide Volume.Valid, Volume.Img, Volume.View, Volume.Fat, Volume.TableBytes, Image.Valid, Image.View, Geo.Valid, FatImage, FatOf, FatStep, Decode;
    VolumeFacts(v);
    ghost var s := v.Img();
    val := INVALID;
    var bc := clst;
    bc := bc + bc / 2;
    var ok, lo := FatByte(v, bc);
    if !ok { return; }
    bc := bc + 1;
    VolumeFacts(v);
    ghost var t := v.Img();
    var ok2, hi := FatByte(v, bc);
    VolumeFacts(v);
    FatStepTrans(v.g, s, t, v.Img());
    if !ok2 { return; }
    DecodeField12(v.TableBytes(), clst, lo, hi);
    var wc := Word(lo, hi);
    val := if clst % 2 == 1 then wc / 16 else wc % 0x1000;
  }

  method GetFat16(v: Volume, clst: nat) returns (val: nat)
    requires v.Valid() && v.g.fsType == FAT16 && Fits(FAT16, v.g.fsize * SS, clst)
    modifies v`disk, v`wflag, v`writeFailed, v`winsect, v.win
    ensures v.Valid() && FatStep(v.g, old(v.Img()), v.Img())
    ensures v.TableBytes() == old(v.TableBytes()) && v.Fat() == old(v.Fat())
    ensures val == INVALID || val == Decode(FAT16, v.TableBytes(), clst)
    ensures v.reliable ==> val == Decode(FAT16, v.TableBytes(), clst)
  {
    hide Volume.Valid, Volume.Img, Volume.View, Volume.Fat, Volume.TableBytes, Image.Valid, Image.View, Geo.Valid, FatImage, FatOf, FatStep;
    val := INVALID;
    var res := v.MoveToFat(clst / (SS / 2));
    if res != FR_OK { return; }
    ghost var p := 2 * clst;
    VolumeFacts(v);
    assert p / SS == clst / (SS / 2) && (p + 1) / SS == p / SS && (p + 1) % SS == p % SS + 1;
    WindowByte(v.g, v.Img(), p);
    WindowByte(v.g, v.Img(), p + 1);
    var off := clst * 2 % SS;
    val := Word(v.win[off], v.win[off + 1]);
  }

  method GetFat32(v: Volume, clst: nat) returns (val: nat)
    requires v.Valid() && v.g.fsType == FAT32 && Fits(FAT32, v.g.fsize * SS, clst)
    modifies v`disk, v`wflag, v`writeFailed, v`winsect, v.win
    ensures v.Valid() && FatStep(v.g, old(v.Img()), v.Img())
    ensures v.TableBytes() == old(v.TableBytes()) && v.Fat() == old(v.Fat())
    ensures val == INVALID || val == Decode(FAT32, v.TableBytes(), clst)
    ensures v.reliable ==> val == Decode(FAT32, v.TableBytes(), clst)
  {
    hide Volume.Valid, Volume.Img, Volume.View, Volume.Fat, Volume.TableBytes, Image.Valid, Image.View, Geo.Valid, FatImage, FatOf, FatStep;
    val := INVALID;
    var res := v.MoveToFat(clst / (SS / 4));
    if res != FR_OK { return; }
    ghost var p := 4 * clst;
    VolumeFacts(v);
    var off := clst * 4 % SS;
    SameSector32(clst, 0);
    SameSector32(clst, 1);
    SameSector32(clst, 2);
    SameSector32(clst, 3);
    WindowByte(v.g, v.Img(), p);
    WindowByte(v.g, v.Img(), p + 1);
    WindowByte(v.g, v.Img(), p + 2);
    WindowByte(v.g, v.Img(), p + 3);
    val := Dword(v.win[off], v.win[off + 1], v.win[off + 2], v.win[off + 3]) % 0x1000_0000;
  }

  /** The table of a valid image, as bytes and as entries. */
  ghost function BytesOf(g: Geo, s: Image): (r: seq<byte>)
    requires s.Valid(g)
    ensures |r| == g.fsize * SS
  {
    ValidSizes(g, s);
    FatImage(g, s.View())
  }

  ghost function EntriesOf(g: Geo, s: Image): (r: seq<nat>)
    requires s.Valid(g)
    ensures |r| == g.nFatent
  {
    ValidSizes(g, s);
    FatOf(g, s.View())
  }

  /** The outcome of put_fat: all of the entry, none of it, or (12-bit entries only) its first byte. */
  ghost predicate PutOutcome(g: Geo, a: Image, b: Image, clst: nat, val: nat, res: FResult)
    requires a.Valid(g) && b.Valid(g) && InRange(g, clst)
    requires Fits(g.fsType, g.fsize * SS, clst)
  {
    if res == FR_OK then BytesOf(g, b) == Store(g.fsType, BytesOf(g, a), clst, val)
    else res == FR_DISK_ERR && EntriesOf(g, b) == EntriesOf(g, a)[clst := EntriesOf(g, b)[clst]]
  }

  lemma OutcomeTable(g: Geo, a: Image, b: Image, clst: nat, val: nat)
    requires a.Valid(g) && b.Valid(g) && InRange(g, clst)
    requires Fits(g.fsType, g.fsize * SS, clst)
    requires PutOutcome(g, a, b, clst, val, FR_OK)
    ensures EntriesOf(g, b) == EntriesOf(g, a)[clst := Trunc(g.fsType, val)]
  {
    hide Image.View, Image.Valid, FatImage, FatOf, Store, Fits, Trunc, Geo.Valid;
    ValidSizes(g, a);
    ValidSizes(g, b);
    StoredTable(g, a.View(), b.View(), clst, val);
  }

  /** put_fat: on success exactly the one entry changes, to the bits of val it can hold;
      on a disk error no other entry has changed. */
  method PutFat(v: Volume, clst: nat, val: nat) returns (res: FResult)
    requires v.Valid()
    modifies v`disk, v`wflag, v`writeFailed, v`winsect, v.win
    ensures v.Valid() && FatStep(v.g, old(v.Img()), v.Img())
    ensures res == FR_OK || res == FR_DISK_ERR || res == FR_INT_ERR
    ensures res == FR_INT_ERR <==> !InRange(v.g, clst)
    ensures res == FR_INT_ERR ==> v.Fat() == old(v.Fat())
    ensures res == FR_OK ==> v.Fat() == old(v.Fat())[clst := Trunc(v.g.fsType, val)]
    ensures res == FR_DISK_ERR ==> v.Fat() == old(v.Fat())[clst := v.Fat()[clst]]
    ensures v.reliable ==> res != FR_DISK_ERR
  {
    hide Volume.Valid, Volume.Img, Volume.View, Volume.Fat, Volume.TableBytes, Image.Valid, Image.View, Geo.Valid, FatImage, FatOf, FatStep, Store;
    VolumeFacts(v);
    ghost var s := v.Img();
    res := FR_INT_ERR;
    if clst >= 2 && clst < v.g.nFatent {
      EntryInTable(v.g, v.View(), clst);
      match v.g.fsType {
        case FAT12 => res := PutFat12(v, clst, val);
        case FAT16 => res := PutFat16(v, clst, val);
        case FAT32 => res := PutFat32(v, clst, val);
      }
      VolumeFacts(v);
      if res == FR_OK {
        OutcomeTable(v.g, s, v.Img(), clst, val);
      }
    } else {
      FatStepStays(v.g, s);
    }
  }

  method PutFat12(v: Volume, clst: nat, val: nat) returns (res: FResult)
    requires v.Valid() && v.g.fsType == FAT12 && InRange(v.g, clst) && Fits(FAT12, v.g.fsize * SS, clst)
    modifies v`disk, v`wflag, v`writeFailed, v`winsect, v.win
    ensures v.Valid() && FatStep(v.g, old(v.Img()), v.Img())
    ensures PutOutcome(v.g, old(v.Img()), v.Img(), clst, val, res)
    ensures v.reliable ==> res == FR_OK
  {
    hide Volume.Valid, Volume.Img, Volume.View, Volume.Fat, Volume.TableBytes, Image.Valid, Image.View, Geo.Valid, FatImage, FatOf, FatStep, First12, Second12;
    VolumeFacts(v);
    ghost var s := v.Img();
    ghost var p := Offset(FAT12, clst);
    var bc := clst;
    bc := bc + bc / 2;
    res := v.MoveToFat(bc / SS);
    VolumeFacts(v);
    ghost var t := v.Img();
    if res != FR_OK { return; }
    WindowByte(v.g, t, p);
    var first := First12(clst, v.win[bc % SS], val);
    v.Poke(bc % SS, first, p);
    VolumeFacts(v);
    FatStepTrans(v.g, s, t, v.Img());
    bc := bc + 1;
    t := v.Img();
    res := PutSecond12(v, clst, val, bc, s);
    VolumeFacts(v);
    FatStepTrans(v.g, s, t, v.Img());
  }

  /** The second byte of a 12-bit entry whose first byte is already updated. */
  method PutSecond12(v: Volume, clst: nat, val: nat, bc: nat, ghost a: Image) returns (res: FResult)
    requires v.Valid() && v.g.fsType == FAT12 && InRange(v.g, clst) && Fits(FAT12, v.g.fsize * SS, clst)
    requires bc == Offset(FAT12, clst) + 1 && a.Valid(v.g)
    requires var p := Offset(FAT12, clst);
             v.TableBytes() == BytesOf(v.g, a)[p := First12(clst, BytesOf(v.g, a)[p], val)]
    modifies v`disk, v`wflag, v`writeFailed, v`winsect, v.win
    ensures v.Valid() && FatStep(v.g, old(v.Img()), v.Img())
    ensures PutOutcome(v.g, a, v.Img(), clst, val, res)
    ensures v.reliable ==> res == FR_OK
  {
    hide Volume.Valid, Volume.Img, Volume.View, Volume.Fat, Volume.TableBytes, Image.Valid, Image.View, Geo.Valid, FatImage, FatOf, FatStep, First12, Second12;
    VolumeFacts(v);
    ValidSizes(v.g, a);
    ghost var s := v.Img();
    res := v.MoveToFat(bc / SS);
    VolumeFacts(v);
    if res != FR_OK {
      HalfStored(v.g, a.View(), v.View(), clst, val);
      return;
    }
    ghost var t := v.Img();
    WindowByte(v.g, t, bc);
    var second := Second12(clst, v.win[bc % SS], val);
    ghost var img := FatImage(v.g, a.View());
    assert second == Second12(clst, img[bc], val);
    v.Poke(bc % SS, second, bc);
    VolumeFacts(v);
    FatStepTrans(v.g, s, t, v.Img());
    assert v.TableBytes() == Store(FAT12, img, clst, val);
  }

  method PutFat16(v: Volume, clst: nat, val: nat) returns (res: FResult)
    requires v.Valid() && v.g.fsType == FAT16 && InRange(v.g, clst) && Fits(FAT16, v.g.fsize * SS, clst)
    modifies v`disk, v`wflag, v`writeFailed, v`winsect, v.win
    ensures v.Valid() && FatStep(v.g, old(v.Img()), v.Img())
    ensures PutOutcome(v.g, old(v.Img()), v.Img(), clst, val, res)
    ensures v.reliable ==> res == FR_OK
  {
    hide Volume.Valid, Volume.Img, Volume.View, Volume.Fat, Volume.TableBytes, Image.Valid, Image.View, Geo.Valid, FatImage, FatOf, FatStep, ByteOf;
    VolumeFacts(v);
    ghost var s := v.Img();
    ghost var p := Offset(FAT16, clst);
    res := v.MoveToFat(clst / (SS / 2));
    VolumeFacts(v);
    if res != FR_OK { return; }
    assert p / SS == clst / (SS / 2) && (p + 1) / SS == p / SS && (p + 1) % SS == p % SS + 1;
    var off := clst * 2 % SS;
    ghost var t := v.Img();
    v.Poke(off, ByteOf(val, 0), p);
    VolumeFacts(v);
    FatStepTrans(v.g, s, t, v.Img());
    t := v.Img();
    v.Poke(off + 1, ByteOf(val, 1), p + 1);
    VolumeFacts(v);
    FatStepTrans(v.g, s, t, v.Img());
  }

  method PutFat32(v: Volume, clst: nat, val: nat) returns (res: FResult)
    requires v.Valid() && v.g.fsType == FAT32 && InRange(v.g, clst) && Fits(FAT32, v.g.fsize * SS, clst)
    modifies v`disk, v`wflag, v`writeFailed, v`winsect, v.win
    ensures v.Valid() && FatStep(v.g, old(v.Img()), v.Img())
    ensures PutOutcome(v.g, old(v.Img()), v.Img(), clst, val, res)
    ensures v.reliable ==> res == FR_OK
  {
    hide Volume.Valid, Volume.Img, Volume.View, Volume.Fat, Volume.TableBytes, Image.Valid, Image.View, Geo.Valid, FatImage, FatOf, FatStep, ByteOf, Merge32, Store;
    VolumeFacts(v);
    ghost var s := v.Img();
    SectorOf32(clst, v.g.fsize);
    res := v.MoveToFat(clst / (SS / 4));
    VolumeFacts(v);
    if res != FR_OK { return; }
    ghost var t := v.Img();
    SameSector32(clst, 3);
    WindowByte(v.g, t, 4 * clst + 3);
    var m := Merge32(v.win[clst * 4 % SS + 3], val);
    PokeFour(v, clst, m, clst * 4 % SS);
    VolumeFacts(v);
    FatStepTrans(v.g, s, t, v.Img());
    StoreAsDword(FatImage(v.g, s.View()), clst, val);
  }

  lemma SectorOf32(clst: nat, fsize: nat)
    requires Fits(FAT32, fsize * SS, clst)
    ensures clst / (SS / 4) < fsize
  {
  }

  /** A little-endian dword of the table. */
  ghost function WithDword(img: seq<byte>, p: nat, m: nat): seq<byte>
    requires p + 4 <= |img|
  {
    img[p := ByteOf(m, 0)][p + 1 := ByteOf(m, 1)][p + 2 := ByteOf(m, 2)][p + 3 := ByteOf(m, 3)]
  }

  lemma StoreAsDword(img: seq<byte>, c: nat, v: nat)
    requires Fits(FAT32, |img|, c)
    ensures Store(FAT32, img, c, v) == WithDword(img, 4 * c, Merge32(img[4 * c + 3], v))
  {
    hide Merge32, ByteOf;
  }

  method PokeFour(v: Volume, clst: nat, m: nat, off: nat)
    requires v.Valid() && Fits(FAT32, v.g.fsize * SS, clst)
    requires v.winsect == v.g.fatbase + clst / (SS / 4) && off == clst * 4 % SS
    modifies v`wflag, v.win
    ensures v.Valid() && FatStep(v.g, old(v.Img()), v.Img())
    ensures v.TableBytes() == WithDword(old(v.TableBytes()), 4 * clst, m)
  {
    hide Volume.Valid, Volume.Img, Volume.View, Volume.Fat, Volume.TableBytes, Image.Valid, Image.View, Geo.Valid, FatImage, FatOf, FatStep, ByteOf;
    VolumeFacts(v);
    ghost var s := v.Img();
    SameSector32(clst, 0);
    v.Poke(off, ByteOf(m, 0), 4 * clst);
    VolumeFacts(v);
    ghost var t := v.Img();
    PokeThree(v, clst, m, off);
    VolumeFacts(v);
    FatStepTrans(v.g, s, t, v.Img());
  }

  /** The remaining three bytes of a dword. */
  method PokeThree(v: Volume, clst: nat, m: nat, off: nat)
    requires v.Valid() && Fits(FAT32, v.g.fsize * SS, clst)
    requires v.winsect == v.g.fatbase + clst / (SS / 4) && off == clst * 4 % SS
    modifies v`wflag, v.win
    ensures v.Valid() && FatStep(v.g, old(v.Img()), v.Img())
    ensures var p := Offset(FAT32, clst);
            v.TableBytes() == old(v.TableBytes())[p + 1 := ByteOf(m, 1)][p + 2 := ByteOf(m, 2)][p + 3 := ByteOf(m, 3)]
  {
    hide Volume.Valid, Volume.Img, Volume.View, Volume.Fat, Volume.TableBytes, Image.Valid, Image.View, Geo.Valid, FatImage, FatOf, FatStep, ByteOf;
    VolumeFacts(v);
    ghost var s := v.Img();
    ghost var p := Offset(FAT32, clst);
    SameSector32(clst, 1);
    SameSector32(clst, 2);
    SameSector32(clst, 3);
    v.Poke(off + 1, ByteOf(m, 1), p + 1);
    VolumeFacts(v);
    ghost var t := v.Img();
    v.Poke(off + 2, ByteOf(m, 2), p + 2);
    VolumeFacts(v);
    FatStepTrans(v.g, s, t, v.Img());
    t := v.Img();
    v.Poke(off + 3, ByteOf(m, 3), p + 3);
    VolumeFacts(v);
    FatStepTrans(v.g, s, t, v.Img());
  }

  /** A FAT32 entry never straddles two sectors. */
  lemma SameSector32(c: nat, k: nat)
    requires k < 4
    ensures (4 * c + k) / SS == c / (SS / 4) && (4 * c + k) % SS == c * 4 % SS + k
  {
    var q, r := c / 128, c % 128;
    assert 4 * c + k == 512 * q + (4 * r + k) && 4 * c == 512 * q + 4 * r;
  }

  lemma FatStepStays(g: Geo, s: Image)
    requires s.Valid(g)
    ensures FatStep(g, s, s)
  {
  }
}
