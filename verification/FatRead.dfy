/** f_read. */
module FatRead {
  import opened FatBase
  import opened FatVolume
  import opened FatChains
  import opened FatAlloc
  import opened FatFileModel
  import opened FatFileState
  import opened FatFile
  import opened FatWrite

  // ---------- the cluster ----------

  /** A byte below the end of the file has its cluster in the chain. */
  lemma IndexBelowEnd(g: Geo, s: Image, f: FileState, p: nat)
    requires Core(g, s, f) && p < f.objsize
    ensures ClusterIndex(g, p) < |f.chain| && p / SS < Capacity(g, |f.chain|)
  {
    hide FatOf, ChainOk, BufferOk, WindowOk;
    IndexInChain(g, f.chain, p / SS);
  }

  /** On a cluster boundary: the cluster of the next byte, found on the FAT. */
  method EnterForRead(f: File) returns (res: FResult)
    requires f.Valid() && f.fptr < f.objsize && f.fptr % SS == 0 && f.fptr / SS % f.vol.g.csize == 0
    modifies f`clust, f.vol`disk, f.vol`wflag, f.vol`writeFailed, f.vol`winsect, f.vol.win
    ensures res == FR_OK ==> f.Sound() && Ready(f.vol.g, f.State()) && f.State() == old(f.State()).(clust := f.clust)
    ensures res == FR_OK ==> Secs(f.vol.g, f.vol.Img(), f.State()) == old(Secs(f.vol.g, f.vol.Img(), f.State()))
    ensures res == FR_OK ==> Kept(f.vol.g, f.mine, old(f.vol.Img()), f.vol.Img(), f.chain, f.chain)
    ensures res == FR_OK ==> f.vol.Fat() == old(f.vol.Fat())
    ensures f.vol.reliable ==> res == FR_OK
  {
    hide Core, Content, Secs, Image.Valid, Image.View, FileStep, FatStep, FatOf, Kept;
    var v := f.vol;
    ghost var g, s, st := v.g, v.Img(), f.State();
    CoreValid(g, s, st);
    IndexBelowEnd(g, s, st, f.fptr);
    FatStepStays(g, s);
    var clst;
    if f.fptr == 0 {
      clst := f.sclust;
      FirstCluster2(g, s, st);
      MemberRange(g, s, st, 0);
    } else {
      BoundaryIndex(g, f.fptr);
      NextCluster(g, s, st, ClusterIndex(g, f.fptr - 1));
      MemberRange(g, s, st, ClusterIndex(g, f.fptr));
      clst := GetFat(v, f.clust);
    }
    ghost var t := v.Img();
    ReadTraffic(g, s, t, st, clst);
    CoreValid(g, t, st);
    if clst < 2 { return FR_INT_ERR; }
    if clst == INVALID { return FR_DISK_ERR; }
    f.clust := clst;
    assert f.State() == st.(clust := clst);
    return FR_OK;
  }

  lemma FirstCluster2(g: Geo, s: Image, f: FileState)
    requires Core(g, s, f) && |f.chain| > 0
    ensures f.sclust == f.chain[0]
  {
    hide FatOf, Chains, WellFormed;
  }

  /** The FAT leads from each cluster of the file to the next one. */
  lemma NextCluster(g: Geo, s: Image, f: FileState, idx: nat)
    requires Core(g, s, f) && idx + 1 < |f.chain|
    ensures 2 <= f.chain[idx] < g.nFatent && 2 <= f.chain[idx + 1] < g.nFatent
    ensures FatOf(g, s.View())[f.chain[idx]] == f.chain[idx + 1]
  {
    hide FatOf, BufferOk, WindowOk, SizeOk, WellFormed;
    ChainIsMine(g, FatOf(g, s.View()), f);
    FollowLink(g, FatOf(g, s.View()), f, f.chain[idx], idx);
  }

  /** Reading the FAT changes nothing for the file. */
  lemma ReadTraffic(g: Geo, s: Image, t: Image, f: FileState, clst: nat)
    requires Core(g, s, f) && FatStep(g, s, t) && t.Valid(g) && FatOf(g, t.View()) == FatOf(g, s.View())
    ensures Core(g, t, f.(clust := clst)) && Secs(g, t, f.(clust := clst)) == Secs(g, s, f) && Core(g, t, f)
    ensures Kept(g, f.mine, s, t, f.chain, f.chain)
  {
    hide Core, Secs, FatOf, FatStep, FileStep, Kept, Image.Valid;
    CoreValid(g, s, f);
    CoreFatStep(g, s, t, f);
    ClustFree(g, t, f, clst);
    FatStepIsFileStep(g, f.mine, s, t);
    KeptSame(g, f.mine, s, t, f.chain);
  }

  lemma CoreFits(g: Geo, s: Image, f: FileState)
    requires Core(g, s, f)
    ensures f.fptr <= f.objsize <= |Secs(g, s, f)| * SS
  {
    hide FatOf, ChainOk, BufferOk, WindowOk, Sectors;
  }

  // ---------- whole sectors ----------

  function JoinBytes(data: seq<Sector>): (r: seq<byte>)
    ensures |r| == |data| * SS
    ensures r == Join(data)
  {
    if data == [] then []
    else
      JoinSplit(data);
      JoinBytes(data[..|data| - 1]) + data[|data| - 1]
  }

  lemma JoinSplit(data: seq<Sector>)
    requires |data| > 0
    ensures Join(data) == Join(data[..|data| - 1]) + data[|data| - 1]
  {
    var l, r := Join(data), Join(data[..|data| - 1]) + data[|data| - 1];
    forall q | 0 <= q < |l| ensures l[q] == r[q] {
      ShiftPlace(|data| - 1, if q >= (|data| - 1) * SS then q else (|data| - 1) * SS);
    }
  }

  /** Reads sectors directly, with the dirty buffer in the place of its sector. */
  method ReadDirect(f: File, sect: nat, cc: nat) returns (ok: bool, chunk: seq<byte>)
    requires f.Sound() && Ready(f.vol.g, f.State()) && f.fptr % SS == 0 && sect == Sec(f.vol.g, f.chain, f.fptr / SS)
    requires 0 < cc && f.fptr / SS % f.vol.g.csize + cc <= f.vol.g.csize && f.fptr + cc * SS <= f.objsize
    ensures ok ==> |chunk| == cc * SS && chunk == f.Bytes()[f.fptr..f.fptr + cc * SS]
    ensures f.vol.reliable ==> ok
  {
    hide Core, Content, Image.Valid, Image.View, FatOf, Sec, Ready, Join, Media;
    var v := f.vol;
    ghost var g, s, st := v.g, v.Img(), f.State();
    CoreValid(g, s, st);
    DirectSlice(g, s, st, cc);
    var data;
    ok, data := v.DiskRead(sect, cc);
    if !ok { return ok, []; }
    BufferSector(g, s, st);
    BufferLaidOver(st, s.disk, sect, cc);
    if f.dirty && (f.sect - sect) % 0x1_0000_0000 < cc {
      data := data[f.sect - sect := f.buf[..]];
    }
    assert data == Media(s.disk, st)[sect..sect + cc];
    chunk := JoinBytes(data);
  }

  /** The sectors at the pointer, dirty buffer included, are the bytes from the pointer on. */
  lemma DirectSlice(g: Geo, s: Image, f: FileState, n: nat)
    requires Core(g, s, f) && g.csize > 0 && Ready(g, f) && f.fptr % SS == 0 && 0 < n
    requires f.fptr / SS % g.csize + n <= g.csize && f.fptr + n * SS <= f.objsize
    ensures Sec(g, f.chain, f.fptr / SS) > 0 && Sec(g, f.chain, f.fptr / SS) + n <= |s.disk|
    ensures f.fptr + n * SS <= |Content(g, s, f)|
    ensures var x := Sec(g, f.chain, f.fptr / SS);
            Join(Media(s.disk, f)[x..x + n]) == Content(g, s, f)[f.fptr..f.fptr + n * SS]
  {
    hide Core, Image.Valid, Image.View, FatOf, Sec, Sectors, Flat, Join, Media;
    var k := f.fptr / SS;
    DirectRead(g, s, f, k, n);
    CoreFits(g, s, f);
    FlatSlice(Secs(g, s, f), k, n, f.objsize);
  }

  /** The unsigned difference tells whether the dirty buffer lies among the sectors. */
  lemma BufferLaidOver(f: FileState, d: seq<Sector>, x: nat, n: nat)
    requires x + n <= |d| <= INVALID && (f.dirty ==> 0 < f.sect < |d|)
    ensures f.dirty ==> ((f.sect - x) % 0x1_0000_0000 < n <==> x <= f.sect < x + n)
    ensures Media(d, f)[x..x + n] == if f.dirty && x <= f.sect < x + n then d[x..x + n][f.sect - x := f.buf] else d[x..x + n]
  {
  }

  lemma BufferSector(g: Geo, s: Image, f: FileState)
    requires Core(g, s, f)
    ensures |s.disk| <= INVALID && (f.dirty ==> 0 < f.sect < |s.disk|)
  {
    hide FatOf, ChainOk;
  }

  // ---------- one round of the loop ----------

  /** Makes the buffer hold the pointer's sector. */
  method Cache(f: File, sect: nat) returns (ok: bool)
    requires f.Sound() && MineSector(f.vol.g, f.mine, sect)
    modifies f`sect, f`dirty, f.buf, f.vol`disk, f.vol`writeFailed
    ensures ok ==> f.Sound() && f.sect == sect
    ensures ok ==> f.State() == old(f.State()).(sect := f.sect, dirty := f.dirty, buf := f.buf[..])
    ensures ok ==> Secs(f.vol.g, f.vol.Img(), f.State()) == old(Secs(f.vol.g, f.vol.Img(), f.State()))
    ensures ok ==> Kept(f.vol.g, f.mine, old(f.vol.Img()), f.vol.Img(), f.chain, f.chain)
    ensures ok ==> f.vol.Fat() == old(f.vol.Fat())
    ensures f.vol.reliable ==> ok
  {
    hide Core, Content, Secs, Image.Valid, Image.View, FileStep, FatStep, FatOf, Kept;
    var v := f.vol;
    ghost var g, s, st := v.g, v.Img(), f.State();
    CoreValid(g, s, st);
    FileStepStays(g, f.mine, s);
    KeptSame(g, f.mine, s, s, f.chain);
    ok := true;
    if f.sect != sect {
      ok := Flush(f);
      CoreValid(g, v.Img(), f.State());
      KeptSame(g, f.mine, s, v.Img(), f.chain);
      if ok {
        ok := LoadBuffer(f, sect);
      }
    }
  }

  /** One round of the f_read loop: at least one byte at the pointer is delivered. */
  method ReadRound(f: File, btr: nat) returns (res: FResult, chunk: seq<byte>)
    requires f.Valid() && 0 < btr && f.fptr + btr <= f.objsize
    modifies f`clust, f`sect, f`dirty, f`fptr, f.buf, f.vol`disk, f.vol`wflag, f.vol`writeFailed, f.vol`winsect, f.vol.win
    ensures res == FR_OK ==> f.Valid() && f.Bytes() == old(f.Bytes()) && 0 < |chunk| <= btr
    ensures res == FR_OK ==> f.fptr == old(f.fptr) + |chunk| && chunk == f.Bytes()[old(f.fptr)..f.fptr]
    ensures res == FR_OK ==> Kept(f.vol.g, f.mine, old(f.vol.Img()), f.vol.Img(), f.chain, f.chain)
    ensures res == FR_OK ==> f.vol.Fat() == old(f.vol.Fat())
    ensures f.vol.reliable ==> res == FR_OK
  {
    hide Core, Flat, Secs, Image.Valid, Image.View, FileStep, FatStep, FatOf, Kept, Sec, Positioned, Ready;
    var v := f.vol;
    ghost var g, s, st := v.g, v.Img(), f.State();
    CoreValid(g, s, st);
    chunk := [];
    if f.fptr % SS == 0 {
      var csect := f.fptr / SS % v.g.csize;
      if csect == 0 {
        res := EnterForRead(f);
        if res != FR_OK { return; }
      } else {
        StaysReady(g, st);
        FileStepStays(g, f.mine, s);
        KeptSame(g, f.mine, s, s, st.chain);
      }
      ghost var t := v.Img();
      CoreValid(g, t, f.State());
      res, chunk := ReadAtBoundary(f, btr, csect);
      if res == FR_OK {
        CoreValid(g, v.Img(), f.State());
        KeptTrans(g, f.mine, s, t, v.Img(), f.chain, f.chain, f.chain);
      }
    } else {
      StaysReady(g, st);
      PositionedSector(g, st);
      chunk := TakeChunk(f, btr);
      FileStepStays(g, f.mine, s);
      KeptSame(g, f.mine, s, s, f.chain);
      res := FR_OK;
    }
  }

  /** Copies what the buffered sector holds from the pointer on, at most btr bytes. */
  method TakeChunk(f: File, btr: nat) returns (chunk: seq<byte>)
    requires f.Sound() && Ready(f.vol.g, f.State()) && 0 < btr && f.fptr + btr <= f.objsize
    requires f.sect == Sec(f.vol.g, f.chain, f.fptr / SS)
    modifies f`fptr
    ensures f.Valid() && f.Bytes() == old(f.Bytes()) && 0 < |chunk| <= btr
    ensures f.fptr == old(f.fptr) + |chunk| && chunk == f.Bytes()[old(f.fptr)..f.fptr]
    ensures f.vol.Img() == old(f.vol.Img())
  {
    hide Core, Content, Image.Valid, Image.View, FatOf, Sec, Positioned, Ready;
    var v := f.vol;
    ghost var g, s, st := v.g, v.Img(), f.State();
    CoreValid(g, s, st);
    var rcnt := SS - f.fptr % SS;
    if rcnt > btr { rcnt := btr; }
    chunk := f.buf[f.fptr % SS..f.fptr % SS + rcnt];
    ChunkTaken(g, s, st, rcnt);
    f.fptr := f.fptr + rcnt;
    assert f.State() == Moved(st, rcnt) && v.Img() == s;
  }

  /** The buffered sector holds the bytes at the pointer, which moves on within it or to its end. */
  lemma ChunkTaken(g: Geo, s: Image, f: FileState, n: nat)
    requires Core(g, s, f) && g.csize > 0 && Ready(g, f) && f.sect == Sec(g, f.chain, f.fptr / SS)
    requires 0 < n && f.fptr % SS + n <= SS && f.fptr + n <= f.objsize
    ensures Core(g, s, Moved(f, n)) && Positioned(g, Moved(f, n)) && Content(g, s, Moved(f, n)) == Content(g, s, f)
    ensures f.fptr + n <= |Content(g, s, f)|
    ensures f.buf[f.fptr % SS..f.fptr % SS + n] == Content(g, s, f)[f.fptr..f.fptr + n]
  {
    hide Core, Flat, Secs, Image.Valid, Image.View, FatOf, Sec;
    CoreSize(g, s, f);
    IndexBelowEnd(g, s, f, f.fptr);
    BufferIsSector(g, s, f, f.fptr / SS);
    CoreFits(g, s, f);
    FlatPart(Secs(g, s, f), f.objsize, f.fptr, n);
    CoreRead(g, s, f, n);
    ChunkPosition(g, f, n);
  }

  /** The pointer moves over whole sectors. */
  lemma SectorsTaken(g: Geo, s: Image, f: FileState, n: nat)
    requires Core(g, s, f) && g.csize > 0 && Ready(g, f) && f.fptr % SS == 0
    requires 0 < n && f.fptr / SS % g.csize + n <= g.csize && f.fptr + n * SS <= f.objsize
    ensures Core(g, s, Moved(f, n * SS)) && Positioned(g, Moved(f, n * SS))
    ensures Content(g, s, Moved(f, n * SS)) == Content(g, s, f)
  {
    hide Core, Flat, Secs, Image.Valid, Image.View, FatOf, Sec;
    CoreRead(g, s, f, n * SS);
    DirectPosition(g, f, n);
  }

  lemma FlatPart(secs: seq<Sector>, n: nat, p: nat, m: nat)
    requires p + m <= n <= |secs| * SS && p % SS + m <= SS && 0 < m
    ensures p / SS < |secs| && Flat(secs, n)[p..p + m] == secs[p / SS][p % SS..p % SS + m]
  {
    var l, r := Flat(secs, n)[p..p + m], secs[p / SS][p % SS..p % SS + m];
    forall i | 0 <= i < m ensures l[i] == r[i] {
      assert (p + i) / SS == p / SS && (p + i) % SS == p % SS + i;
    }
  }

  /** Moving the pointer within the file. */
  lemma CoreRead(g: Geo, s: Image, f: FileState, n: nat)
    requires Core(g, s, f) && f.fptr + n <= f.objsize
    ensures Core(g, s, Moved(f, n)) && Secs(g, s, Moved(f, n)) == Secs(g, s, f) && Moved(f, n).objsize == f.objsize
  {
    hide FatOf, ChainOk, BufferOk, WindowOk;
    CoreMoved(g, s, f, n);
  }

  lemma SameContent(g: Geo, s: Image, t: Image, f: FileState, h: FileState)
    requires Core(g, s, f) && Core(g, t, h) && g.csize > 0 && h == f.(sect := h.sect, dirty := h.dirty, buf := h.buf)
    requires Secs(g, t, h) == Secs(g, s, f)
    ensures Content(g, t, h) == Content(g, s, f) && (Ready(g, f) ==> Ready(g, h))
  {
    hide Core, Secs;
  }

  /** The rest of the round on a sector boundary, once the cluster is known. */
  method ReadAtBoundary(f: File, btr: nat, csect: nat) returns (res: FResult, chunk: seq<byte>)
    requires f.Sound() && Ready(f.vol.g, f.State()) && f.fptr % SS == 0 && csect == f.fptr / SS % f.vol.g.csize
    requires 0 < btr && f.fptr + btr <= f.objsize
    modifies f`sect, f`dirty, f`fptr, f.buf, f.vol`disk, f.vol`writeFailed
    ensures res == FR_OK ==> f.Valid() && f.Bytes() == old(f.Bytes()) && 0 < |chunk| <= btr
    ensures res == FR_OK ==> f.fptr == old(f.fptr) + |chunk| && chunk == f.Bytes()[old(f.fptr)..f.fptr]
    ensures res == FR_OK ==> Kept(f.vol.g, f.mine, old(f.vol.Img()), f.vol.Img(), f.chain, f.chain)
    ensures res == FR_OK ==> f.vol.Fat() == old(f.vol.Fat())
    ensures f.vol.reliable ==> res == FR_OK
  {
    hide Core, Content, Secs, Image.Valid, Image.View, FileStep, FatStep, FatOf, Kept, Sec, ClusterBase, Positioned, Ready;
    var v := f.vol;
    ghost var g, s, st := v.g, v.Img(), f.State();
    CoreValid(g, s, st);
    FileStepStays(g, f.mine, s);
    KeptSame(g, f.mine, s, s, f.chain);
    chunk := [];
    ReadyCluster(g, s, st);
    var base := Clst2Sect(v.g, f.clust);
    if base == 0 { return FR_INT_ERR, chunk; }
    var sect: nat := base + csect;
    var cc := btr / SS;
    if cc > 0 {
      if csect + cc > v.g.csize { cc := v.g.csize - csect; }
      var ok;
      ok, chunk := ReadDirect(f, sect, cc);
      if !ok { return FR_DISK_ERR, chunk; }
      SectorsTaken(g, s, st, cc);
      f.fptr := f.fptr + SS * cc;
      assert f.State() == Moved(st, cc * SS);
    } else {
      var ok := Cache(f, sect);
      if !ok { return FR_DISK_ERR, chunk; }
      SameContent(g, s, v.Img(), st, f.State());
      chunk := TakeChunk(f, btr);
    }
    res := FR_OK;
  }

  // ---------- f_read ----------

  /** f_read: delivers the bytes from the pointer on, as far as asked for and as far as
      the file reaches, and moves the pointer behind them; the bytes stay as they are. */
  method Read(f: File, btr: nat) returns (res: FResult, rbuff: seq<byte>)
    requires f.Valid()
    modifies f`err, f`clust, f`sect, f`dirty, f`fptr, f.buf, f.vol`disk, f.vol`wflag, f.vol`writeFailed, f.vol`winsect, f.vol.win
    ensures old(f.err) != FR_OK ==> res == old(f.err) && rbuff == [] && f.err == old(f.err)
    ensures old(f.err) == FR_OK && !f.canRead ==> res == FR_DENIED && rbuff == []
    ensures old(f.err) != FR_OK || !f.canRead ==> f.Valid() && f.Bytes() == old(f.Bytes()) && f.fptr == old(f.fptr)
    ensures res == FR_OK ==> f.Valid() && f.err == FR_OK && f.Bytes() == old(f.Bytes())
    ensures res == FR_OK ==> |rbuff| == (if btr > f.objsize - old(f.fptr) then f.objsize - old(f.fptr) else btr)
    ensures res == FR_OK ==> f.fptr == old(f.fptr) + |rbuff| && rbuff == f.Bytes()[old(f.fptr)..f.fptr]
    ensures res == FR_OK ==> Kept(f.vol.g, f.mine, old(f.vol.Img()), f.vol.Img(), f.chain, f.chain)
    ensures res == FR_OK ==> f.vol.Fat() == old(f.vol.Fat())
    ensures f.vol.reliable && old(f.err) == FR_OK && f.canRead ==> res == FR_OK
  {
    hide Core, Content, Secs, Image.Valid, Image.View, FileStep, FatStep, FatOf, Kept, Positioned;
    var v := f.vol;
    rbuff := [];
    res := f.err;
    if res != FR_OK { return; }
    if !f.canRead { return FR_DENIED, rbuff; }
    ghost var g, s, st := v.g, v.Img(), f.State();
    CoreValid(g, s, st);
    CoreSize(g, s, st);
    FileStepStays(g, f.mine, s);
    KeptSame(g, f.mine, s, s, st.chain);
    var remain := f.objsize - f.fptr;
    var n := btr;
    if n > remain { n := remain; }
    ghost var all, start := f.Bytes(), f.fptr;
    while |rbuff| < n
      invariant |rbuff| <= n && f.Valid() && res == f.err == FR_OK && f.Bytes() == all && start + n <= |all|
      invariant f.fptr == start + |rbuff| && rbuff == all[start..start + |rbuff|]
      invariant Kept(g, f.mine, s, v.Img(), f.chain, f.chain) && v.Fat() == old(v.Fat())
      decreases n - |rbuff|
    {
      ghost var t := v.Img();
      CoreValid(g, t, f.State());
      var chunk;
      res, chunk := ReadRound(f, n - |rbuff|);
      if res != FR_OK { f.err := res; return; }
      CoreValid(g, v.Img(), f.State());
      KeptTrans(g, f.mine, s, t, v.Img(), f.chain, f.chain, f.chain);
      JoinRead(all, start, |rbuff|, |chunk|);
      rbuff := rbuff + chunk;
    }
  }

  lemma JoinRead(all: seq<byte>, start: nat, m: nat, n: nat)
    requires start + m + n <= |all|
    ensures all[start..start + m] + all[start + m..start + m + n] == all[start..start + m + n]
  {
  }
}
