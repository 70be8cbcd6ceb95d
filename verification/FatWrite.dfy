/** f_write. */
module FatWrite {
  import opened FatBase
  import opened FatVolume
  import opened FatChains
  import opened FatAlloc
  import opened FatFileModel
  import opened FatFileState
  import opened FatFile

  /** On a cluster boundary: the cluster of the next byte, taken from the chain or newly allocated.
      got tells whether there is one; if not, and res is FR_OK, the disk is full. */
  method EnterForWrite(f: File) returns (res: FResult, got: bool)
    requires f.Valid() && f.fptr % SS == 0 && f.fptr / SS % f.vol.g.csize == 0
    modifies f`clust, f`sclust, f`chain, f.vol`disk, f.vol`wflag, f.vol`writeFailed, f.vol`winsect, f.vol`lastClst, f.vol`freeClst, f.vol.win
    ensures got ==> res == FR_OK
    ensures res == FR_OK ==> f.Sound() && f.Bytes() == old(f.Bytes())
    ensures res == FR_OK ==> Kept(f.vol.g, f.mine, old(f.vol.Img()), f.vol.Img(), old(f.chain), f.chain)
    ensures res == FR_OK && old(FreeOk(f.vol)) ==> FreeOk(f.vol)
    ensures got ==> Ready(f.vol.g, f.State()) && SameBut(old(f.State()), f.State())
    ensures res == FR_OK && !got ==> f.State() == old(f.State()) && Full(f.vol) && f.fptr == |f.chain| * f.vol.g.Bcs()
    ensures f.vol.reliable ==> res == FR_OK
  {
    hide Core, Content, Secs, Image.Valid, Image.View, FileStep, FatStep, FatOf, Kept, Ready, SameBut, Positioned, GoesOnFrom, WentOn, ClusterIndex;
    var v := f.vol;
    ghost var g, s, st := v.g, v.Img(), f.State();
    CoreValid(g, s, st);
    FileStepStays(g, f.mine, s);
    KeptSame(g, f.mine, s, s, st.chain);
    BoundaryAt(g, f.fptr);
    var clst;
    if f.fptr == 0 {
      clst := f.sclust;
      if clst == 0 {
        AtStart(g, st);
        clst := StretchTo(f, 0, -1);
        if clst > 1 && clst != INVALID {
          Entered(g, st, 0, -1, clst);
        }
      } else {
        f.clust := clst;
        FirstCluster(g, s, st);
        ClustFree(g, s, st, clst);
        FirstEntered(g, st);
        assert f.State() == st.(clust := clst);
      }
    } else {
      ghost var idx := BehindBoundary(g, s, st);
      clst := StretchTo(f, f.clust, idx);
      if clst > 1 && clst != INVALID {
        Entered(g, st, st.clust, idx, clst);
      }
    }
    if clst == 0 { return FR_OK, false; }
    if clst == 1 { return FR_INT_ERR, false; }
    if clst == INVALID { return FR_DISK_ERR, false; }
    return FR_OK, true;
  }

  /** Only the clusters may differ. */
  ghost predicate SameBut(a: FileState, b: FileState) {
    && b.fptr == a.fptr && b.sect == a.sect && b.objsize == a.objsize && b.dirty == a.dirty && b.buf == a.buf
    && b.mine == a.mine && a.chain <= b.chain
  }

  /** A file without clusters, at its beginning. */
  lemma AtStart(g: Geo, f: FileState)
    requires g.csize > 0 && f.fptr == 0 && f.chain == []
    ensures GoesOnFrom(f, 0, -1) && ClusterIndex(g, f.fptr) == 0
  {
  }

  /** The beginning of a file with clusters. */
  lemma FirstEntered(g: Geo, f: FileState)
    requires g.csize > 0 && f.fptr == 0 && |f.chain| > 0 && f.chain[0] == f.sclust
    ensures Ready(g, f.(clust := f.sclust)) && SameBut(f, f.(clust := f.sclust))
  {
  }

  /** The cluster before the boundary, from which the chain goes on. */
  lemma BehindBoundary(g: Geo, s: Image, f: FileState) returns (idx: nat)
    requires Core(g, s, f) && g.csize > 0 && Positioned(g, f) && f.fptr > 0 && f.fptr % SS == 0 && f.fptr / SS % g.csize == 0
    ensures GoesOnFrom(f, f.clust, idx) && ClusterIndex(g, f.fptr) == idx + 1
  {
    hide Core;
    BoundaryIndex(g, f.fptr);
    idx := ClusterIndex(g, f.fptr - 1);
    NotZeroCluster(g, s, f, idx);
  }

  lemma Entered(g: Geo, f: FileState, clst: nat, idx: int, r: nat)
    requires g.csize > 0 && GoesOnFrom(f, clst, idx) && ClusterIndex(g, f.fptr) == idx + 1
    requires var h := WentOn(f, clst, idx, r); idx + 1 < |h.chain| && h.chain[idx + 1] == r
    ensures Ready(g, WentOn(f, clst, idx, r)) && SameBut(f, WentOn(f, clst, idx, r))
  {
    hide ClusterIndex;
  }

  lemma FirstCluster(g: Geo, s: Image, f: FileState)
    requires Core(g, s, f) && f.sclust != 0
    ensures |f.chain| > 0 && f.chain[0] == f.sclust && f.sclust > 1 && f.sclust != INVALID
  {
    hide FatOf, Chains, WellFormed;
  }

  lemma NotZeroCluster(g: Geo, s: Image, f: FileState, idx: nat)
    requires Core(g, s, f) && idx < |f.chain|
    ensures 2 <= f.chain[idx] < g.nFatent
  {
    hide FatOf, Chains, WellFormed;
  }

  // ---------- whole sectors ----------

  /** The first n sectors of the data. */
  function Chunks(data: seq<byte>, n: nat): (r: seq<Sector>)
    requires n * SS <= |data|
    ensures |r| == n
  {
    seq(n, i requires 0 <= i < n => data[i * SS..(i + 1) * SS])
  }

  lemma JoinChunks(data: seq<byte>, n: nat)
    requires n * SS <= |data|
    ensures Join(Chunks(data, n)) == data[..n * SS]
  {
    var l, r := Join(Chunks(data, n)), data[..n * SS];
    forall q | 0 <= q < n * SS ensures l[q] == r[q] {
      assert l[q] == Chunks(data, n)[q / SS][q % SS];
      assert q == q / SS * SS + q % SS;
    }
  }

  /** Writes sectors directly, and refills the buffer if it shows one of them. */
  method WriteDirect(f: File, sect: nat, data: seq<byte>, cc: nat) returns (ok: bool)
    requires f.Sound() && !f.dirty && Ready(f.vol.g, f.State()) && f.fptr % SS == 0
    requires sect == Sec(f.vol.g, f.chain, f.fptr / SS) && 0 < cc && cc * SS <= |data|
    requires f.fptr / SS % f.vol.g.csize + cc <= f.vol.g.csize && f.fptr + cc * SS <= MAXSIZE
    modifies f`dirty, f`fptr, f`objsize, f.buf, f.vol`disk, f.vol`writeFailed
    ensures ok ==> f.Valid() && f.Bytes() == Patched(old(f.Bytes()), old(f.fptr), data[..cc * SS])
    ensures ok ==> f.fptr == old(f.fptr) + cc * SS
    ensures ok ==> Kept(f.vol.g, f.mine, old(f.vol.Img()), f.vol.Img(), f.chain, f.chain)
    ensures ok ==> f.vol.Fat() == old(f.vol.Fat())
    ensures f.vol.reliable ==> ok
  {
    hide Core, Content, Secs, Image.Valid, Image.View, FileStep, FatStep, FatOf, Kept, Sec, Positioned, Ready, Patched, Join, Flat, Chunks, Refilled;
    var v := f.vol;
    ghost var g, s, st := v.g, v.Img(), f.State();
    var sectors := Chunks(data, cc);
    JoinChunks(data, cc);
    CoreValid(g, s, st);
    DirectOutcome(g, s, st, sectors);
    ok := v.DiskWrite(sect, sectors);
    if !ok { return; }
    ghost var t := v.Img();
    assert t == DataWritten(s, sect, sectors);
    Refill(f, sect, sectors);
    f.fptr := f.fptr + SS * cc;
    f.objsize := if f.fptr > f.objsize then f.fptr else f.objsize;
    assert f.State() == Moved(Refilled(st, sect, sectors), cc * SS);
    assert v.Img() == t;
  }

  /** Everything a direct write of whole sectors does. */
  lemma DirectOutcome(g: Geo, s: Image, f: FileState, data: seq<Sector>)
    requires Core(g, s, f) && g.Valid() && s.Valid(g) && !f.dirty && Ready(g, f) && f.fptr % SS == 0
    requires 0 < |data| && f.fptr / SS % g.csize + |data| <= g.csize && f.fptr + |data| * SS <= MAXSIZE
    ensures Sec(g, f.chain, f.fptr / SS) > 0 && Sec(g, f.chain, f.fptr / SS) + |data| <= |s.disk|
    ensures var x := Sec(g, f.chain, f.fptr / SS);
            var t, h := DataWritten(s, x, data), Moved(Refilled(f, x, data), |data| * SS);
            && t.Valid(g) && Core(g, t, h) && Content(g, t, h) == Patched(Content(g, s, f), f.fptr, Join(data)) && Positioned(g, h)
            && Kept(g, f.mine, s, t, f.chain, f.chain) && FatOf(g, t.View()) == FatOf(g, s.View())
  {
    hide Core, Content, Secs, FileStep, FatOf, Kept, Sec, Positioned, Patched, Join, Image.Valid, Image.View, Geo.Valid;
    var k := f.fptr / SS;
    CoreDirect(g, s, f, k, data);
    DirectBytes(g, s, f, data);
    var x := Sec(g, f.chain, k);
    var t := DataWritten(s, x, data);
    CoreValid(g, t, Moved(Refilled(f, x, data), |data| * SS));
    KeptSame(g, f.mine, s, t, f.chain);
  }

  /** The buffer takes over a sector that has been written directly. */
  method Refill(f: File, sect: nat, sectors: seq<Sector>)
    requires f.buf.Length == SS && !f.dirty
    modifies f`dirty, f.buf
    ensures f.State() == Refilled(old(f.State()), sect, sectors)
  {
    if sect <= f.sect && f.sect < sect + |sectors| {
      var i := f.sect - sect;
      forall j | 0 <= j < SS { f.buf[j] := sectors[i][j]; }
      assert f.buf[..] == sectors[i];
      f.dirty := false;
    }
  }

  // ---------- part of a sector ----------

  function Replaced(b: Sector, off: nat, chunk: seq<byte>): (r: Sector)
    requires off + |chunk| <= SS
  {
    b[..off] + chunk + b[off + |chunk|..]
  }

  /** Copies a chunk into the buffer, which becomes the buffer of the pointer's sector. */
  method PutChunk(f: File, sect: nat, chunk: seq<byte>)
    requires f.Sound() && Ready(f.vol.g, f.State()) && f.fptr % SS + |chunk| <= SS && 0 < |chunk|
    requires f.fptr + |chunk| <= MAXSIZE && sect == Sec(f.vol.g, f.chain, f.fptr / SS)
    requires f.sect == sect || (!f.dirty && f.fptr >= f.objsize && f.fptr % SS == 0)
    modifies f`sect, f`dirty, f`fptr, f`objsize, f.buf
    ensures f.Valid() && f.Bytes() == Patched(old(f.Bytes()), old(f.fptr), chunk)
    ensures f.fptr == old(f.fptr) + |chunk|
    ensures f.vol.Img() == old(f.vol.Img()) && f.chain == old(f.chain) && f.mine == old(f.mine)
  {
    hide Core, Content, Secs, Image.Valid, Image.View, FileStep, FatStep, FatOf, Kept, Sec, Positioned, Patched;
    var v := f.vol;
    ghost var g, s, st := v.g, v.Img(), f.State();
    ghost var k := f.fptr / SS;
    var off := f.fptr % SS;
    ghost var b := Replaced(st.buf, off, chunk);
    CoreValid(g, s, st);
    if f.sect == sect {
      BufferIsSector(g, s, st, k);
    } else {
      SectorExists(g, s, st, k);
      BeyondEnd(st, |chunk|, b, Secs(g, s, st)[k]);
    }
    CoreChunk(g, s, st, b, chunk);
    f.sect := sect;
    forall i | 0 <= i < |chunk| { f.buf[off + i] := chunk[i]; }
    assert f.buf[..] == b;
    f.dirty := true;
    f.fptr := f.fptr + |chunk|;
    f.objsize := if f.fptr > f.objsize then f.fptr else f.objsize;
    assert f.State() == Moved(Buffered(st, sect, b), |chunk|);
    assert v.Img() == s;
  }

  lemma SectorExists(g: Geo, s: Image, f: FileState, k: nat)
    requires Core(g, s, f) && k / g.csize < |f.chain|
    ensures k < Capacity(g, |f.chain|)
  {
    hide FatOf, ChainOk, WindowOk, SizeOk, BufferOk;
    IndexInChain(g, f.chain, k);
  }

  /** On the growing edge everything behind the pointer in its sector is beyond the end of the file. */
  lemma BeyondEnd(f: FileState, n: nat, b: Sector, c: Sector)
    requires f.fptr >= f.objsize && f.fptr % SS == 0
    ensures KeepsRest(f, n, b, c)
  {
  }

  // ---------- one round of the loop ----------

  /** One round of the f_write loop: n bytes go into the file; n == 0 with FR_OK means the disk is full. */
  method WriteRound(f: File, data: seq<byte>) returns (res: FResult, n: nat)
    requires f.Valid() && 0 < |data| && f.fptr + |data| <= MAXSIZE
    modifies f`clust, f`sclust, f`chain, f`sect, f`dirty, f`fptr, f`objsize, f.buf, f.vol`disk, f.vol`wflag, f.vol`writeFailed, f.vol`winsect, f.vol`lastClst, f.vol`freeClst, f.vol.win
    ensures n <= |data|
    ensures res == FR_OK ==> f.Valid() && f.Bytes() == Patched(old(f.Bytes()), old(f.fptr), data[..n]) && f.fptr == old(f.fptr) + n
    ensures res == FR_OK ==> Kept(f.vol.g, f.mine, old(f.vol.Img()), f.vol.Img(), old(f.chain), f.chain)
    ensures res == FR_OK && old(FreeOk(f.vol)) ==> FreeOk(f.vol)
    ensures res == FR_OK ==> f.mine == old(f.mine)
    ensures res == FR_OK && n == 0 ==> Full(f.vol) && f.fptr == |f.chain| * f.vol.g.Bcs()
    ensures f.vol.reliable ==> res == FR_OK
  {
    hide Core, Content, Secs, Image.Valid, Image.View, FileStep, FatStep, FatOf, Kept, Sec, Positioned, Patched, Ready;
    var v := f.vol;
    ghost var g, s, st := v.g, v.Img(), f.State();
    CoreValid(g, s, st);
    n := 0;
    if f.fptr % SS == 0 {
      var csect := f.fptr / SS % v.g.csize;
      if csect == 0 {
        var got;
        res, got := EnterForWrite(f);
        if !got {
          if res == FR_OK {
            CoreSize(g, v.Img(), f.State());
            NothingWritten(f.Bytes(), f.fptr, data);
          }
          return;
        }
      } else {
        StaysReady(g, st);
        FileStepStays(g, f.mine, s);
        KeptSame(g, f.mine, s, s, st.chain);
      }
      ghost var t, c1 := v.Img(), f.chain;
      CoreValid(g, t, f.State());
      res, n := WriteAtBoundary(f, data, csect);
      if res == FR_OK {
        CoreValid(g, v.Img(), f.State());
        KeptTrans(g, f.mine, s, t, v.Img(), st.chain, c1, f.chain);
      }
    } else {
      StaysReady(g, st);
      PositionedSector(g, st);
      n := SS - f.fptr % SS;
      if n > |data| { n := |data|; }
      PutChunk(f, f.sect, data[..n]);
      FileStepStays(g, f.mine, s);
      KeptSame(g, f.mine, s, s, st.chain);
      res := FR_OK;
    }
  }

  lemma PositionedSector(g: Geo, f: FileState)
    requires g.csize > 0 && Positioned(g, f) && f.fptr % SS != 0
    ensures ClusterIndex(g, f.fptr) < |f.chain| && f.sect == Sec(g, f.chain, f.fptr / SS)
  {
  }

  lemma CoreSize(g: Geo, s: Image, f: FileState)
    requires Core(g, s, f)
    ensures f.fptr <= f.objsize <= MAXSIZE
  {
  }

  lemma NothingWritten(b: seq<byte>, p: nat, data: seq<byte>)
    requires p <= |b|
    ensures Patched(b, p, data[..0]) == b
  {
  }

  /** The rest of the round on a sector boundary, once the cluster is known. */
  method WriteAtBoundary(f: File, data: seq<byte>, csect: nat) returns (res: FResult, n: nat)
    requires f.Sound() && Ready(f.vol.g, f.State()) && f.fptr % SS == 0 && csect == f.fptr / SS % f.vol.g.csize
    requires 0 < |data| && f.fptr + |data| <= MAXSIZE
    modifies f`sect, f`dirty, f`fptr, f`objsize, f.buf, f.vol`disk, f.vol`writeFailed
    ensures n <= |data|
    ensures res == FR_OK ==> 0 < n && f.Valid() && f.Bytes() == Patched(old(f.Bytes()), old(f.fptr), data[..n])
    ensures res == FR_OK ==> f.fptr == old(f.fptr) + n
    ensures res == FR_OK ==> Kept(f.vol.g, f.mine, old(f.vol.Img()), f.vol.Img(), f.chain, f.chain)
    ensures res == FR_OK ==> f.vol.Fat() == old(f.vol.Fat())
    ensures f.vol.reliable ==> res == FR_OK
  {
    hide Core, Flat, Secs, Image.Valid, Image.View, FileStep, FatStep, FatOf, Kept, Sec, Positioned, Patched, ClusterBase;
    var v := f.vol;
    ghost var g, s := v.g, v.Img();
    CoreValid(g, s, f.State());
    n := 0;
    var ok := Flush(f);
    if !ok { return FR_DISK_ERR, n; }
    ghost var t, st := v.Img(), f.State();
    CoreValid(g, t, st);
    KeptSame(g, f.mine, s, t, f.chain);
    ReadyCluster(g, t, st);
    var base := Clst2Sect(v.g, f.clust);
    if base == 0 { return FR_INT_ERR, n; }
    var sect: nat := base + csect;
    var cc := |data| / SS;
    if cc > 0 {
      if csect + cc > v.g.csize { cc := v.g.csize - csect; }
      ok := WriteDirect(f, sect, data, cc);
      if !ok { return FR_DISK_ERR, n; }
      n := SS * cc;
    } else {
      if f.sect != sect && f.fptr < f.objsize {
        ok := LoadBuffer(f, sect);
        if !ok { return FR_DISK_ERR, n; }
      }
      n := SS - f.fptr % SS;
      if n > |data| { n := |data|; }
      PutChunk(f, sect, data[..n]);
      FileStepStays(g, f.mine, t);
      KeptSame(g, f.mine, t, t, f.chain);
    }
    CoreValid(g, v.Img(), f.State());
    KeptTrans(g, f.mine, s, t, v.Img(), f.chain, f.chain, f.chain);
    res := FR_OK;
  }

  /** The pointer's cluster gives the pointer's sector, which belongs to the file. */
  lemma ReadyCluster(g: Geo, s: Image, f: FileState)
    requires Core(g, s, f) && Ready(g, f)
    ensures 2 <= f.clust < g.nFatent && Clst2Sect(g, f.clust) > 0
    ensures Clst2Sect(g, f.clust) + f.fptr / SS % g.csize == Sec(g, f.chain, f.fptr / SS)
    ensures MineSector(g, f.mine, Sec(g, f.chain, f.fptr / SS))
  {
    hide FatOf, Chains, WellFormed, BufferOk, WindowOk, SizeOk, Clst2Sect, ClusterOf;
    ValidSizes(g, s);
    Clst2SectIsBase(g, f.clust);
    SecIsMine(g, FatOf(g, s.View()), f, f.fptr / SS);
  }

  // ---------- f_write ----------

  /** The clip that keeps the file size below 4 GiB, on the unsigned 32-bit sum. */
  function Clipped(fptr: nat, btw: nat): nat {
    if (fptr + btw) % 0x1_0000_0000 < fptr then 0xFFFFFFFF - fptr % 0x1_0000_0000 else btw
  }

  lemma ClippedFits(fptr: nat, btw: nat)
    requires fptr <= MAXSIZE && btw <= MAXSIZE
    ensures fptr + Clipped(fptr, btw) <= MAXSIZE && Clipped(fptr, btw) <= btw
    ensures fptr + btw <= MAXSIZE ==> Clipped(fptr, btw) == btw
  {
  }

  /** f_write: the data, as far as it fits, is laid over the file's bytes at the pointer,
      which moves behind it; short of the clip only if no cluster could be had, and then the
      pointer is at the end of the file and of its last cluster. */
  method Write(f: File, wbuff: seq<byte>) returns (res: FResult, bw: nat)
    requires f.Valid() && |wbuff| <= MAXSIZE
    modifies f`err, f`modified, f`clust, f`sclust, f`chain, f`sect, f`dirty, f`fptr, f`objsize, f.buf, f.vol`disk, f.vol`wflag, f.vol`writeFailed, f.vol`winsect, f.vol`lastClst, f.vol`freeClst, f.vol.win
    ensures old(f.err) != FR_OK ==> res == old(f.err) && bw == 0 && f.err == old(f.err)
    ensures old(f.err) == FR_OK && !f.canWrite ==> res == FR_DENIED && bw == 0
    ensures old(f.err) != FR_OK || !f.canWrite ==> f.Valid() && f.Bytes() == old(f.Bytes()) && f.fptr == old(f.fptr)
    ensures res == FR_OK ==> f.Valid() && f.err == FR_OK && f.modified && bw <= Clipped(old(f.fptr), |wbuff|) <= |wbuff|
    ensures res == FR_OK ==> f.Bytes() == Patched(old(f.Bytes()), old(f.fptr), wbuff[..bw]) && f.fptr == old(f.fptr) + bw
    ensures res == FR_OK && bw < Clipped(old(f.fptr), |wbuff|) ==> Full(f.vol) && f.fptr == f.objsize == |f.chain| * f.vol.g.Bcs()
    ensures res == FR_OK ==> Kept(f.vol.g, f.mine, old(f.vol.Img()), f.vol.Img(), old(f.chain), f.chain)
    ensures res == FR_OK && old(FreeOk(f.vol)) ==> FreeOk(f.vol)
    ensures f.vol.reliable && old(f.err) == FR_OK && f.canWrite ==> res == FR_OK
  {
    hide Core, Content, Secs, Image.Valid, Image.View, FileStep, FatStep, FatOf, Kept, Positioned, Patched, Clipped;
    var v := f.vol;
    bw := 0;
    res := f.err;
    if res != FR_OK { return; }
    if !f.canWrite { return FR_DENIED, bw; }
    ghost var g, s, st := v.g, v.Img(), f.State();
    CoreValid(g, s, st);
    CoreSize(g, s, st);
    ClippedFits(f.fptr, |wbuff|);
    FileStepStays(g, f.mine, s);
    KeptSame(g, f.mine, s, s, st.chain);
    var btw := Clipped(f.fptr, |wbuff|);
    NothingWritten(f.Bytes(), f.fptr, wbuff);
    while bw < btw
      invariant bw <= btw <= |wbuff| && f.Valid() && res == f.err == FR_OK && f.mine == old(f.mine)
      invariant f.fptr == old(f.fptr) + bw && old(f.fptr) + btw <= MAXSIZE
      invariant f.Bytes() == Patched(old(f.Bytes()), old(f.fptr), wbuff[..bw])
      invariant Kept(g, f.mine, s, v.Img(), st.chain, f.chain)
      invariant old(FreeOk(v)) ==> FreeOk(v)
      decreases btw - bw
    {
      ghost var t, c1, before := v.Img(), f.chain, f.Bytes();
      CoreValid(g, t, f.State());
      var n;
      res, n := WriteRound(f, wbuff[bw..btw]);
      if res != FR_OK { f.err := res; return; }
      CoreValid(g, v.Img(), f.State());
      KeptTrans(g, f.mine, s, t, v.Img(), st.chain, c1, f.chain);
      PatchedNext(old(f.Bytes()), old(f.fptr), wbuff, bw, btw, n);
      bw := bw + n;
      if n == 0 {
        AtEnd(g, v.Img(), f.State());
        break;
      }
    }
    f.modified := true;
    assert f.State() == f.State();
  }

  lemma PatchedNext(s: seq<byte>, p: nat, data: seq<byte>, i: nat, m: nat, n: nat)
    requires p <= |s| && i <= m <= |data| && n <= m - i
    ensures p + i <= |Patched(s, p, data[..i])|
    ensures Patched(Patched(s, p, data[..i]), p + i, data[i..m][..n]) == Patched(s, p, data[..i + n])
  {
    hide Patched;
    PatchedSize(s, p, data[..i]);
    PatchedTwice(s, p, data[..i], data[i..m][..n]);
    assert data[..i] + data[i..m][..n] == data[..i + n];
  }
}
