/** f_lseek and f_truncate. */
module FatSeek {
  import opened Arith
  import opened FatBase
  import opened FatCodec
  import opened FatVolume
  import opened FatChains
  import opened FatAlloc
  import opened FatFileModel
  import opened FatFileState
  import opened FatFile
  import opened FatWrite
  import opened FatRead

  // ---------- walking along the chain ----------

  /** pos is the start of a cluster of the chain, and that cluster is the pointer's. */
  ghost predicate AtCluster(g: Geo, f: FileState, pos: nat, idx: nat)
    requires g.csize > 0
  {
    pos == idx * g.Bcs() && idx < |f.chain| && f.clust == f.chain[idx]
  }

  lemma ClusterStart(g: Geo, p: nat)
    requires g.csize > 0
    ensures ClusterIndex(g, p) * g.Bcs() <= p < (ClusterIndex(g, p) + 1) * g.Bcs()
    ensures p / g.Bcs() * g.Bcs() == ClusterIndex(g, p) * g.Bcs()
  {
    ClusterIndexBcs(g, p);
    var b := g.Bcs();
    assert p == b * (p / b) + p % b;
    assert b * (p / b) == p / b * b;
    assert (p / b + 1) * b == p / b * b + b;
  }

  /** Where the pointer ends up: rest bytes into the cluster idx, or at its end. */
  lemma LandIn(g: Geo, pos: nat, idx: nat, rest: nat)
    requires g.csize > 0 && pos == idx * g.Bcs() && 0 < rest <= g.Bcs()
    ensures ClusterIndex(g, pos + rest - 1) == idx
    ensures rest % SS != 0 ==> ClusterIndex(g, pos + rest) == idx && (pos + rest) / SS % g.csize == rest / SS
    ensures (pos + rest) % SS == rest % SS
  {
    var c := g.csize;
    MulNat(c, idx);
    Reordered(idx, c);
    InCluster(c, idx, rest - 1);
    if rest % SS != 0 {
      InCluster(c, idx, rest);
    }
    DivNat(rest, SS);
    DivUnique(pos + rest, SS, c * idx + rest / SS, rest % SS);
  }

  lemma Reordered(idx: nat, c: nat)
    ensures idx * (c * SS) == SS * (c * idx)
  {
  }

  lemma InCluster(c: nat, idx: nat, r: nat)
    requires c > 0 && r < c * SS
    ensures (SS * (c * idx) + r) / SS / c == idx && (SS * (c * idx) + r) / SS % c == r / SS
  {
    DivUnique(SS * (c * idx) + r, SS, c * idx + r / SS, r % SS);
    DivUnique(c * idx + r / SS, c, idx, r / SS);
  }

  /** One step of the walk: the chain is followed, in write mode stretched if it ends. */
  method Step(f: File, ghost pos: nat, ghost idx: nat) returns (res: FResult, full: bool)
    requires f.Sound() && AtCluster(f.vol.g, f.State(), pos, idx)
    requires f.canWrite || idx + 1 < |f.chain|
    modifies f`clust, f`sclust, f`chain, f.vol`disk, f.vol`wflag, f.vol`writeFailed, f.vol`winsect, f.vol`lastClst, f.vol`freeClst, f.vol.win
    ensures res == FR_OK ==> f.Sound() && f.Bytes() == old(f.Bytes()) && SameBut(old(f.State()), f.State())
    ensures res == FR_OK ==> Kept(f.vol.g, f.mine, old(f.vol.Img()), f.vol.Img(), old(f.chain), f.chain)
    ensures res == FR_OK && old(FreeOk(f.vol)) ==> FreeOk(f.vol)
    ensures res == FR_OK && full ==> f.canWrite && f.State() == old(f.State()) && idx + 1 == |f.chain| && Full(f.vol)
    ensures res == FR_OK && !full ==> AtCluster(f.vol.g, f.State(), pos + f.vol.g.Bcs(), idx + 1)
    ensures f.vol.reliable ==> res == FR_OK
  {
    hide Core, Flat, Secs, Image.Valid, Image.View, FileStep, FatStep, FatOf, Kept;
    var v := f.vol;
    ghost var g, s, st := v.g, v.Img(), f.State();
    CoreValid(g, s, st);
    NotZeroCluster(g, s, st, idx);
    assert (idx + 1) * g.Bcs() == idx * g.Bcs() + g.Bcs();
    full := false;
    var clst;
    if f.canWrite {
      clst := StretchTo(f, f.clust, idx);
      if clst == 0 { return FR_OK, true; }
      if clst == INVALID { return FR_DISK_ERR, false; }
      MemberRange(g, v.Img(), f.State(), idx + 1);
    } else {
      NextCluster(g, s, st, idx);
      MemberRange(g, s, st, idx + 1);
      clst := GetFat(v, f.clust);
      ReadTraffic(g, s, v.Img(), st, clst);
      if clst == INVALID { return FR_DISK_ERR, false; }
      f.clust := clst;
      assert f.State() == st.(clust := clst);
      CoreValid(g, v.Img(), f.State());
    }
    if clst <= 1 || clst >= v.g.nFatent { return FR_INT_ERR, false; }
    return FR_OK, false;
  }

  /** The cluster following loop: from pos on, ofs bytes further, or as far as clusters can be had. */
  method Walk(f: File, pos0: nat, ofs0: nat, ghost idx0: nat) returns (res: FResult, pos: nat, ofs: nat, ghost idx: nat)
    requires f.Sound() && AtCluster(f.vol.g, f.State(), pos0, idx0) && 0 < ofs0
    requires f.canWrite || pos0 + ofs0 <= f.objsize
    modifies f`clust, f`sclust, f`chain, f.vol`disk, f.vol`wflag, f.vol`writeFailed, f.vol`winsect, f.vol`lastClst, f.vol`freeClst, f.vol.win
    ensures res == FR_OK ==> f.Sound() && f.Bytes() == old(f.Bytes()) && SameBut(old(f.State()), f.State())
    ensures res == FR_OK ==> Kept(f.vol.g, f.mine, old(f.vol.Img()), f.vol.Img(), old(f.chain), f.chain)
    ensures res == FR_OK && old(FreeOk(f.vol)) ==> FreeOk(f.vol)
    ensures res == FR_OK && ofs > 0 ==> ofs <= f.vol.g.Bcs() && pos + ofs == pos0 + ofs0 && AtCluster(f.vol.g, f.State(), pos, idx)
    ensures res == FR_OK && ofs == 0 ==> f.canWrite && Full(f.vol) && pos < pos0 + ofs0
    ensures res == FR_OK && ofs == 0 ==> pos >= f.vol.g.Bcs() && AtCluster(f.vol.g, f.State(), pos - f.vol.g.Bcs(), idx) && idx + 1 == |f.chain|
    ensures f.vol.reliable ==> res == FR_OK
  {
    hide Core, Content, Secs, Image.Valid, Image.View, FileStep, FatStep, FatOf, Kept;
    var v := f.vol;
    ghost var g, s, st := v.g, v.Img(), f.State();
    CoreValid(g, s, st);
    FileStepStays(g, f.mine, s);
    KeptSame(g, f.mine, s, s, st.chain);
    pos, ofs, idx := pos0, ofs0, idx0;
    var bcs := v.g.Bcs();
    res := FR_OK;
    while ofs > bcs
      invariant f.Sound() && f.Bytes() == old(f.Bytes()) && SameBut(st, f.State()) && AtCluster(g, f.State(), pos, idx)
      invariant Kept(g, f.mine, s, v.Img(), st.chain, f.chain) && (old(FreeOk(v)) ==> FreeOk(v))
      invariant pos + ofs == pos0 + ofs0 && 0 < ofs && res == FR_OK
      decreases ofs
    {
      ghost var t, c1 := v.Img(), f.chain;
      CoreValid(g, t, f.State());
      ofs := ofs - bcs;
      pos := pos + bcs;
      if !f.canWrite {
        NextExists(g, t, f.State(), pos, idx);
      }
      var full;
      res, full := Step(f, pos - bcs, idx);
      if res != FR_OK { return; }
      CoreValid(g, v.Img(), f.State());
      KeptTrans(g, f.mine, s, t, v.Img(), st.chain, c1, f.chain);
      if full {
        ofs := 0;
        return;
      }
      idx := idx + 1;
    }
  }

  lemma NextExists(g: Geo, s: Image, f: FileState, pos: nat, idx: nat)
    requires Core(g, s, f) && pos == (idx + 1) * g.Bcs() && pos < f.objsize
    ensures idx + 1 < |f.chain|
  {
    hide Core, Image.Valid;
    CoreValid(g, s, f);
    IndexBelowEnd(g, s, f, pos);
    LandIn(g, pos, idx + 1, 1);
  }

  // ---------- f_lseek ----------

  /** The pointer is set; a file that is too short is extended to it. */
  ghost function Seeked(f: FileState, p: nat): FileState {
    f.(fptr := p, objsize := if p > f.objsize then p else f.objsize)
  }

  lemma CoreSeeked(g: Geo, s: Image, f: FileState, p: nat)
    requires Core(g, s, f) && p <= MAXSIZE && p <= Capacity(g, |f.chain|) * SS
    ensures Core(g, s, Seeked(f, p)) && Secs(g, s, Seeked(f, p)) == Secs(g, s, f)
    ensures Content(g, s, Seeked(f, p))[..f.objsize] == Content(g, s, f)
  {
    hide FatOf, Sectors;
    ChainFlags(g, FatOf(g, s.View()), f, Seeked(f, p));
    CoreFits(g, s, f);
    FlatShorter(Secs(g, s, f), Seeked(f, p).objsize, f.objsize);
  }

  lemma WithinChain(g: Geo, f: FileState, pos: nat, idx: nat, rest: nat)
    requires g.csize > 0 && AtCluster(g, f, pos, idx) && rest <= g.Bcs()
    ensures pos + rest <= Capacity(g, |f.chain|) * SS
  {
    var c, n := g.csize, |f.chain|;
    MulMonotone(c * SS, idx + 1, n);
    assert (c * SS) * (idx + 1) == idx * (c * SS) + c * SS;
    assert (c * SS) * n == (c * n) * SS;
  }

  /** The goal is in the current cluster or behind it: the seek starts at the current cluster. */
  lemma StartHere(g: Geo, f: FileState, ofs: nat) returns (pos: nat)
    requires g.csize > 0 && Positioned(g, f) && f.fptr > 0 && 0 < ofs && (ofs - 1) / g.Bcs() >= (f.fptr - 1) / g.Bcs()
    ensures pos == (f.fptr - 1) / g.Bcs() * g.Bcs() && pos < ofs && AtCluster(g, f, pos, ClusterIndex(g, f.fptr - 1))
  {
    hide ClusterIndex, Geo.Bcs;
    var i, j := ClusterIndex(g, f.fptr - 1), ClusterIndex(g, ofs - 1);
    ClusterStart(g, f.fptr - 1);
    ClusterStart(g, ofs - 1);
    ClusterIndexBcs(g, f.fptr - 1);
    ClusterIndexBcs(g, ofs - 1);
    RightMonotone(0, i, g.Bcs());
    RightMonotone(i, j, g.Bcs());
    pos := i * g.Bcs();
  }

  lemma RightMonotone(i: nat, j: nat, b: nat)
    requires i <= j
    ensures i * b <= j * b
  {
    MulMonotone(b, i, j);
  }

  /** Where a seek starts: in the current cluster if the goal is there or behind it, else at the first. */
  method Start(f: File, ofs: nat) returns (res: FResult, none: bool, pos: nat, ghost idx: nat)
    requires f.Valid() && 0 < ofs <= MAXSIZE && (f.canWrite || ofs <= f.objsize)
    modifies f`clust, f`sclust, f`chain, f.vol`disk, f.vol`wflag, f.vol`writeFailed, f.vol`winsect, f.vol`lastClst, f.vol`freeClst, f.vol.win
    ensures res == FR_OK ==> f.Sound() && f.Bytes() == old(f.Bytes()) && SameBut(old(f.State()), f.State())
    ensures res == FR_OK ==> Kept(f.vol.g, f.mine, old(f.vol.Img()), f.vol.Img(), old(f.chain), f.chain)
    ensures res == FR_OK && old(FreeOk(f.vol)) ==> FreeOk(f.vol)
    ensures res == FR_OK && !none ==> pos < ofs && AtCluster(f.vol.g, f.State(), pos, idx)
    ensures res == FR_OK && none ==> f.canWrite && Full(f.vol) && f.chain == []
    ensures f.vol.reliable ==> res == FR_OK
  {
    hide Core, Content, Secs, Image.Valid, Image.View, FileStep, FatStep, FatOf, Kept, AtCluster, Positioned, ClusterIndex;
    var v := f.vol;
    ghost var g, s, st := v.g, v.Img(), f.State();
    CoreValid(g, s, st);
    FileStepStays(g, f.mine, s);
    KeptSame(g, f.mine, s, s, st.chain);
    var bcs := v.g.Bcs();
    if f.fptr > 0 && (ofs - 1) / bcs >= (f.fptr - 1) / bcs {
      ghost var here := StartHere(g, st, ofs);
      return FR_OK, false, (f.fptr - 1) / bcs * bcs, ClusterIndex(g, f.fptr - 1);
    }
    res, none := StartFirst(f);
    return res, none, 0, 0;
  }

  /** The seek starts at the first cluster, which is allocated if there is none. */
  method StartFirst(f: File) returns (res: FResult, none: bool)
    requires f.Sound() && (f.canWrite || 0 < f.objsize)
    modifies f`clust, f`sclust, f`chain, f.vol`disk, f.vol`wflag, f.vol`writeFailed, f.vol`winsect, f.vol`lastClst, f.vol`freeClst, f.vol.win
    ensures res == FR_OK ==> f.Sound() && f.Bytes() == old(f.Bytes()) && SameBut(old(f.State()), f.State())
    ensures res == FR_OK ==> Kept(f.vol.g, f.mine, old(f.vol.Img()), f.vol.Img(), old(f.chain), f.chain)
    ensures res == FR_OK && old(FreeOk(f.vol)) ==> FreeOk(f.vol)
    ensures res == FR_OK && !none ==> AtCluster(f.vol.g, f.State(), 0, 0)
    ensures res == FR_OK && none ==> f.canWrite && Full(f.vol) && f.chain == []
    ensures f.vol.reliable ==> res == FR_OK
  {
    hide Core, Content, Secs, Image.Valid, Image.View, FileStep, FatStep, FatOf, Kept;
    var v := f.vol;
    ghost var g, s, st := v.g, v.Img(), f.State();
    CoreValid(g, s, st);
    FileStepStays(g, f.mine, s);
    KeptSame(g, f.mine, s, s, st.chain);
    if !f.canWrite { NoEmptyChain(g, s, st); }
    var clst := f.sclust;
    if clst == 0 {
      clst := StretchTo(f, 0, -1);
      if clst == 1 { return FR_INT_ERR, false; }
      if clst == INVALID { return FR_DISK_ERR, false; }
      if clst == 0 {
        ClustFree(g, v.Img(), st, 0);
        f.clust := 0;
        assert f.State() == st.(clust := 0);
        return FR_OK, true;
      }
    } else {
      FirstCluster(g, s, st);
      ClustFree(g, s, st, clst);
      f.clust := clst;
      assert f.State() == st.(clust := clst);
    }
    return FR_OK, false;
  }

  lemma NoEmptyChain(g: Geo, s: Image, f: FileState)
    requires Core(g, s, f) && 0 < f.objsize
    ensures f.chain != []
  {
    hide Core;
    IndexBelowEnd(g, s, f, 0);
  }

  /** p lies in the chain, clust is the cluster of the byte before it, and nsect the sector of a p inside one. */
  ghost predicate LandedAt(g: Geo, f: FileState, p: nat, nsect: nat)
    requires g.csize > 0
  {
    && p <= Capacity(g, |f.chain|) * SS
    && (p > 0 ==> ClusterIndex(g, p - 1) < |f.chain| && f.clust == f.chain[ClusterIndex(g, p - 1)])
    && (p % SS != 0 ==> ClusterIndex(g, p) < |f.chain| && nsect == Sec(g, f.chain, p / SS))
  }

  /** Finds the place of the pointer, and the clusters up to it. */
  method Locate(f: File, ofs: nat) returns (res: FResult, fptr: nat, nsect: nat)
    requires f.Valid() && 0 < ofs <= MAXSIZE && (f.canWrite || ofs <= f.objsize)
    modifies f`clust, f`sclust, f`chain, f.vol`disk, f.vol`wflag, f.vol`writeFailed, f.vol`winsect, f.vol`lastClst, f.vol`freeClst, f.vol.win
    ensures res == FR_OK ==> f.Sound() && f.Bytes() == old(f.Bytes()) && SameBut(old(f.State()), f.State())
    ensures res == FR_OK ==> Kept(f.vol.g, f.mine, old(f.vol.Img()), f.vol.Img(), old(f.chain), f.chain)
    ensures res == FR_OK && old(FreeOk(f.vol)) ==> FreeOk(f.vol)
    ensures res == FR_OK ==> fptr == ofs || (f.canWrite && fptr < ofs && Full(f.vol) && fptr == |f.chain| * f.vol.g.Bcs())
    ensures res == FR_OK ==> LandedAt(f.vol.g, f.State(), fptr, nsect)
    ensures f.vol.reliable ==> res == FR_OK
  {
    hide Core, Content, Secs, Image.Valid, Image.View, FileStep, FatStep, FatOf, Kept, AtCluster, ClusterBase, ClusterIndex, Capacity, Clst2Sect, Sec, Geo.Bcs, Positioned, LandedAt;
    var v := f.vol;
    ghost var g, s, st := v.g, v.Img(), f.State();
    CoreValid(g, s, st);
    fptr, nsect := 0, 0;
    var none, pos;
    ghost var idx;
    res, none, pos, idx := Start(f, ofs);
    if res != FR_OK { return; }
    if none {
      LandedNowhere(g, f.State());
      return;
    }
    ghost var t, st1 := v.Img(), f.State();
    CoreValid(g, t, st1);
    var rest;
    res, pos, rest, idx := Walk(f, pos, ofs - pos, idx);
    if res != FR_OK { return; }
    CoreValid(g, v.Img(), f.State());
    KeptTrans(g, f.mine, s, t, v.Img(), st.chain, st1.chain, f.chain);
    fptr := pos + rest;
    if rest % SS != 0 {
      LandedCluster(g, v.Img(), f.State(), pos, idx);
      var base := Clst2Sect(v.g, f.clust);
      if base == 0 { res := FR_INT_ERR; return; }
      nsect := base + rest / SS;
    }
    Landed(g, v.Img(), f.State(), pos, idx, rest, nsect);
  }

  lemma LandedCluster(g: Geo, s: Image, f: FileState, pos: nat, idx: nat)
    requires Core(g, s, f) && g.csize > 0 && AtCluster(g, f, pos, idx)
    ensures g.nFatent >= 2 && Clst2Sect(g, f.clust) > 0
  {
    hide Core, Clst2Sect;
    CoreValid(g, s, f);
    MemberRange(g, s, f, idx);
    Clst2SectIsBase(g, f.clust);
  }

  lemma LandedNowhere(g: Geo, f: FileState)
    requires g.csize > 0
    ensures LandedAt(g, f, 0, 0) && (f.chain == [] ==> 0 == |f.chain| * g.Bcs())
  {
  }

  /** The pointer's new place, before the buffer follows. */
  method Place(f: File, ofs: nat) returns (res: FResult, nsect: nat)
    requires f.Valid() && 0 < ofs <= MAXSIZE && (f.canWrite || ofs <= f.objsize)
    modifies f`clust, f`sclust, f`chain, f`fptr, f`objsize, f`modified, f.vol`disk, f.vol`wflag, f.vol`writeFailed, f.vol`winsect, f.vol`lastClst, f.vol`freeClst, f.vol.win
    ensures res == FR_OK ==> f.Sound() && f.objsize == (if f.fptr > old(f.objsize) then f.fptr else old(f.objsize))
    ensures res == FR_OK ==> f.Bytes()[..old(f.objsize)] == old(f.Bytes())
    ensures res == FR_OK ==> Kept(f.vol.g, f.mine, old(f.vol.Img()), f.vol.Img(), old(f.chain), f.chain)
    ensures res == FR_OK && old(FreeOk(f.vol)) ==> FreeOk(f.vol)
    ensures res == FR_OK ==> f.fptr == ofs || (f.canWrite && f.fptr < ofs && Full(f.vol) && f.fptr == |f.chain| * f.vol.g.Bcs())
    ensures res == FR_OK ==> f.modified == (old(f.modified) || f.objsize != old(f.objsize))
    ensures res == FR_OK ==> LandedAt(f.vol.g, f.State(), f.fptr, nsect)
    ensures f.vol.reliable ==> res == FR_OK
  {
    hide Core, Content, Secs, Image.Valid, Image.View, FileStep, FatStep, FatOf, Kept, Geo.Bcs, Positioned, LandedAt, Capacity;
    var v := f.vol;
    ghost var g, s, st := v.g, v.Img(), f.State();
    CoreValid(g, s, st);
    var fptr;
    res, fptr, nsect := Locate(f, ofs);
    if res != FR_OK { return; }
    ghost var st2 := f.State();
    CoreValid(g, v.Img(), st2);
    SeekLanded(g, v.Img(), st2, fptr, nsect);
    f.fptr := fptr;
    if f.fptr > f.objsize {
      f.objsize := f.fptr;
      f.modified := true;
    }
    assert f.State() == Seeked(st2, fptr);
  }

  /** Setting the pointer keeps the bytes, and the place. */
  lemma SeekLanded(g: Geo, s: Image, f: FileState, p: nat, nsect: nat)
    requires Core(g, s, f) && g.csize > 0 && p <= MAXSIZE && LandedAt(g, f, p, nsect)
    ensures Core(g, s, Seeked(f, p)) && LandedAt(g, Seeked(f, p), p, nsect)
    ensures f.objsize <= |Content(g, s, Seeked(f, p))| && Content(g, s, Seeked(f, p))[..f.objsize] == Content(g, s, f)
  {
    hide Core, Content, Capacity;
    CoreSeeked(g, s, f, p);
    CoreSize(g, s, f);
  }

  /** The walk ended rest bytes into the cluster idx, or (rest == 0) at the end of the chain. */
  lemma Landed(g: Geo, s: Image, f: FileState, pos: nat, idx: nat, rest: nat, nsect: nat)
    requires Core(g, s, f) && rest <= g.Bcs() && g.csize > 0 && g.nFatent >= 2
    requires if rest > 0 then AtCluster(g, f, pos, idx)
             else pos >= g.Bcs() && AtCluster(g, f, pos - g.Bcs(), idx) && idx + 1 == |f.chain|
    requires rest % SS != 0 ==> nsect == Clst2Sect(g, f.clust) + rest / SS
    ensures LandedAt(g, f, pos + rest, nsect)
    ensures rest == 0 ==> pos == |f.chain| * g.Bcs()
  {
    hide Core, Clst2Sect, Image.Valid;
    CoreValid(g, s, f);
    if rest > 0 {
      LandIn(g, pos, idx, rest);
      WithinChain(g, f, pos, idx, rest);
    } else {
      LandIn(g, pos - g.Bcs(), idx, g.Bcs());
      WithinChain(g, f, pos - g.Bcs(), idx, g.Bcs());
      assert g.Bcs() % SS == 0 by { DivUnique(g.Bcs(), SS, g.csize, 0); }
      assert (idx + 1) * g.Bcs() == idx * g.Bcs() + g.Bcs();
    }
    NotZeroCluster(g, s, f, idx);
    Clst2SectIsBase(g, f.clust);
  }

  /** f_lseek: the pointer goes to ofs. In read-only mode it stops at the end of the file; in write
      mode a shorter file is extended, its new bytes unspecified, as far as clusters can be had. */
  method Seek(f: File, ofs: nat) returns (res: FResult)
    requires f.Valid() && ofs <= MAXSIZE
    modifies f`err, f`modified, f`clust, f`sclust, f`chain, f`sect, f`dirty, f`fptr, f`objsize, f.buf, f.vol`disk, f.vol`wflag, f.vol`writeFailed, f.vol`winsect, f.vol`lastClst, f.vol`freeClst, f.vol.win
    ensures old(f.err) != FR_OK ==> res == old(f.err) && f.Valid() && f.Bytes() == old(f.Bytes()) && f.fptr == old(f.fptr)
    ensures res == FR_OK ==> f.Valid() && f.err == FR_OK
    ensures res == FR_OK ==> f.objsize == (if f.fptr > old(f.objsize) then f.fptr else old(f.objsize))
    ensures res == FR_OK ==> f.Bytes()[..old(f.objsize)] == old(f.Bytes())
    ensures res == FR_OK && !f.canWrite ==> f.fptr == if ofs > old(f.objsize) then old(f.objsize) else ofs
    ensures res == FR_OK && f.canWrite ==> f.fptr == ofs || (f.fptr < ofs && Full(f.vol) && f.fptr == |f.chain| * f.vol.g.Bcs())
    ensures res == FR_OK ==> f.modified == (old(f.modified) || f.objsize != old(f.objsize))
    ensures res == FR_OK ==> Kept(f.vol.g, f.mine, old(f.vol.Img()), f.vol.Img(), old(f.chain), f.chain)
    ensures res == FR_OK && old(FreeOk(f.vol)) ==> FreeOk(f.vol)
    ensures f.vol.reliable && old(f.err) == FR_OK ==> res == FR_OK
  {
    hide Core, Content, Secs, Image.Valid, Image.View, FileStep, FatStep, FatOf, Kept, Sec, ClusterIndex, Positioned, LandedAt, Geo.Bcs;
    var v := f.vol;
    res := f.err;
    if res != FR_OK { return; }
    ghost var g, s, st := v.g, v.Img(), f.State();
    CoreValid(g, s, st);
    CoreSize(g, s, st);
    FileStepStays(g, f.mine, s);
    KeptSame(g, f.mine, s, s, st.chain);
    var goal := ofs;
    if goal > f.objsize && !f.canWrite { goal := f.objsize; }
    if goal == 0 {
      LandedNowhere(g, st);
      SeekLanded(g, s, st, 0, 0);
      f.fptr := 0;
      assert f.State() == Seeked(st, 0);
      LandedInSector(g, f.State(), f.State(), 0);
      return;
    }
    var nsect;
    res, nsect := Place(f, goal);
    if res != FR_OK { f.err := res; return; }
    EndAligned(g, |f.chain|);
    ghost var t, st1 := v.Img(), f.State();
    CoreValid(g, t, st1);
    if f.fptr % SS != 0 {
      SectorMine(g, t, st1, nsect);
      var ok := Cache(f, nsect);
      if !ok { f.err := FR_DISK_ERR; return FR_DISK_ERR; }
      CoreValid(g, v.Img(), f.State());
      KeptTrans(g, f.mine, s, t, v.Img(), st.chain, st1.chain, f.chain);
      SameContent(g, t, v.Img(), st1, f.State());
    }
    LandedInSector(g, st1, f.State(), nsect);
  }

  /** Only the buffer has followed the pointer. */
  lemma LandedInSector(g: Geo, f: FileState, h: FileState, nsect: nat)
    requires g.csize > 0 && LandedAt(g, f, f.fptr, nsect) && h == f.(sect := h.sect, dirty := h.dirty, buf := h.buf)
    requires f.fptr % SS != 0 ==> h.sect == nsect
    ensures Positioned(g, h)
  {
    hide Sec, ClusterIndex;
  }

  lemma EndAligned(g: Geo, n: nat)
    ensures n * g.Bcs() % SS == 0
  {
    assert n * (g.csize * SS) == SS * (n * g.csize) + 0;
    DivUnique(n * g.Bcs(), SS, n * g.csize, 0);
  }

  lemma SectorMine(g: Geo, s: Image, f: FileState, nsect: nat)
    requires Core(g, s, f) && g.csize > 0 && g.nFatent >= 2 && LandedAt(g, f, f.fptr, nsect) && f.fptr % SS != 0
    ensures MineSector(g, f.mine, nsect)
  {
    hide FatOf, Chains, WellFormed, BufferOk, WindowOk, SizeOk, ClusterOf, Sec;
    SecIsMine(g, FatOf(g, s.View()), f, f.fptr / SS);
  }
}
