/** f_truncate. */
module FatTruncate {
  import opened FatBase
  import opened FatVolume
  import opened FatChains
  import opened FatAlloc
  import opened FatFileModel
  import opened FatFileState
  import opened FatFile
  import opened FatWrite
  import opened FatRead

  /** The number of clusters that hold the bytes before the pointer. */
  ghost function KeptClusters(g: Geo, f: FileState): nat
    requires g.csize > 0
  {
    if f.fptr == 0 then 0 else ClusterIndex(g, f.fptr - 1) + 1
  }

  lemma KeptHold(g: Geo, f: FileState)
    requires g.csize > 0
    ensures f.fptr <= Capacity(g, KeptClusters(g, f)) * SS
  {
    if f.fptr > 0 {
      var k, i := (f.fptr - 1) / SS, ClusterIndex(g, f.fptr - 1);
      assert k == g.csize * i + k % g.csize;
      assert g.csize * (i + 1) == g.csize * i + g.csize;
    }
  }

  /** After the chain has been cut at the pointer. */
  lemma CutForFile(g: Geo, s: Image, t: Image, f: FileState, res: FResult)
    requires Core(g, s, f) && Positioned(g, f) && FatStep(g, s, t) && t.Valid(g) && f.fptr < f.objsize
    requires KeptClusters(g, f) < |f.chain| && res != FR_DISK_ERR
    requires var m := KeptClusters(g, f);
      RemoveOutcome(g, FatOf(g, s.View()), FatOf(g, t.View()), f.chain[m], if m == 0 then 0 else f.chain[m - 1], res)
    ensures res == FR_OK
    ensures var h := Shortened(f, KeptClusters(g, f));
      Core(g, t, h) && Content(g, t, h) == Content(g, s, f)[..f.fptr] && Kept(g, f.mine, s, t, f.chain, h.chain)
  {
    hide FatOf, FatStep, FileStep, BufferOk, WindowOk, SizeOk, Sectors, Flat, Image.Valid, RemoveOutcome, Capacity, ClusterIndex;
    ValidSizes(g, s);
    ValidSizes(g, t);
    var a, b, m := FatOf(g, s.View()), FatOf(g, t.View()), KeptClusters(g, f);
    FatStepIsFileStep(g, f.mine, s, t);
    CutTable(g, a, b, f, m, res);
    KeptHold(g, f);
    CoreShortened(g, s, t, f, m);
  }

  lemma CutTable(g: Geo, a: Fat, b: Fat, f: FileState, m: nat, res: FResult)
    requires g.Valid() && ChainOk(g, a, f) && m < |f.chain| && res != FR_DISK_ERR && |b| == |a|
    requires RemoveOutcome(g, a, b, f.chain[m], if m == 0 then 0 else f.chain[m - 1], res)
    ensures res == FR_OK && ChainOk(g, b, Shortened(f, m))
    ensures Chains(b) - iset{Shortened(f, m).chain} == Chains(a) - iset{f.chain}
  {
    hide Chains, WellFormed, RemoveOutcome, Geo.Valid;
    var u, s := f.chain[..m], f.chain[m..];
    assert f.chain == u + s;
    if m == 0 {
      assert s == f.chain;
      RemoveWholeEffect(g, a, b, f.chain, res);
      forall c | Cluster(a, c) ensures b[c] == 0 <==> a[c] == 0 || c in f.chain[m..] {
        assert b[c] == Cleared(a, f.chain)[c];
      }
    } else {
      RemoveSuffixEffect(g, a, b, u, s, res);
    }
    ShortenedChain(g, a, b, f, m);
  }

  /** The chain already ends at the pointer's cluster: only the size changes. */
  lemma NothingToCut(g: Geo, s: Image, f: FileState)
    requires Core(g, s, f) && KeptClusters(g, f) == |f.chain| && 0 < f.fptr < f.objsize
    ensures var h := Shortened(f, |f.chain|);
      Core(g, s, h) && Content(g, s, h) == Content(g, s, f)[..f.fptr] && h.chain == f.chain
  {
    hide FatOf, FatStep, BufferOk, WindowOk, Sectors, Flat, Image.Valid, Capacity, ClusterIndex;
    ValidSizes(g, s);
    assert f.chain[..|f.chain|] == f.chain;
    KeptHold(g, f);
    FatStepStays(g, s);
    var h := Shortened(f, |f.chain|);
    ChainFlags(g, FatOf(g, s.View()), f, h);
    CoreShortened(g, s, s, f, |f.chain|);
  }

  /** The FAT entry of the pointer's cluster tells whether there is anything to cut. */
  lemma WhatFollows(g: Geo, s: Image, f: FileState)
    requires Core(g, s, f) && Positioned(g, f) && f.fptr > 0
    ensures KeptClusters(g, f) <= |f.chain| && 2 <= f.clust < g.nFatent && f.clust == f.chain[KeptClusters(g, f) - 1]
    ensures var e := FatOf(g, s.View())[f.clust];
      if KeptClusters(g, f) < |f.chain| then e == f.chain[KeptClusters(g, f)] && 2 <= e < g.nFatent else e >= g.nFatent
  {
    hide FatOf, Chains, WellFormed, BufferOk, WindowOk, SizeOk;
    FollowLink(g, FatOf(g, s.View()), f, f.clust, KeptClusters(g, f) - 1);
  }

  /** Removes the clusters behind the pointer's one, if there are any. */
  method CutTail(f: File, ghost m: nat) returns (res: FResult)
    requires f.Valid() && 0 < f.fptr < f.objsize && m == KeptClusters(f.vol.g, f.State())
    modifies f.vol`disk, f.vol`wflag, f.vol`writeFailed, f.vol`winsect, f.vol`freeClst, f.vol.win
    ensures f.vol.Valid()
    ensures res == FR_OK ==> m <= |f.chain| && Core(f.vol.g, f.vol.Img(), Shortened(f.State(), m))
    ensures res == FR_OK ==> Content(f.vol.g, f.vol.Img(), Shortened(f.State(), m)) == old(f.Bytes())[..f.fptr]
    ensures res == FR_OK ==> Kept(f.vol.g, f.mine, old(f.vol.Img()), f.vol.Img(), f.chain, f.chain[..m])
    ensures res == FR_OK && old(FreeOk(f.vol)) ==> f.vol.Valid() && FreeOk(f.vol)
    ensures f.vol.reliable ==> res == FR_OK
  {
    hide Core, Flat, Secs, Image.Valid, Image.View, FileStep, FatStep, FatOf, Kept, Positioned, ClusterIndex;
    var v := f.vol;
    ghost var g, s, st := v.g, v.Img(), f.State();
    CoreValid(g, s, st);
    WhatFollows(g, s, st);
    var ncl := GetFat(v, f.clust);
    ghost var t := v.Img();
    CoreFatStep(g, s, t, st);
    FatStepIsFileStep(g, f.mine, s, t);
    KeptSame(g, f.mine, s, t, st.chain);
    CoreValid(g, t, st);
    WhatFollows(g, t, st);
    res := FR_OK;
    if ncl == INVALID { res := FR_DISK_ERR; }
    if ncl == 1 { res := FR_INT_ERR; }
    if res == FR_OK && ncl < v.g.nFatent {
      res := RemoveChain(v, ncl, f.clust);
      if res != FR_DISK_ERR { CutForFile(g, t, v.Img(), st, res); }
      CoreShort(g, s, t, v.Img(), st, m, res);
    } else if res == FR_OK {
      NothingToCut(g, t, st);
    }
  }

  /** Cuts the cluster chain at the pointer and sets the size. */
  method Cut(f: File) returns (res: FResult)
    requires f.Valid() && f.fptr < f.objsize
    modifies f`modified, f`sclust, f`chain, f`objsize, f.vol`disk, f.vol`wflag, f.vol`writeFailed, f.vol`winsect, f.vol`lastClst, f.vol`freeClst, f.vol.win
    ensures res == FR_OK ==> f.Valid() && f.Bytes() == old(f.Bytes())[..f.fptr] && f.objsize == f.fptr
    ensures res == FR_OK ==> Kept(f.vol.g, f.mine, old(f.vol.Img()), f.vol.Img(), old(f.chain), f.chain)
    ensures res == FR_OK && old(FreeOk(f.vol)) ==> FreeOk(f.vol)
    ensures res == FR_OK ==> f.modified && f.chain <= old(f.chain) && |f.chain| == KeptClusters(f.vol.g, f.State())
    ensures f.vol.reliable ==> res == FR_OK
  {
    hide Core, Flat, Secs, Image.Valid, Image.View, FileStep, FatStep, FatOf, Kept, Positioned, ClusterIndex;
    var v := f.vol;
    ghost var g, s, st := v.g, v.Img(), f.State();
    CoreValid(g, s, st);
    FatStepStays(g, s);
    ghost var m := KeptClusters(g, st);
    if f.fptr == 0 {
      NoEmpty(g, s, st);
      res := RemoveChain(v, f.sclust, 0);
      if res != FR_DISK_ERR { CutForFile(g, s, v.Img(), st, res); }
      f.sclust := 0;
    } else {
      res := CutTail(f, m);
    }
    f.objsize := f.fptr;
    f.modified := true;
    f.chain := if m <= |f.chain| then f.chain[..m] else f.chain;
    if res == FR_OK {
      assert f.State() == Shortened(st, m);
      CoreValid(g, v.Img(), f.State());
      PositionedShort(g, st, m);
    }
  }

  lemma NoEmpty(g: Geo, s: Image, f: FileState)
    requires Core(g, s, f) && 0 < f.objsize
    ensures f.chain != [] && f.sclust == f.chain[0]
  {
    hide Core;
    IndexBelowEnd(g, s, f, 0);
    FirstCluster2(g, s, f);
  }

  lemma CoreShort(g: Geo, s: Image, t: Image, u: Image, f: FileState, m: nat, res: FResult)
    requires s.Valid(g) && t.Valid(g) && u.Valid(g) && m <= |f.chain| && Kept(g, f.mine, s, t, f.chain, f.chain)
    requires res == FR_OK ==> Kept(g, f.mine, t, u, f.chain, Shortened(f, m).chain)
    ensures res == FR_OK ==> Kept(g, f.mine, s, u, f.chain, Shortened(f, m).chain)
  {
    hide Kept, Image.Valid;
    if res == FR_OK {
      KeptTrans(g, f.mine, s, t, u, f.chain, f.chain, Shortened(f, m).chain);
    }
  }

  /** The pointer's place is in the part that is kept. */
  lemma PositionedShort(g: Geo, f: FileState, m: nat)
    requires g.csize > 0 && Positioned(g, f) && m == KeptClusters(g, f) <= |f.chain|
    ensures Positioned(g, Shortened(f, m))
  {
    if f.fptr % SS != 0 {
      BoundaryIndex(g, f.fptr);
    }
  }

  /** f_truncate: the file ends at the pointer; what it held before stays. */
  method Truncate(f: File) returns (res: FResult)
    requires f.Valid()
    modifies f`err, f`modified, f`sclust, f`chain, f`objsize, f`dirty, f.vol`disk, f.vol`wflag, f.vol`writeFailed, f.vol`winsect, f.vol`lastClst, f.vol`freeClst, f.vol.win
    ensures old(f.err) != FR_OK ==> res == old(f.err)
    ensures old(f.err) == FR_OK && !f.canWrite ==> res == FR_DENIED
    ensures old(f.err) != FR_OK || !f.canWrite ==> f.Valid() && f.Bytes() == old(f.Bytes()) && f.fptr == old(f.fptr)
    ensures res == FR_OK ==> f.Valid() && f.err == FR_OK && f.objsize == f.fptr
    ensures res == FR_OK ==> f.Bytes() == old(f.Bytes())[..f.fptr]
    ensures res == FR_OK && f.fptr < old(f.objsize) ==> f.chain <= old(f.chain) && |f.chain| == KeptClusters(f.vol.g, f.State()) && !f.dirty
    ensures res == FR_OK ==> Kept(f.vol.g, f.mine, old(f.vol.Img()), f.vol.Img(), old(f.chain), f.chain)
    ensures res == FR_OK && old(FreeOk(f.vol)) ==> FreeOk(f.vol)
    ensures f.vol.reliable && old(f.err) == FR_OK && f.canWrite ==> res == FR_OK
  {
    hide Core, Flat, Secs, Image.Valid, Image.View, FileStep, FatStep, FatOf, Kept, Positioned, ClusterIndex;
    var v := f.vol;
    res := f.err;
    if res != FR_OK { return; }
    if !f.canWrite { return FR_DENIED; }
    ghost var g, s, st := v.g, v.Img(), f.State();
    CoreValid(g, s, st);
    CoreSize(g, s, st);
    FileStepStays(g, f.mine, s);
    KeptSame(g, f.mine, s, s, st.chain);
    if f.fptr < f.objsize {
      res := Cut(f);
      if res == FR_OK && f.dirty {
        ghost var t, st1 := v.Img(), f.State();
        CoreValid(g, t, st1);
        var ok := Flush(f);
        CoreValid(g, v.Img(), f.State());
        KeptSame(g, f.mine, t, v.Img(), f.chain);
        KeptTrans(g, f.mine, s, t, v.Img(), st.chain, f.chain, f.chain);
        StillPositioned(g, st1, f.State());
        if !ok { res := FR_DISK_ERR; }
      }
      if res != FR_OK { f.err := res; return; }
    } else {
      assert f.Bytes()[..f.fptr] == f.Bytes();
    }
  }

  lemma StillPositioned(g: Geo, f: FileState, h: FileState)
    requires g.csize > 0 && Positioned(g, f) && h == f.(dirty := h.dirty)
    ensures Positioned(g, h)
  {
  }
}
