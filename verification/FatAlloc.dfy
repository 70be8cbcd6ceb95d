/** Allocation and removal of clusters: create_chain, remove_chain and f_getfree. */
module FatAlloc {
  import opened Arith
  import opened FatBase
  import opened FatCodec
  import opened FatVolume
  import opened FatChains

  /** The recorded number of free clusters is unknown, or right. */
  ghost predicate Counted(fat: Fat, free: nat) {
    free > |fat| - 2 || free == FreeCount(fat)
  }

  ghost predicate FreeOk(v: Volume)
    requires v.Valid()
    reads v`disk, v`winsect, v`wflag, v`writeFailed, v`freeClst, v.win
  {
    Counted(v.Fat(), v.freeClst)
  }

  /** No cluster is to be had: none is free, or none is recorded to be. */
  ghost predicate Exhausted(fat: Fat, free: nat) {
    free == 0 || forall c :: Cluster(fat, c) ==> fat[c] != 0
  }

  /** If the record is right, an exhausted table has no free cluster. */
  lemma ExhaustedIsFull(fat: Fat, free: nat)
    requires |fat| >= 2 && Counted(fat, free) && Exhausted(fat, free)
    ensures forall c :: Cluster(fat, c) ==> fat[c] != 0
  {
    hide FreeCount;
    if free == 0 {
      NoneFree(fat);
    }
  }

  /** The all-ones value, cut to the width of an entry, is an end mark; a cluster number is kept. */
  lemma EndMark(g: Geo)
    requires g.Valid()
    ensures Trunc(g.fsType, INVALID) >= g.nFatent
    ensures forall c :: 0 <= c < g.nFatent ==> Trunc(g.fsType, c) == c
  {
  }

  lemma GeoLimits(v: Volume)
    requires v.Valid()
    ensures 3 <= v.g.nFatent < 0x1000_0000 && |v.Fat()| == v.g.nFatent
  {
  }

  // ---------- looking for a free cluster ----------

  /** How many clusters come between scl and c, going upwards and from the last cluster on to the first. */
  function Turn(n: nat, scl: nat, c: nat): (t: int)
    requires n > 2
  {
    (c - scl - 1) % (n - 2)
  }

  lemma TurnIs(n: nat, scl: nat, c: nat)
    requires n > 2 && 1 <= scl < n && 2 <= c < n
    ensures Turn(n, scl, c) == if c > scl then c - scl - 1 else c - scl - 1 + (n - 2)
  {
    if c > scl {
      DivUnique(c - scl - 1, n - 2, 0, c - scl - 1);
    } else {
      DivUnique(c - scl - 1, n - 2, -1, c - scl - 1 + (n - 2));
    }
  }

  /** r is free, and no other free cluster comes before it. */
  ghost predicate FirstFree(fat: Fat, scl: nat, r: nat) {
    && Cluster(fat, r) && fat[r] == 0
    && forall c :: Cluster(fat, c) && Turn(|fat|, scl, c) < Turn(|fat|, scl, r) ==> fat[c] != 0
  }

  lemma IsFirstFree(fat: Fat, scl: nat, r: nat, wrapped: bool)
    requires 1 <= scl < |fat| && Cluster(fat, r) && fat[r] == 0 && (if wrapped then r <= scl else r > scl)
    requires forall c :: scl < c < |fat| && (wrapped || c < r) ==> fat[c] != 0
    requires wrapped ==> forall c :: 2 <= c < r ==> fat[c] != 0
    ensures FirstFree(fat, scl, r)
  {
    hide Turn;
    TurnIs(|fat|, scl, r);
    forall c | Cluster(fat, c) && Turn(|fat|, scl, c) < Turn(|fat|, scl, r) ensures fat[c] != 0 {
      TurnIs(|fat|, scl, c);
    }
  }

  /** The cluster behind clst, from the last one on to the first. */
  function Following(n: nat, clst: nat): nat { if clst + 1 < n then clst + 1 else 2 }

  /** The cluster behind clst if that is free, else the first free one behind the hint, or clst without a hint. */
  ghost predicate Nearest(fat: Fat, clst: nat, hint: nat, r: nat) {
    var next := Following(|fat|, clst);
    if Cluster(fat, next) && fat[next] == 0 then r == next
    else FirstFree(fat, if Cluster(fat, hint) then hint else clst, r)
  }

  /** The wrap-around scan behind scl: the first free cluster, or 0 only when there is none;
      1 and INVALID pass on what reading an entry reported. */
  method FindFree(v: Volume, scl: nat) returns (r: nat)
    requires v.Valid() && 1 <= scl < v.g.nFatent
    modifies v`disk, v`wflag, v`writeFailed, v`winsect, v.win
    ensures v.Valid() && FatStep(v.g, old(v.Img()), v.Img()) && v.Fat() == old(v.Fat())
    ensures r == 0 ==> forall c :: Cluster(v.Fat(), c) ==> v.Fat()[c] != 0
    ensures r == 1 ==> exists c :: Cluster(v.Fat(), c) && v.Fat()[c] == 1
    ensures r != 0 && r != 1 && r != INVALID ==> FirstFree(v.Fat(), scl, r)
    ensures v.reliable ==> r != INVALID
  {
    hide Volume.Valid, Volume.Img, Volume.View, Volume.Fat, Image.Valid, Image.View, Geo.Valid, FatImage, FatOf, FatStep, FirstFree;
    GeoLimits(v);
    VolumeFacts(v);
    ghost var s := v.Img();
    ghost var fat := v.Fat();
    FatStepStays(v.g, s);
    var n := v.g.nFatent;
    var ncl := scl;
    ghost var wrapped := false;
    while true
      invariant v.Valid() && s.Valid(v.g) && FatStep(v.g, s, v.Img()) && v.Fat() == fat && n == |fat|
      invariant if wrapped then 2 <= ncl < scl else scl <= ncl < n
      invariant forall c :: scl < c < n && (wrapped || c <= ncl) ==> fat[c] != 0
      invariant wrapped ==> forall c :: 2 <= c <= ncl ==> fat[c] != 0
      decreases if wrapped then scl - ncl else n + n - ncl
    {
      VolumeFacts(v);
      ghost var t := v.Img();
      ncl := ncl + 1;
      if ncl >= n {
        ncl := 2;
        wrapped := true;
        if ncl > scl { return 0; }
      }
      var cs := GetFat(v, ncl);
      FatStepTrans(v.g, s, t, v.Img());
      if cs == 0 {
        IsFirstFree(fat, scl, ncl, wrapped);
        return ncl;
      }
      if cs == 1 || cs == INVALID { return cs; }
      if ncl == scl { return 0; }
    }
  }

  /** The cluster right behind scl if it is free, else the scan from the suggested cluster. */
  method FindBehind(v: Volume, clst: nat) returns (r: nat)
    requires v.Valid() && 2 <= clst < v.g.nFatent
    modifies v`disk, v`wflag, v`writeFailed, v`winsect, v.win
    ensures v.Valid() && FatStep(v.g, old(v.Img()), v.Img()) && v.Fat() == old(v.Fat())
    ensures r == 0 ==> forall c :: Cluster(v.Fat(), c) ==> v.Fat()[c] != 0
    ensures r == 1 ==> exists c :: Cluster(v.Fat(), c) && v.Fat()[c] == 1
    ensures r != 0 && r != 1 && r != INVALID ==> Nearest(v.Fat(), clst, v.lastClst, r)
    ensures v.reliable ==> r != INVALID
  {
    hide Volume.Valid, Volume.Img, Volume.View, Volume.Fat, Image.Valid, Image.View, Geo.Valid, FatImage, FatOf, FatStep, FirstFree;
    GeoLimits(v);
    VolumeFacts(v);
    ghost var s := v.Img();
    var scl := clst;
    var ncl := scl + 1;
    if ncl >= v.g.nFatent { ncl := 2; }
    var cs := GetFat(v, ncl);
    VolumeFacts(v);
    if cs == 1 || cs == INVALID { return cs; }
    if cs == 0 { return ncl; }
    cs := v.lastClst;
    if cs >= 2 && cs < v.g.nFatent { scl := cs; }
    ghost var t := v.Img();
    r := FindFree(v, scl);
    FatStepTrans(v.g, s, t, v.Img());
  }

  // ---------- create_chain ----------

  /** The table after the new cluster r has been taken, behind clst unless that is 0. */
  ghost function Taken(fat: Fat, clst: nat, r: nat, eoc: nat): Fat
    requires Cluster(fat, r) && (clst == 0 || Cluster(fat, clst))
  {
    if clst == 0 then Started(fat, r, eoc) else Stretched(fat, clst, r, eoc)
  }

  /** Marks the new cluster as an end of chain and links it from clst unless that is 0. */
  method LinkNew(v: Volume, clst: nat, ncl: nat) returns (res: FResult)
    requires v.Valid() && 2 <= ncl < v.g.nFatent && (clst == 0 || 2 <= clst < v.g.nFatent)
    modifies v`disk, v`wflag, v`writeFailed, v`winsect, v.win
    ensures v.Valid() && FatStep(v.g, old(v.Img()), v.Img())
    ensures res == FR_OK || res == FR_DISK_ERR
    ensures res == FR_OK ==> v.Fat() == Taken(old(v.Fat()), clst, ncl, Trunc(v.g.fsType, INVALID))
    ensures v.reliable ==> res == FR_OK
  {
    hide Volume.Valid, Volume.Img, Volume.View, Volume.Fat, Image.Valid, Image.View, Geo.Valid, FatImage, FatOf, FatStep, Trunc;
    GeoLimits(v);
    VolumeFacts(v);
    EndMark(v.g);
    ghost var s := v.Img();
    res := PutFat(v, ncl, INVALID);
    if res == FR_OK && clst != 0 {
      VolumeFacts(v);
      ghost var t := v.Img();
      res := PutFat(v, clst, ncl);
      FatStepTrans(v.g, s, t, v.Img());
    }
  }

  lemma TakenCount(fat: Fat, clst: nat, r: nat, eoc: nat)
    requires Cluster(fat, r) && fat[r] == 0 && eoc != 0
    requires clst == 0 || (Cluster(fat, clst) && fat[clst] != 0)
    ensures FreeCount(Taken(fat, clst, r, eoc)) == FreeCount(fat) - 1
  {
    hide FreeCount;
    FreeUpdate(fat, r, eoc);
    if clst != 0 {
      FreeUpdate(Started(fat, r, eoc), clst, r);
    }
  }

  /** Takes the free cluster ncl and records it. */
  method Take(v: Volume, clst: nat, ncl: nat) returns (r: nat)
    requires v.Valid() && Cluster(v.Fat(), ncl) && v.Fat()[ncl] == 0 && v.freeClst != 0
    requires clst == 0 || (Cluster(v.Fat(), clst) && v.Fat()[clst] != 0)
    modifies v`disk, v`wflag, v`writeFailed, v`winsect, v`lastClst, v`freeClst, v.win
    ensures v.Valid() && FatStep(v.g, old(v.Img()), v.Img())
    ensures r == ncl || r == INVALID
    ensures r == ncl ==> v.Fat() == Taken(old(v.Fat()), clst, ncl, Trunc(v.g.fsType, INVALID)) && v.lastClst == ncl
    ensures r == ncl && old(FreeOk(v)) ==> FreeOk(v)
    ensures r == INVALID ==> v.lastClst == old(v.lastClst) && v.freeClst == old(v.freeClst)
    ensures r == ncl ==> v.freeClst == if old(v.freeClst) <= v.g.nFatent - 2 then old(v.freeClst) - 1 else old(v.freeClst)
    ensures v.reliable ==> r == ncl
  {
    hide Volume.Valid, Volume.Img, Volume.View, Volume.Fat, Image.Valid, Image.View, Geo.Valid, FatImage, FatOf, FatStep, Trunc, FreeCount;
    GeoLimits(v);
    VolumeFacts(v);
    ghost var fat := v.Fat();
    var res := LinkNew(v, clst, ncl);
    VolumeFacts(v);
    if res == FR_OK {
      EndMark(v.g);
      TakenCount(fat, clst, ncl, Trunc(v.g.fsType, INVALID));
      v.lastClst := ncl;
      if v.freeClst <= v.g.nFatent - 2 { v.freeClst := v.freeClst - 1; }
      r := ncl;
    } else {
      r := INVALID;
    }
  }

  /** What create_chain may answer, given the table before (a) and after (b). */
  ghost predicate CreateOutcome(g: Geo, a: Fat, b: Fat, clst: nat, full: bool, r: nat)
    requires |a| == g.nFatent
  {
    if r == INVALID then true
    else if r == 0 then b == a && (clst != 0 ==> Cluster(a, clst) && a[clst] >= |a|) && (full || forall c :: Cluster(a, c) ==> a[c] != 0)
    else if r == 1 then b == a && ((clst != 0 && (!Cluster(a, clst) || a[clst] < 2)) || exists c :: Cluster(a, c) && a[c] == 1)
    else
      && Cluster(a, r)
      && (clst != 0 ==> Cluster(a, clst))
      && (if clst != 0 && a[clst] < |a| then r == a[clst] && b == a
          else a[r] == 0 && b == Taken(a, clst, r, Trunc(g.fsType, INVALID)) && |b| == |a|)
  }

  /** The answer is a newly taken cluster, not one already linked behind clst. */
  ghost predicate TookNew(a: Fat, clst: nat, r: nat) {
    r > 1 && r != INVALID && !(clst != 0 && Cluster(a, clst) && a[clst] < |a|)
  }

  /** What allocation works on: the table, and the recorded number of free clusters. */
  datatype Alloc = Alloc(fat: Fat, free: nat)

  ghost function Table(v: Volume): Alloc
    requires v.Valid()
    reads v`disk, v`winsect, v`wflag, v`writeFailed, v`freeClst, v.win
  {
    Alloc(v.Fat(), v.freeClst)
  }

  /** One call of create_chain without a disk error. */
  ghost predicate Created(g: Geo, x: Alloc, y: Alloc, clst: nat, r: nat) {
    && |x.fat| == |y.fat| == g.nFatent && r != INVALID
    && CreateOutcome(g, x.fat, y.fat, clst, x.free == 0, r)
    && y.free == if TookNew(x.fat, clst, r) && x.free <= g.nFatent - 2 && x.free > 0 then x.free - 1 else x.free
  }

  /** Which free cluster a chain takes, given the cluster taken last as a hint. */
  ghost predicate Chosen(fat: Fat, clst: nat, hint: nat, r: nat) {
    if clst == 0 then FirstFree(fat, if 0 < hint < |fat| then hint else 1, r) else Nearest(fat, clst, hint, r)
  }

  lemma ChosenFree(fat: Fat, clst: nat, hint: nat, r: nat)
    requires Chosen(fat, clst, hint, r)
    ensures Cluster(fat, r) && fat[r] == 0
  {
    hide Turn;
  }

  /** create_chain: follows the chain if clst is already linked, else takes one free cluster.
      0 means no free cluster, 1 a bad cluster or entry, INVALID a disk error. */
  method CreateChain(v: Volume, clst: nat) returns (r: nat)
    requires v.Valid()
    modifies v`disk, v`wflag, v`writeFailed, v`winsect, v`lastClst, v`freeClst, v.win
    ensures v.Valid() && FatStep(v.g, old(v.Img()), v.Img())
    ensures CreateOutcome(v.g, old(v.Fat()), v.Fat(), clst, old(v.freeClst) == 0, r)
    ensures old(FreeOk(v)) && r != INVALID ==> FreeOk(v)
    ensures r == 0 ==> Exhausted(v.Fat(), v.freeClst)
    ensures r == 0 && old(FreeOk(v)) ==> forall c :: Cluster(v.Fat(), c) ==> v.Fat()[c] != 0
    ensures r != INVALID ==> Created(v.g, old(Table(v)), Table(v), clst, r)
    ensures TookNew(old(v.Fat()), clst, r) ==> Chosen(old(v.Fat()), clst, old(v.lastClst), r)
    ensures v.lastClst == if TookNew(old(v.Fat()), clst, r) then r else old(v.lastClst)
    ensures v.freeClst == if TookNew(old(v.Fat()), clst, r) && old(v.freeClst) <= v.g.nFatent - 2 then old(v.freeClst) - 1 else old(v.freeClst)
    ensures v.reliable ==> r != INVALID
  {
    hide Volume.Valid, Volume.Img, Volume.View, Volume.Fat, Image.Valid, Image.View, Geo.Valid, FatImage, FatOf, FatStep, Trunc, FreeCount, FirstFree, Nearest;
    GeoLimits(v);
    VolumeFacts(v);
    ghost var s := v.Img();
    ghost var fat := v.Fat();
    FatStepStays(v.g, s);
    var scl := v.lastClst;
    if clst == 0 {
      if scl == 0 || scl >= v.g.nFatent { scl := 1; }
    } else {
      var cs := GetFat(v, clst);
      if cs < 2 { return 1; }
      if cs == INVALID { return cs; }
      if cs < v.g.nFatent { return cs; }
    }
    if v.freeClst == 0 {
      if old(FreeOk(v)) {
        ExhaustedIsFull(fat, 0);
      }
      return 0;
    }
    VolumeFacts(v);
    ghost var t := v.Img();
    var ncl;
    if clst == 0 {
      ncl := FindFree(v, scl);
    } else {
      ncl := FindBehind(v, clst);
    }
    FatStepTrans(v.g, s, t, v.Img());
    if ncl < 2 || ncl == INVALID { return ncl; }
    ChosenFree(fat, clst, v.lastClst, ncl);
    VolumeFacts(v);
    t := v.Img();
    r := Take(v, clst, ncl);
    FatStepTrans(v.g, s, t, v.Img());
  }

  /** On a well-formed table create_chain adds at most one cluster to at most one chain. */
  lemma CreateEffect(g: Geo, a: Fat, b: Fat, clst: nat, full: bool, r: nat) returns (s: seq<nat>)
    requires g.Valid() && |a| == g.nFatent && WellFormed(a)
    requires CreateOutcome(g, a, b, clst, full, r) && r != INVALID
    ensures WellFormed(b)
    ensures !TookNew(a, clst, r) ==> b == a
    ensures TookNew(a, clst, r) && clst == 0 ==> Chains(b) == Chains(a) + iset{[r]}
    ensures TookNew(a, clst, r) && clst != 0 ==>
      s in Chains(a) && |s| > 0 && s[|s| - 1] == clst && Chains(b) == Chains(a) - iset{s} + iset{s + [r]}
    ensures r == 1 ==> clst != 0 && (!Cluster(a, clst) || a[clst] == 0)
  {
    hide WellFormed, Chains, Trunc, Geo.Valid, Free;
    EndMark(g);
    NoOnes(a);
    s := [];
    if TookNew(a, clst, r) {
      var eoc := Trunc(g.fsType, INVALID);
      if clst == 0 {
        StartChain(a, r, eoc);
      } else {
        assert Path(a, [clst]);
        var k;
        s, k := WholeChain(a, [clst]);
        assert s[k..] == [clst];
        StretchChain(a, clst, r, eoc, s);
      }
    }
  }

  lemma NoOnes(a: Fat)
    requires WellFormed(a)
    ensures forall c :: Cluster(a, c) ==> a[c] != 1
  {
  }

  // ---------- remove_chain ----------

  /** The table right before the removal loop. */
  ghost function Unhooked(g: Geo, a: Fat, pclst: nat): Fat
    requires pclst == 0 || Cluster(a, pclst)
  {
    if pclst == 0 then a else a[pclst := Trunc(g.fsType, INVALID)]
  }

  /** What remove_chain may answer, for any table a, cyclic or cross-linked ones included. */
  ghost predicate RemoveOutcome(g: Geo, a: Fat, b: Fat, clst: nat, pclst: nat, res: FResult)
    requires |a| == g.nFatent
  {
    if res == FR_DISK_ERR then true
    else if !Cluster(a, clst) || (pclst != 0 && !Cluster(a, pclst)) then res == FR_INT_ERR && b == a
    else
      var (f, clean) := Removed(Unhooked(g, a, pclst), clst);
      b == f && res == if clean then FR_OK else FR_INT_ERR
  }

  /** A known number after k clusters more have become free; it never passes the number of all clusters. */
  function Bumped(all: nat, free: nat, k: nat): nat {
    if free > all then free else if free + k > all then all else free + k
  }

  /** One call of remove_chain without a disk error. */
  ghost predicate Removal(g: Geo, x: Alloc, y: Alloc, clst: nat, pclst: nat, res: FResult) {
    && |x.fat| == |y.fat| == g.nFatent && g.nFatent >= 2 && res != FR_DISK_ERR
    && RemoveOutcome(g, x.fat, y.fat, clst, pclst, res)
    && if !Cluster(x.fat, clst) || (pclst != 0 && !Cluster(x.fat, pclst)) then y.free == x.free
       else var f := Unhooked(g, x.fat, pclst);
            FreeCount(y.fat) >= FreeCount(f) && y.free == Bumped(g.nFatent - 2, x.free, FreeCount(y.fat) - FreeCount(f))
  }

  /** remove_chain. */
  method RemoveChain(v: Volume, clst: nat, pclst: nat) returns (res: FResult)
    requires v.Valid()
    modifies v`disk, v`wflag, v`writeFailed, v`winsect, v`freeClst, v.win
    ensures v.Valid() && FatStep(v.g, old(v.Img()), v.Img())
    ensures RemoveOutcome(v.g, old(v.Fat()), v.Fat(), clst, pclst, res)
    ensures res != FR_DISK_ERR ==> Removal(v.g, old(Table(v)), Table(v), clst, pclst, res)
    ensures res != FR_DISK_ERR && old(FreeOk(v)) && (Cluster(old(v.Fat()), pclst) ==> old(v.Fat())[pclst] != 0) ==> FreeOk(v)
    ensures v.reliable ==> res != FR_DISK_ERR
  {
    hide Volume.Valid, Volume.Img, Volume.View, Volume.Fat, Image.Valid, Image.View, Geo.Valid, FatImage, FatOf, FatStep, Trunc, FreeCount, Removed;
    GeoLimits(v);
    VolumeFacts(v);
    ghost var s := v.Img();
    ghost var fat := v.Fat();
    FatStepStays(v.g, s);
    if clst < 2 || clst >= v.g.nFatent { return FR_INT_ERR; }
    if pclst != 0 {
      res := PutFat(v, pclst, INVALID);
      if res != FR_OK { return; }
      EndMark(v.g);
      UnhookedCount(v.g, fat, pclst);
    }
    VolumeFacts(v);
    ghost var t := v.Img();
    res := FreeLoop(v, clst);
    FatStepTrans(v.g, s, t, v.Img());
  }

  lemma UnhookedCount(g: Geo, fat: Fat, pclst: nat)
    requires Cluster(fat, pclst) && g.Valid() && |fat| == g.nFatent
    ensures fat[pclst] != 0 ==> FreeCount(Unhooked(g, fat, pclst)) == FreeCount(fat)
  {
    hide FreeCount, Trunc;
    EndMark(g);
    FreeUpdate(fat, pclst, Trunc(g.fsType, INVALID));
  }

  /** The loop of remove_chain. It ends on every table: each round frees a cluster in use. */
  method FreeLoop(v: Volume, clst: nat) returns (res: FResult)
    requires v.Valid() && Cluster(v.Fat(), clst)
    modifies v`disk, v`wflag, v`writeFailed, v`winsect, v`freeClst, v.win
    ensures v.Valid() && FatStep(v.g, old(v.Img()), v.Img())
    ensures res == FR_OK || res == FR_INT_ERR || res == FR_DISK_ERR
    ensures res != FR_DISK_ERR ==>
      v.Fat() == Removed(old(v.Fat()), clst).0 && res == if Removed(old(v.Fat()), clst).1 then FR_OK else FR_INT_ERR
    ensures res != FR_DISK_ERR ==> FreeCount(v.Fat()) >= old(FreeCount(v.Fat()))
    ensures res != FR_DISK_ERR ==> v.freeClst == Bumped(v.g.nFatent - 2, old(v.freeClst), FreeCount(v.Fat()) - old(FreeCount(v.Fat())))
    ensures res != FR_DISK_ERR && old(FreeOk(v)) ==> FreeOk(v)
    ensures v.reliable ==> res != FR_DISK_ERR
  {
    hide Volume.Valid, Volume.Img, Volume.View, Volume.Fat, Image.Valid, Image.View, Geo.Valid, FatImage, FatOf, FatStep, Trunc, FreeCount, Free, Used;
    GeoLimits(v);
    VolumeFacts(v);
    EndMark(v.g);
    ghost var s := v.Img();
    FatStepStays(v.g, s);
    var c := clst;
    while true
      invariant v.Valid() && s.Valid(v.g) && FatStep(v.g, s, v.Img()) && |v.Fat()| == v.g.nFatent
      invariant Cluster(v.Fat(), c)
      invariant Removed(v.Fat(), c) == Removed(old(v.Fat()), clst)
      invariant old(FreeOk(v)) ==> FreeOk(v)
      invariant FreeCount(v.Fat()) >= old(FreeCount(v.Fat()))
      invariant v.freeClst == Bumped(v.g.nFatent - 2, old(v.freeClst), FreeCount(v.Fat()) - old(FreeCount(v.Fat())))
      decreases Used(v.Fat())
    {
      var done;
      done, c, res := FreeOne(v, c, s);
      if done { return; }
    }
  }

  /** One round of the loop: done with the answer res, or on to the next cluster. */
  method FreeOne(v: Volume, c: nat, ghost s: Image) returns (done: bool, nxt: nat, res: FResult)
    requires v.Valid() && Cluster(v.Fat(), c) && s.Valid(v.g) && FatStep(v.g, s, v.Img())
    modifies v`disk, v`wflag, v`writeFailed, v`winsect, v`freeClst, v.win
    ensures v.Valid() && FatStep(v.g, s, v.Img())
    ensures res == FR_OK || res == FR_INT_ERR || res == FR_DISK_ERR
    ensures done && res != FR_DISK_ERR ==> Removed(old(v.Fat()), c) == (v.Fat(), res == FR_OK)
    ensures res != FR_DISK_ERR ==> FreeCount(v.Fat()) == old(FreeCount(v.Fat())) + (if v.Fat() == old(v.Fat()) then 0 else 1)
    ensures res != FR_DISK_ERR ==> v.freeClst == Bumped(v.g.nFatent - 2, old(v.freeClst), FreeCount(v.Fat()) - old(FreeCount(v.Fat())))
    ensures !done ==> res == FR_OK && Cluster(v.Fat(), nxt) && Removed(old(v.Fat()), c) == Removed(v.Fat(), nxt) && Used(v.Fat()) < Used(old(v.Fat()))
    ensures res != FR_DISK_ERR && old(FreeOk(v)) ==> FreeOk(v)
    ensures v.reliable ==> res != FR_DISK_ERR
  {
    hide Volume.Valid, Volume.Img, Volume.View, Volume.Fat, Image.Valid, Image.View, Geo.Valid, FatImage, FatOf, FatStep, Trunc, FreeCount, Free, Used;
    GeoLimits(v);
    VolumeFacts(v);
    EndMark(v.g);
    ghost var fat := v.Fat();
    ghost var t := v.Img();
    nxt := GetFat(v, c);
    FatStepTrans(v.g, s, t, v.Img());
    VolumeFacts(v);
    t := v.Img();
    if nxt == 0 { return true, 0, FR_OK; }
    if nxt == 1 { return true, 0, FR_INT_ERR; }
    if nxt == INVALID { return true, 0, FR_DISK_ERR; }
    FreedOne(fat, c);
    res := PutFat(v, c, 0);
    FatStepTrans(v.g, s, t, v.Img());
    if res != FR_OK { return true, 0, res; }
    if v.freeClst < v.g.nFatent - 2 { v.freeClst := v.freeClst + 1; }
    done := nxt >= v.g.nFatent;
  }

  lemma FreedOne(fat: Fat, c: nat)
    requires Cluster(fat, c) && fat[c] != 0
    ensures FreeCount(fat[c := 0]) == FreeCount(fat) + 1 <= |fat| - 2
    ensures Used(fat[c := 0]) < Used(fat)
  {
    FreeUpdate(fat, c, 0);
    FreeCountBound(fat);
    assert c in Used(fat) && c !in Used(fat[c := 0]);
  }

  /** Freeing the clusters of a path frees that many. */
  lemma {:induction false} ClearedCount(fat: Fat, s: seq<nat>)
    requires Path(fat, s)
    ensures FreeCount(Cleared(fat, s)) == FreeCount(fat) + |s|
    decreases |s|
  {
    hide FreeCount;
    var f := fat[s[0] := 0];
    PathNotFree(fat, s, s[0]);
    FreeUpdate(fat, s[0], 0);
    if |s| == 1 {
      assert Cleared(fat, s) == f;
    } else {
      var r := s[1..];
      PathSuffix(fat, s, 1);
      forall i | 0 <= i < |r| ensures r[i] != s[0] { PathDistinct(fat, s, 0, i + 1); }
      assert Path(f, r);
      ClearedCount(f, r);
      assert forall c :: c in s <==> c == s[0] || c in r;
      assert Cleared(f, r) == Cleared(fat, s);
    }
  }

  /** remove_chain on the first cluster of a whole chain frees exactly that chain. */
  lemma RemoveWholeEffect(g: Geo, a: Fat, b: Fat, s: seq<nat>, res: FResult)
    requires g.Valid() && |a| == g.nFatent && WellFormed(a) && s in Chains(a)
    requires RemoveOutcome(g, a, b, s[0], 0, res) && res != FR_DISK_ERR
    ensures res == FR_OK && WellFormed(b) && Chains(b) == Chains(a) - iset{s}
    ensures b == Cleared(a, s) && FreeCount(b) == FreeCount(a) + |s|
  {
    hide WellFormed, Trunc, Geo.Valid, IsHead, FreeCount;
    EndMark(g);
    NoOnes(a);
    RemovedPath(a, s);
    RemoveWhole(a, s, Trunc(g.fsType, INVALID));
    ClearedCount(a, s);
  }

  /** remove_chain behind the last cluster of u cuts the chain u + s down to u. */
  lemma RemoveSuffixEffect(g: Geo, a: Fat, b: Fat, u: seq<nat>, s: seq<nat>, res: FResult)
    requires g.Valid() && |a| == g.nFatent && WellFormed(a) && u + s in Chains(a) && |u| > 0 && |s| > 0
    requires RemoveOutcome(g, a, b, s[0], u[|u| - 1], res) && res != FR_DISK_ERR
    ensures res == FR_OK && WellFormed(b) && Chains(b) == Chains(a) - iset{u + s} + iset{u}
    ensures FreeCount(b) == FreeCount(a) + |s|
    ensures forall c :: Cluster(a, c) ==> (b[c] == 0 <==> a[c] == 0 || c in s)
  {
    hide WellFormed, Trunc, Geo.Valid, IsHead, FreeCount;
    EndMark(g);
    NoOnes(a);
    var pclst, eoc := u[|u| - 1], Trunc(g.fsType, INVALID);
    assert (u + s)[|u|] == s[0] && (u + s)[|u| - 1] == pclst;
    PathLink(a, u + s, |u| - 1);
    PathLink(a, u + s, |u|);
    RemoveSuffix(a, u, s, eoc);
    BehindNotIn(a, s, pclst, eoc);
    var f := a[pclst := eoc];
    UnhookedCount(g, a, pclst);
    assert Path(f, s);
    RemovedPath(f, s);
    ClearedCount(f, s);
  }

  // ---------- f_getfree ----------

  /** Zero entries among the first k. */
  ghost function Zeros(fat: Fat, k: nat): nat
    requires k <= |fat|
  {
    if k == 0 then 0 else Zeros(fat, k - 1) + if fat[k - 1] == 0 then 1 else 0
  }

  ghost function Bit(b: bool): nat { if b then 1 else 0 }

  lemma {:induction false} ZerosAreFree(fat: Fat, k: nat)
    requires 2 <= k <= |fat|
    ensures Zeros(fat, k) == Bit(fat[0] == 0) + Bit(fat[1] == 0) + |set c | c in Free(fat) && c < k|
  {
    var f := set c | c in Free(fat) && c < k;
    if k == 2 {
      assert f == {};
      assert Zeros(fat, 2) == Zeros(fat, 1) + Bit(fat[1] == 0);
    } else {
      var g := set c | c in Free(fat) && c < k - 1;
      ZerosAreFree(fat, k - 1);
      assert f == if fat[k - 1] == 0 then g + {k - 1} else g;
    }
  }

  /** All entries counted: the free clusters, plus the two reserved entries if they are zero. */
  lemma ZerosTotal(fat: Fat)
    requires |fat| >= 2
    ensures Zeros(fat, |fat|) == Bit(fat[0] == 0) + Bit(fat[1] == 0) + FreeCount(fat)
  {
    ZerosAreFree(fat, |fat|);
    assert (set c | c in Free(fat) && c < |fat|) == Free(fat);
  }

  /** The scan for 12-bit entries goes through get_fat, from cluster 2 on. */
  method CountFree12(v: Volume) returns (res: FResult, nfree: nat)
    requires v.Valid() && v.g.fsType == FAT12
    modifies v`disk, v`wflag, v`writeFailed, v`winsect, v.win
    ensures v.Valid() && FatStep(v.g, old(v.Img()), v.Img()) && v.Fat() == old(v.Fat())
    ensures res == FR_OK || res == FR_DISK_ERR || res == FR_INT_ERR
    ensures res == FR_OK ==> nfree == FreeCount(v.Fat())
    ensures res == FR_INT_ERR ==> exists c :: Cluster(v.Fat(), c) && v.Fat()[c] == 1
    ensures res == FR_OK ==> forall c :: Cluster(v.Fat(), c) ==> v.Fat()[c] != 1
    ensures v.reliable ==> res != FR_DISK_ERR
  {
    hide Volume.Valid, Volume.Img, Volume.View, Volume.Fat, Image.Valid, Image.View, Geo.Valid, FatImage, FatOf, FatStep, FreeCount;
    GeoLimits(v);
    VolumeFacts(v);
    ghost var s := v.Img();
    ghost var fat := v.Fat();
    FatStepStays(v.g, s);
    res := FR_OK;
    nfree := 0;
    var clst := 2;
    ghost var base := Zeros(fat, 2);
    while clst < v.g.nFatent
      invariant v.Valid() && s.Valid(v.g) && FatStep(v.g, s, v.Img()) && v.Fat() == fat
      invariant 2 <= clst <= v.g.nFatent && nfree + base == Zeros(fat, clst)
      invariant forall c :: 2 <= c < clst ==> fat[c] != 1
    {
      VolumeFacts(v);
      ghost var t := v.Img();
      var stat := GetFat(v, clst);
      FatStepTrans(v.g, s, t, v.Img());
      if stat == INVALID { return FR_DISK_ERR, nfree; }
      if stat == 1 { return FR_INT_ERR, nfree; }
      if stat == 0 { nfree := nfree + 1; }
      clst := clst + 1;
    }
    ZerosTotal(fat);
    assert base == Zeros(fat, 1) + Bit(fat[1] == 0);
  }

  /** Bytes per entry of the two flat encodings. */
  function EntrySize(t: FsType): nat
    requires t != FAT12
  {
    if t == FAT16 then 2 else 4
  }

  /** The value of the entry at offset i of the window. */
  method EntryAt(v: Volume, i: nat, ghost c: nat) returns (val: nat)
    requires v.Valid() && v.g.fsType != FAT12 && c < v.g.nFatent
    requires var p := Offset(v.g.fsType, c); i == p % SS && v.winsect == v.g.fatbase + p / SS
    ensures val == v.Fat()[c]
  {
    hide Volume.Valid, Volume.Img, Volume.View, Volume.Fat, Image.Valid, Image.View, Geo.Valid, FatImage, FatOf, FatStep, Decode, Word, Dword, Fits;
    ghost var img := FlatEntry(v, c);
    if v.g.fsType == FAT16 {
      val := WordAt(v, i, 2 * c);
    } else {
      var raw := DwordAt(v, i, c);
      val := raw % 0x1000_0000;
    }
  }

  /** The table entry as a word or dword of the table's bytes. */
  lemma FlatEntry(v: Volume, c: nat) returns (img: seq<byte>)
    requires v.Valid() && v.g.fsType != FAT12 && c < v.g.nFatent
    ensures img == v.TableBytes() && |img| == v.g.fsize * SS && |v.Fat()| == v.g.nFatent
    ensures v.g.fsType == FAT16 ==> 2 * c + 1 < |img| && v.Fat()[c] == Word(img[2 * c], img[2 * c + 1])
    ensures v.g.fsType == FAT32 ==>
      4 * c + 3 < |img| && v.Fat()[c] == Dword(img[4 * c], img[4 * c + 1], img[4 * c + 2], img[4 * c + 3]) % 0x1000_0000
  {
    hide Volume.Valid, Volume.Img, Volume.View, Volume.Fat, Image.Valid, Image.View, Geo.Valid, FatImage, FatOf, FatStep;
    VolumeFacts(v);
    img := v.TableBytes();
    EntryInTable(v.g, v.View(), c);
    DecodeFlat(v.g.fsType, img, c);
  }

  lemma SameSector16(p: nat)
    requires p % 2 == 0
    ensures (p + 1) / SS == p / SS && (p + 1) % SS == p % SS + 1 < SS
  {
    var k, a, b := p / 2, p / 2 / 256, p / 2 % 256;
    assert p == 2 * k && k == 256 * a + b;
    DivUnique(p, SS, a, 2 * b);
    DivUnique(p + 1, SS, a, 2 * b + 1);
  }

  /** The word at byte p of the table, which is in the window. */
  method WordAt(v: Volume, i: nat, ghost p: nat) returns (val: nat)
    requires v.Valid() && p + 1 < v.g.fsize * SS && p % 2 == 0
    requires i == p % SS && v.winsect == v.g.fatbase + p / SS
    ensures val == Word(v.TableBytes()[p], v.TableBytes()[p + 1])
  {
    hide Volume.Valid, Volume.Img, Volume.View, Volume.Fat, Image.Valid, Image.View, Geo.Valid, FatImage, FatOf, FatStep;
    VolumeFacts(v);
    SameSector16(p);
    WindowByte(v.g, v.Img(), p);
    WindowByte(v.g, v.Img(), p + 1);
    val := Word(v.win[i], v.win[i + 1]);
  }

  method DwordAt(v: Volume, i: nat, ghost c: nat) returns (val: nat)
    requires v.Valid() && 4 * c + 3 < v.g.fsize * SS
    requires i == 4 * c % SS && v.winsect == v.g.fatbase + 4 * c / SS
    ensures val == Dword(v.TableBytes()[4 * c], v.TableBytes()[4 * c + 1], v.TableBytes()[4 * c + 2], v.TableBytes()[4 * c + 3])
  {
    hide Volume.Valid, Volume.Img, Volume.View, Volume.Fat, Image.Valid, Image.View, Geo.Valid, FatImage, FatOf, FatStep;
    VolumeFacts(v);
    ghost var p := 4 * c;
    SameSector32(c, 0);
    SameSector32(c, 1);
    SameSector32(c, 2);
    SameSector32(c, 3);
    WindowByte(v.g, v.Img(), p);
    WindowByte(v.g, v.Img(), p + 1);
    WindowByte(v.g, v.Img(), p + 2);
    WindowByte(v.g, v.Img(), p + 3);
    val := Dword(v.win[i], v.win[i + 1], v.win[i + 2], v.win[i + 3]);
  }

  /** Where the flat scan stands after c entries: sect is the next sector to load. */
  ghost predicate ScanAt(g: Geo, c: nat, i: nat, sect: nat, winsect: nat)
    requires g.fsType != FAT12
  {
    var p := Offset(g.fsType, c);
    && i == p % SS
    && (if i == 0 then sect == g.fatbase + p / SS else sect == g.fatbase + p / SS + 1 && winsect == g.fatbase + p / SS)
  }

  /** Entries of the flat encodings do not straddle sectors. */
  ghost predicate NextInSector(p: nat, w: nat) {
    && p % SS + w <= SS
    && if p % SS + w == SS then (p + w) % SS == 0 && (p + w) / SS == p / SS + 1
       else (p + w) % SS == p % SS + w && (p + w) / SS == p / SS
  }

  lemma NextOffset(c: nat, w: nat, per: nat)
    requires (w == 2 && per == 256) || (w == 4 && per == 128)
    ensures NextInSector(if w == 2 then 2 * c else 4 * c, w)
  {
    DivNat(c, per);
    var a, b, p := c / per, c % per, if w == 2 then 2 * c else 4 * c;
    var r := if w == 2 then 2 * b else 4 * b;
    assert p == SS * a + r;
    DivUnique(p, SS, a, r);
    if b + 1 < per {
      DivUnique(p + w, SS, a, r + w);
    } else {
      DivUnique(p + w, SS, a + 1, 0);
    }
  }

  lemma NextFlat(t: FsType, c: nat)
    requires t != FAT12
    ensures NextInSector(Offset(t, c), EntrySize(t)) && Offset(t, c + 1) == Offset(t, c) + EntrySize(t)
  {
    hide NextInSector;
    if t == FAT16 {
      NextOffset(c, 2, 256);
    } else {
      NextOffset(c, 4, 128);
    }
  }

  lemma ScanNext(g: Geo, c: nat, i: nat, sect: nat)
    requires g.fsType != FAT12 && sect > 0 && ScanAt(g, c, i, sect, sect - 1) && i != 0
    ensures sect > 0 && ScanAt(g, c + 1, (i + EntrySize(g.fsType)) % SS, sect, sect - 1)
  {
    hide Offset, EntrySize;
    NextFlat(g.fsType, c);
  }

  lemma ScanFirst(g: Geo, c: nat, sect: nat)
    requires g.fsType != FAT12 && ScanAt(g, c, 0, sect, sect)
    ensures ScanAt(g, c + 1, EntrySize(g.fsType) % SS, sect + 1, sect)
  {
    hide Offset;
    NextFlat(g.fsType, c);
  }

  /** The scan for 16- and 32-bit entries runs over the table from entry 0, reserved entries included. */
  method CountFreeFlat(v: Volume) returns (res: FResult, nfree: nat)
    requires v.Valid() && v.g.fsType != FAT12
    modifies v`disk, v`wflag, v`writeFailed, v`winsect, v.win
    ensures v.Valid() && FatStep(v.g, old(v.Img()), v.Img()) && v.Fat() == old(v.Fat())
    ensures res == FR_OK || res == FR_DISK_ERR
    ensures res == FR_OK ==> nfree == Bit(v.Fat()[0] == 0) + Bit(v.Fat()[1] == 0) + FreeCount(v.Fat())
    ensures v.reliable ==> res == FR_OK
  {
    hide Volume.Valid, Volume.Img, Volume.View, Volume.Fat, Image.Valid, Image.View, Geo.Valid, FatImage, FatOf, FatStep, FreeCount, ScanAt;
    GeoLimits(v);
    VolumeFacts(v);
    ghost var s := v.Img();
    ghost var fat := v.Fat();
    FatStepStays(v.g, s);
    res := FR_OK;
    nfree := 0;
    var clst, sect, i := v.g.nFatent, v.g.fatbase, 0;
    ghost var c := 0;
    assert ScanAt(v.g, 0, 0, sect, v.winsect) by { ScanStart(v.g, v.winsect); }
    while clst > 0
      invariant v.Valid() && s.Valid(v.g) && FatStep(v.g, s, v.Img()) && v.Fat() == fat
      invariant c + clst == |fat| == v.g.nFatent && nfree == Zeros(fat, c)
      invariant ScanAt(v.g, c, i, sect, v.winsect)
    {
      var moved, stat;
      moved, stat, i, sect := ScanEntry(v, i, sect, c, s);
      if !moved { return FR_DISK_ERR, nfree; }
      if stat == 0 { nfree := nfree + 1; }
      clst := clst - 1;
      c := c + 1;
    }
    ZerosTotal(fat);
  }

  lemma ScanStart(g: Geo, winsect: nat)
    requires g.fsType != FAT12
    ensures ScanAt(g, 0, 0, g.fatbase, winsect)
  {
  }

  /** One step of the flat scan. */
  method ScanEntry(v: Volume, i: nat, sect: nat, ghost c: nat, ghost s: Image) returns (ok: bool, stat: nat, i': nat, sect': nat)
    requires v.Valid() && v.g.fsType != FAT12 && c < v.g.nFatent
    requires s.Valid(v.g) && FatStep(v.g, s, v.Img()) && ScanAt(v.g, c, i, sect, v.winsect)
    modifies v`disk, v`wflag, v`writeFailed, v`winsect, v.win
    ensures v.Valid() && FatStep(v.g, s, v.Img()) && v.Fat() == old(v.Fat())
    ensures ok ==> stat == v.Fat()[c] && ScanAt(v.g, c + 1, i', sect', v.winsect)
    ensures v.reliable ==> ok
  {
    hide Volume.Valid, Volume.Img, Volume.View, Volume.Fat, Image.Valid, Image.View, Geo.Valid, FatImage, FatOf, FatStep;
    VolumeFacts(v);
    EntryInTable(v.g, v.View(), c);
    ghost var t := v.Img();
    sect' := sect;
    i' := i;
    if i == 0 {
      var res := v.MoveToFat(sect - v.g.fatbase);
      FatStepTrans(v.g, s, t, v.Img());
      if res != FR_OK { return false, 0, i', sect'; }
      sect' := sect' + 1;
      ScanFirst(v.g, c, sect);
    } else {
      assert sect == v.winsect + 1;
      ScanNext(v.g, c, i, sect);
    }
    stat := EntryAt(v, i, c);
    i' := (i' + EntrySize(v.g.fsType)) % SS;
    ok := true;
  }

  /** What the flat scan counts beyond the free clusters. */
  ghost function Overcount(g: Geo, fat: Fat): nat
    requires |fat| >= 2
  {
    if g.fsType == FAT12 then 0 else Bit(fat[0] == 0) + Bit(fat[1] == 0)
  }

  /** f_getfree: the recorded number if it is known, else the result of a scan, which is then recorded.
      The reserved entries are counted by the flat scan, so the number is right only if they are not zero. */
  method GetFree(v: Volume) returns (res: FResult, nclst: nat)
    requires v.Valid()
    modifies v`disk, v`wflag, v`writeFailed, v`winsect, v`freeClst, v.win
    ensures v.Valid() && FatStep(v.g, old(v.Img()), v.Img()) && v.Fat() == old(v.Fat())
    ensures old(v.freeClst) <= v.g.nFatent - 2 ==> res == FR_OK && nclst == v.freeClst == old(v.freeClst)
    ensures res == FR_OK && old(v.freeClst) > v.g.nFatent - 2 ==>
              v.freeClst == nclst && nclst == FreeCount(v.Fat()) + Overcount(v.g, v.Fat())
    ensures old(FreeOk(v)) && Overcount(v.g, v.Fat()) == 0 ==> FreeOk(v) && (res == FR_OK ==> nclst == FreeCount(v.Fat()))
    ensures res != FR_OK ==> v.freeClst == old(v.freeClst)
    ensures (v.reliable ==> res != FR_DISK_ERR) && (res !in {FR_OK, FR_DISK_ERR} ==> exists c :: Cluster(v.Fat(), c) && v.Fat()[c] == 1)
  {
    hide Volume.Valid, Volume.Img, Volume.View, Volume.Fat, Image.Valid, Image.View, Geo.Valid, FatImage, FatOf, FatStep, FreeCount;
    VolumeFacts(v);
    FatStepStays(v.g, v.Img());
    res := FR_OK;
    if v.freeClst <= v.g.nFatent - 2 {
      nclst := v.freeClst;
    } else {
      var nfree;
      if v.g.fsType == FAT12 {
        res, nfree := CountFree12(v);
      } else {
        res, nfree := CountFreeFlat(v);
      }
      nclst := nfree;
      if res == FR_OK {
        v.freeClst := nfree;
      }
    }
  }

  // ---------- runs ----------

  /** One call: an allocation, the removal of a whole chain or of what lies behind a cluster, or f_getfree. */
  datatype Call = Create(clst: nat, r: nat) | RemoveWholeChain(s: seq<nat>) | RemoveTail(u: seq<nat>, s: seq<nat>) | Count

  /** The call leads from x to y without a disk error. */
  ghost predicate Step(g: Geo, call: Call, x: Alloc, y: Alloc)
    requires |x.fat| == |y.fat| == g.nFatent && g.nFatent >= 2
  {
    match call
    case Create(clst, r) => Created(g, x, y, clst, r)
    case RemoveWholeChain(s) => s in Chains(x.fat) && Removal(g, x, y, s[0], 0, FR_OK)
    case RemoveTail(u, s) => u + s in Chains(x.fat) && |u| > 0 && |s| > 0 && Removal(g, x, y, s[0], u[|u| - 1], FR_OK)
    case Count => y == Alloc(x.fat, if x.free <= g.nFatent - 2 then x.free else FreeCount(x.fat) + Overcount(g, x.fat))
  }

  /** The chains are in order and the record is right; the reserved entries are not taken for free clusters. */
  ghost predicate InOrder(g: Geo, x: Alloc)
    requires |x.fat| == g.nFatent && g.nFatent >= 2
  {
    WellFormed(x.fat) && Counted(x.fat, x.free) && Overcount(g, x.fat) == 0
  }

  lemma CreateCount(g: Geo, x: Alloc, y: Alloc, clst: nat, r: nat)
    requires g.Valid() && Created(g, x, y, clst, r) && WellFormed(x.fat) && Counted(x.fat, x.free)
    ensures Counted(y.fat, y.free) && y.fat[0] == x.fat[0] && y.fat[1] == x.fat[1]
  {
    hide FreeCount, WellFormed, Trunc;
    EndMark(g);
    NoOnes(x.fat);
    if TookNew(x.fat, clst, r) {
      TakenCount(x.fat, clst, r, Trunc(g.fsType, INVALID));
    }
  }

  lemma RemoveCount(g: Geo, x: Alloc, y: Alloc, k: nat)
    requires g.Valid() && |x.fat| == |y.fat| == g.nFatent && Counted(x.fat, x.free)
    requires FreeCount(y.fat) == FreeCount(x.fat) + k && y.free == Bumped(g.nFatent - 2, x.free, k)
    ensures Counted(y.fat, y.free)
  {
    hide FreeCount;
    FreeCountBound(y.fat);
  }

  lemma {:induction false} RemovedReserved(fat: Fat, c: nat)
    requires Cluster(fat, c)
    ensures var f := Removed(fat, c).0; f[0] == fat[0] && f[1] == fat[1]
    decreases Used(fat)
  {
    var nxt := fat[c];
    if nxt > 1 && nxt < |fat| {
      FreedOne(fat, c);
      RemovedReserved(fat[c := 0], nxt);
    }
  }

  /** One call keeps the chains in order, and a right record right. */
  lemma CallKeeps(g: Geo, call: Call, x: Alloc, y: Alloc)
    requires g.Valid() && |x.fat| == |y.fat| == g.nFatent && WellFormed(x.fat) && Step(g, call, x, y)
    ensures WellFormed(y.fat) && (InOrder(g, x) ==> InOrder(g, y))
  {
    hide WellFormed, CreateOutcome, RemoveOutcome, Geo.Valid, Chains, FreeCount, Removed, Counted;
    GeoBounds(g);
    match call
    case Create(clst, r) =>
      var s := CreateEffect(g, x.fat, y.fat, clst, x.free == 0, r);
      if Counted(x.fat, x.free) {
        CreateCount(g, x, y, clst, r);
      }
    case RemoveWholeChain(s) =>
      InChain(x.fat, s);
      RemoveWholeEffect(g, x.fat, y.fat, s, FR_OK);
      if Counted(x.fat, x.free) {
        RemoveCount(g, x, y, |s|);
      }
      RemovedReserved(x.fat, s[0]);
      Unchanged(g, x.fat, y.fat, s[0], 0);
    case RemoveTail(u, s) =>
      InChain(x.fat, u + s);
      assert (u + s)[|u| - 1] == u[|u| - 1] && (u + s)[|u|] == s[0];
      RemoveSuffixEffect(g, x.fat, y.fat, u, s, FR_OK);
      UnhookedCount(g, x.fat, u[|u| - 1]);
      if Counted(x.fat, x.free) {
        RemoveCount(g, x, y, |s|);
      }
      RemovedReserved(Unhooked(g, x.fat, u[|u| - 1]), s[0]);
      Unchanged(g, x.fat, y.fat, s[0], u[|u| - 1]);
    case Count =>
      CountedExactly(x.fat);
  }

  /**
   * f_getfree keeps a right record right exactly if the number is known already, or no reserved entry is zero, or all
   * clusters are free, so that the surplus makes the number unknown.
   */
  lemma CountKeeps(g: Geo, x: Alloc, y: Alloc)
    requires g.Valid() && |x.fat| == |y.fat| == g.nFatent && g.nFatent >= 2 && Counted(x.fat, x.free) && Step(g, Count, x, y)
    ensures Counted(y.fat, y.free)
            <==> x.free <= g.nFatent - 2 || Overcount(g, x.fat) == 0 || FreeCount(x.fat) + Overcount(g, x.fat) > g.nFatent - 2
  {
    hide FreeCount, Geo.Valid;
    CountedExactly(x.fat);
  }

  lemma GeoBounds(g: Geo)
    requires g.Valid()
    ensures g.nFatent >= 3
  {
  }

  lemma CountedExactly(fat: Fat)
    ensures Counted(fat, FreeCount(fat))
  {
  }

  lemma InChain(fat: Fat, s: seq<nat>)
    requires s in Chains(fat)
    ensures |s| > 0 && forall i :: 0 <= i < |s| ==> Cluster(fat, s[i]) && fat[s[i]] != 0
  {
    forall i | 0 <= i < |s| ensures Cluster(fat, s[i]) && fat[s[i]] != 0 {
      PathNotFree(fat, s, s[i]);
    }
  }

  /** The reserved entries stay as they are. */
  lemma Unchanged(g: Geo, a: Fat, b: Fat, clst: nat, pclst: nat)
    requires |a| == g.nFatent && Cluster(a, clst) && (pclst == 0 || Cluster(a, pclst)) && RemoveOutcome(g, a, b, clst, pclst, FR_OK)
    requires var f := Unhooked(g, a, pclst); Removed(f, clst).0[0] == f[0] && Removed(f, clst).0[1] == f[1]
    ensures |b| == |a| && b[0] == a[0] && b[1] == a[1]
  {
  }

  /**
   * Every run of such calls keeps the chains disjoint, acyclic and properly ended; and, if no reserved entry is zero,
   * the recorded number of free clusters unknown or right.
   */
  lemma {:induction false} RunKeeps(g: Geo, run: seq<Alloc>, calls: seq<Call>)
    requires g.Valid() && |run| == |calls| + 1 && forall i :: 0 <= i < |run| ==> |run[i].fat| == g.nFatent
    requires g.nFatent >= 2 && WellFormed(run[0].fat)
    requires forall i :: 0 <= i < |calls| ==> Step(g, calls[i], run[i], run[i + 1])
    ensures forall i :: 0 <= i < |run| ==> WellFormed(run[i].fat)
    ensures InOrder(g, run[0]) ==> forall i :: 0 <= i < |run| ==> InOrder(g, run[i])
  {
    hide InOrder, WellFormed, Step, Geo.Valid;
    if |calls| > 0 {
      var k := |calls| - 1;
      var earlier := run[..k + 1];
      forall i | 0 <= i < k ensures Step(g, calls[..k][i], earlier[i], earlier[i + 1]) {
        assert Step(g, calls[i], run[i], run[i + 1]);
      }
      RunKeeps(g, earlier, calls[..k]);
      assert WellFormed(earlier[k].fat) && earlier[k] == run[k];
      assert Step(g, calls[k], run[k], run[k + 1]);
      CallKeeps(g, calls[k], run[k], run[k + 1]);
      forall i | 0 <= i < |run| ensures WellFormed(run[i].fat) && (InOrder(g, run[0]) ==> InOrder(g, run[i])) {
        if i <= k {
          assert earlier[i] == run[i] && WellFormed(earlier[i].fat);
        }
      }
    }
  }
}
