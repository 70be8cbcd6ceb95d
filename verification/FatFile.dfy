/** An open file: f_read, f_write, f_lseek and f_truncate, and the sequence of bytes
    with a cursor that they implement. */
module FatFile {
  import opened Arith
  import opened FatBase
  import opened FatCodec
  import opened FatVolume
  import opened FatChains
  import opened FatAlloc
  import opened FatFileModel
  import opened FatFileState

  function ZeroSector(): Sector { seq(SS, _ => 0) }

  class File {
    const vol: Volume
    const canRead: bool
    const canWrite: bool
    const buf: array<byte>
    var dirty: bool
    var modified: bool
    var err: FResult
    var fptr: nat
    var clust: nat
    var sect: nat
    var objsize: nat
    var sclust: nat
    ghost var chain: seq<nat>
    ghost var mine: set<nat>

    /** The end of f_open: the start cluster and size come from the directory entry. */
    constructor (vol: Volume, canRead: bool, canWrite: bool, sclust: nat, objsize: nat, ghost st: FileState)
      requires vol.Valid() && Core(vol.g, vol.Img(), st)
      requires st.fptr == 0 && st.clust == 0 && !st.dirty && st.sect == 0 && st.sclust == sclust && st.objsize == objsize
      requires st.buf == ZeroSector()
      ensures this.vol == vol && this.canRead == canRead && this.canWrite == canWrite
      ensures Valid() && State() == st && err == FR_OK && fresh(buf) && !modified
    {
      hide Core, FatOf, Image.Valid, Image.View;
      this.vol := vol;
      this.canRead := canRead;
      this.canWrite := canWrite;
      this.sclust := sclust;
      this.objsize := objsize;
      dirty, modified, err := false, false, FR_OK;
      fptr, clust, sect := 0, 0, 0;
      var b := new byte[SS](_ => 0);
      buf := b;
      chain, mine := st.chain, st.mine;
      new;
      assert buf[..] == ZeroSector();
    }

    ghost function State(): FileState
      requires buf.Length == SS
      reads this, buf
    {
      FileState(fptr, clust, sect, objsize, sclust, dirty, buf[..], chain, mine)
    }

    /** The volume and the file agree, whatever the pointer's cluster is. */
    ghost predicate Sound()
      reads this, buf, vol, vol.win
    {
      buf.Length == SS && buf != vol.win && vol.Valid() && Core(vol.g, vol.Img(), State())
    }

    /** Sound, with the pointer's cluster and buffered sector in place: holds between calls. */
    ghost predicate Valid()
      reads this, buf, vol, vol.win
    {
      Sound() && Positioned(vol.g, State())
    }

    /** The bytes of the file. */
    ghost function Bytes(): (r: seq<byte>)
      requires Sound()
      reads this, buf, vol, vol.win
    {
      Content(vol.g, vol.Img(), State())
    }
  }

  // ---------- opening ----------

  /** The start cluster and size of a directory entry go with a chain of the table. */
  ghost predicate EntryOk(g: Geo, fat: Fat, sclust: nat, objsize: nat, chain: seq<nat>) {
    && (if sclust == 0 then chain == [] else chain in Chains(fat) && |chain| > 0 && chain[0] == sclust)
    && objsize <= MAXSIZE && objsize <= |chain| * g.Bcs()
  }

  /** The window is over no free cluster, and over none of the chain. */
  ghost predicate WindowClear(g: Geo, s: Image, fat: Fat, chain: seq<nat>)
    requires g.csize > 0 && g.nFatent >= 2
  {
    g.database <= s.winsect < g.End() ==>
      var c := ClusterOf(g, s.winsect); Cluster(fat, c) ==> fat[c] != 0 && c !in chain
  }

  /** The state of a file just opened. */
  ghost function Opened(fat: Fat, sclust: nat, objsize: nat, chain: seq<nat>): FileState {
    FileState(0, 0, 0, objsize, sclust, false, ZeroSector(), chain, set c | 2 <= c < |fat| && (fat[c] == 0 || c in chain))
  }

  /** Every entry that goes with a chain of a well-formed table can be opened. */
  lemma OpenedCore(g: Geo, s: Image, sclust: nat, objsize: nat, chain: seq<nat>)
    requires s.Valid(g) && g.Valid() && g.End() <= |s.View()|
    requires var fat := FatOf(g, s.View()); WellFormed(fat) && EntryOk(g, fat, sclust, objsize, chain) && WindowClear(g, s, fat, chain)
    ensures var f := Opened(FatOf(g, s.View()), sclust, objsize, chain);
            Core(g, s, f) && Positioned(g, f) && |Content(g, s, f)| == objsize
  {
    hide FatOf, WellFormed, Chains, Image.Valid, Image.View, ClusterOf, Sectors, Flat;
    var fat := FatOf(g, s.View());
    if sclust != 0 {
      ChainsArePaths(fat, chain);
      PathIsGood(g, fat, chain);
    }
    ValidSizes(g, s);
    Assoc(SS, g.csize, |chain|);
  }

  /** The end of f_open, for an entry that goes with a chain of the table. */
  method Open(vol: Volume, canRead: bool, canWrite: bool, sclust: nat, objsize: nat, ghost chain: seq<nat>) returns (f: File)
    requires vol.Valid() && WellFormed(vol.Fat()) && EntryOk(vol.g, vol.Fat(), sclust, objsize, chain)
    requires vol.g.Valid() && WindowClear(vol.g, vol.Img(), vol.Fat(), chain)
    ensures fresh(f) && f.vol == vol && f.canRead == canRead && f.canWrite == canWrite
    ensures f.Valid() && f.err == FR_OK && f.fptr == 0 && f.objsize == objsize == |f.Bytes()|
    ensures f.chain == chain && f.mine == Opened(vol.Fat(), sclust, objsize, chain).mine
  {
    hide Core, FatOf, WellFormed, Chains, Image.Valid, Image.View, EntryOk, WindowClear, Positioned, Content;
    VolumeFacts(vol);
    OpenedCore(vol.g, vol.Img(), sclust, objsize, chain);
    f := new File(vol, canRead, canWrite, sclust, objsize, Opened(vol.Fat(), sclust, objsize, chain));
  }

  /** clst2sect: the first sector of a cluster, 0 for a number out of range. */
  function Clst2Sect(g: Geo, clst: nat): nat
    requires g.nFatent >= 2
  {
    var c := (clst - 2) % 0x1_0000_0000;
    MulNat(g.csize, c);
    if c >= g.nFatent - 2 then 0 else g.database + g.csize * c
  }

  lemma Clst2SectIsBase(g: Geo, clst: nat)
    requires g.Valid() && 2 <= clst < g.nFatent
    ensures Clst2Sect(g, clst) == ClusterBase(g, clst) > 0
  {
    ClusterRange(g, clst);
  }

  lemma CoreValid(g: Geo, s: Image, st: FileState)
    requires Core(g, s, st)
    ensures s.Valid(g) && g.Valid() && g.database <= g.End() <= |s.disk| == |s.View()|
    ensures st.sclust == 0 <==> st.chain == []
  {
    hide FatOf, WellFormed, Chains;
  }

  // ---------- the buffer ----------

  /** Writes the dirty buffer back. */
  method Flush(f: File) returns (ok: bool)
    requires f.Sound()
    modifies f`dirty, f.vol`disk, f.vol`writeFailed
    ensures f.Sound() && FileStep(f.vol.g, f.mine, old(f.vol.Img()), f.vol.Img())
    ensures f.State() == old(f.State()).(dirty := f.dirty)
    ensures ok ==> !f.dirty
    ensures Secs(f.vol.g, f.vol.Img(), f.State()) == old(Secs(f.vol.g, f.vol.Img(), f.State()))
    ensures f.vol.Fat() == old(f.vol.Fat())
    ensures f.vol.reliable ==> ok
  {
    hide Core, Secs, Image.Valid, Image.View, FileStep, FatOf;
    var v := f.vol;
    ghost var g, s, st := v.g, v.Img(), f.State();
    FileStepStays(g, f.mine, s);
    ok := true;
    if f.dirty {
      CoreFlush(g, s, st);
      FailedImage(g, s, st);
      var done := v.DiskWrite(f.sect, [f.buf[..]]);
      if done {
        assert v.Img() == DataWritten(s, f.sect, [st.buf]);
        f.dirty := false;
        assert f.State() == st.(dirty := false);
      } else {
        assert v.Img() == s.(writeFailed := true);
        ok := false;
      }
      CoreValid(g, v.Img(), f.State());
    }
  }

  /** Fills the clean buffer with a sector of the file. */
  method LoadBuffer(f: File, x: nat) returns (ok: bool)
    requires f.Sound() && !f.dirty && MineSector(f.vol.g, f.mine, x)
    modifies f`sect, f.buf
    ensures f.Sound()
    ensures ok ==> f.State() == old(f.State()).(sect := x, buf := f.buf[..])
    ensures ok ==> Secs(f.vol.g, f.vol.Img(), f.State()) == old(Secs(f.vol.g, f.vol.Img(), f.State()))
    ensures ok ==> x < |f.vol.disk| && f.buf[..] == f.vol.disk[x]
    ensures !ok ==> f.State() == old(f.State())
    ensures f.vol.reliable ==> ok
  {
    hide Core, Secs, Image.Valid, Image.View;
    var v := f.vol;
    ghost var g, s, st := v.g, v.Img(), f.State();
    CoreLoad(g, s, st, x);
    var done, data := v.DiskRead(x, 1);
    if !done { return false; }
    f.sect := x;
    forall i | 0 <= i < SS { f.buf[i] := data[0][i]; }
    assert f.buf[..] == v.disk[x];
    assert v.Img() == s;
    return true;
  }

  // ---------- following and stretching the chain ----------

  /** From s to t nothing but the file and the FAT was written, and every other chain is as it was. */
  ghost predicate Kept(g: Geo, mine: set<nat>, s: Image, t: Image, c0: seq<nat>, c1: seq<nat>)
    requires s.Valid(g)
  {
    FileStep(g, mine, s, t) && Chains(FatOf(g, t.View())) - iset{c1} == Chains(FatOf(g, s.View())) - iset{c0}
  }

  lemma KeptTrans(g: Geo, mine: set<nat>, s: Image, t: Image, u: Image, c0: seq<nat>, c1: seq<nat>, c2: seq<nat>)
    requires s.Valid(g) && t.Valid(g) && Kept(g, mine, s, t, c0, c1) && Kept(g, mine, t, u, c1, c2)
    ensures Kept(g, mine, s, u, c0, c2)
  {
    hide FileStep, FatOf, Chains;
    FileStepTrans(g, mine, s, t, u);
  }

  lemma KeptSame(g: Geo, mine: set<nat>, s: Image, t: Image, c: seq<nat>)
    requires s.Valid(g) && FileStep(g, mine, s, t) && FatOf(g, t.View()) == FatOf(g, s.View())
    ensures Kept(g, mine, s, t, c, c)
  {
    hide FileStep, FatOf, Chains;
  }

  /** clst is where the chain is to go on: its cluster idx, or 0 for a file without clusters. */
  ghost predicate GoesOnFrom(f: FileState, clst: nat, idx: int) {
    if clst == 0 then f.chain == [] && idx == -1 else 0 <= idx < |f.chain| && clst == f.chain[idx]
  }

  /** The state after following or stretching the chain to cluster r. */
  ghost function WentOn(f: FileState, clst: nat, idx: int, r: nat): FileState {
    if idx + 1 < |f.chain| then f.(clust := r) else Grown(f, r)
  }

  lemma FollowLink(g: Geo, a: Fat, f: FileState, clst: nat, idx: int)
    requires ChainOk(g, a, f) && GoesOnFrom(f, clst, idx) && clst != 0
    ensures Cluster(a, clst) && a[clst] >= 2
    ensures if idx + 1 < |f.chain| then a[clst] == f.chain[idx + 1] && a[clst] < |a| else a[clst] >= |a|
  {
    hide WellFormed;
    ChainsArePaths(a, f.chain);
    PathLink(a, f.chain, idx);
  }

  /** What create_chain does to the file. */
  lemma CreateForFile(g: Geo, s: Image, t: Image, f: FileState, clst: nat, idx: int, full: bool, r: nat)
    requires Core(g, s, f) && FatStep(g, s, t) && GoesOnFrom(f, clst, idx) && t.Valid(g)
    requires CreateOutcome(g, FatOf(g, s.View()), FatOf(g, t.View()), clst, full, r) && r != INVALID
    ensures r != 1
    ensures r == 0 ==> Core(g, t, f) && Content(g, t, f) == Content(g, s, f) && Kept(g, f.mine, s, t, f.chain, f.chain)
    ensures r == 0 ==> idx + 1 == |f.chain|
    ensures r > 1 ==> var h := WentOn(f, clst, idx, r);
      Core(g, t, h) && Content(g, t, h) == Content(g, s, f) && idx + 1 < |h.chain| && h.chain[idx + 1] == r
      && Kept(g, f.mine, s, t, f.chain, h.chain) && Secs(g, s, f) <= Secs(g, t, h)
  {
    hide FatOf, FatStep, FileStep, Chains, WellFormed, BufferOk, WindowOk, SizeOk, Sectors, Flat, Trunc, Image.Valid, CreateOutcome;
    ValidSizes(g, s);
    ValidSizes(g, t);
    var a, b := FatOf(g, s.View()), FatOf(g, t.View());
    FatStepIsFileStep(g, f.mine, s, t);
    if clst != 0 {
      FollowLink(g, a, f, clst, idx);
    }
    var c := CreateEffect(g, a, b, clst, full, r);
    if TookNew(a, clst, r) {
      CreateGrows(g, a, b, f, clst, idx, full, r, c);
      CoreGrown(g, s, t, f, r);
    } else {
      CoreFatStep(g, s, t, f);
      KeptSame(g, f.mine, s, t, f.chain);
      if r == 0 {
        NotFollowed(g, a, b, f, clst, idx, full);
      }
      if r > 1 {
        Followed(g, a, b, f, clst, idx, full, r);
        ClustFree(g, t, f, r);
      }
    }
  }

  lemma NotFollowed(g: Geo, a: Fat, b: Fat, f: FileState, clst: nat, idx: int, full: bool)
    requires ChainOk(g, a, f) && GoesOnFrom(f, clst, idx) && CreateOutcome(g, a, b, clst, full, 0)
    ensures idx + 1 == |f.chain|
  {
    hide WellFormed, Chains;
    if clst != 0 {
      FollowLink(g, a, f, clst, idx);
    }
  }

  lemma Followed(g: Geo, a: Fat, b: Fat, f: FileState, clst: nat, idx: int, full: bool, r: nat)
    requires ChainOk(g, a, f) && GoesOnFrom(f, clst, idx) && CreateOutcome(g, a, b, clst, full, r)
    requires r > 1 && r != INVALID && !TookNew(a, clst, r)
    ensures clst != 0 && idx + 1 < |f.chain| && f.chain[idx + 1] == r
  {
    hide WellFormed, Chains;
    FollowLink(g, a, f, clst, idx);
  }

  /** The pointer's cluster matters to nothing but the pointer. */
  lemma ClustFree(g: Geo, t: Image, f: FileState, r: nat)
    requires Core(g, t, f)
    ensures Core(g, t, f.(clust := r)) && Content(g, t, f.(clust := r)) == Content(g, t, f)
    ensures Secs(g, t, f.(clust := r)) == Secs(g, t, f)
  {
    hide FatOf;
    ChainFlags(g, FatOf(g, t.View()), f, f.(clust := r));
  }

  lemma CreateGrows(g: Geo, a: Fat, b: Fat, f: FileState, clst: nat, idx: int, full: bool, r: nat, c: seq<nat>)
    requires ChainOk(g, a, f) && GoesOnFrom(f, clst, idx) && CreateOutcome(g, a, b, clst, full, r) && g.Valid()
    requires TookNew(a, clst, r) && WellFormed(b)
    requires clst != 0 ==> Cluster(a, clst) && (idx + 1 < |f.chain| ==> a[clst] < |a|)
    requires if clst == 0 then Chains(b) == Chains(a) + iset{[r]}
             else c in Chains(a) && |c| > 0 && c[|c| - 1] == clst && Chains(b) == Chains(a) - iset{c} + iset{c + [r]}
    ensures ChainOk(g, b, Grown(f, r)) && r in f.mine && idx == |f.chain| - 1
    ensures Chains(b) - iset{Grown(f, r).chain} == Chains(a) - iset{f.chain}
  {
    hide WellFormed, Chains, Trunc;
    EndMark(g);
    if clst != 0 {
      ChainsDisjoint(a, c, f.chain, |c| - 1, idx);
    }
    GrownChain(g, a, b, f, r);
  }

  /** create_chain for the file; the new or following cluster becomes the pointer's cluster. */
  method StretchTo(f: File, clst: nat, ghost idx: int) returns (r: nat)
    requires f.Sound() && GoesOnFrom(f.State(), clst, idx)
    modifies f`clust, f`sclust, f`chain, f.vol`disk, f.vol`wflag, f.vol`writeFailed, f.vol`winsect, f.vol`lastClst, f.vol`freeClst, f.vol.win
    ensures r != 1
    ensures r == 0 ==> f.Sound() && f.State() == old(f.State()) && Full(f.vol) && idx + 1 == |f.chain|
    ensures r > 1 && r != INVALID ==> f.Sound() && f.State() == WentOn(old(f.State()), clst, idx, r)
    ensures r > 1 && r != INVALID ==> idx + 1 < |f.chain| && f.chain[idx + 1] == r
    ensures r > 1 && r != INVALID ==> old(Secs(f.vol.g, f.vol.Img(), f.State())) <= Secs(f.vol.g, f.vol.Img(), f.State())
    ensures r != INVALID ==> f.Bytes() == old(f.Bytes()) && Kept(f.vol.g, f.mine, old(f.vol.Img()), f.vol.Img(), old(f.chain), f.chain)
    ensures r != INVALID && old(FreeOk(f.vol)) ==> f.vol.Valid() && FreeOk(f.vol)
    ensures f.vol.reliable ==> r != INVALID
  {
    hide Core, Content, Secs, Image.Valid, Image.View, FileStep, FatStep, FatOf, CreateOutcome, Created, Kept, Exhausted, Counted;
    var v := f.vol;
    ghost var g, s, st := v.g, v.Img(), f.State();
    CoreValid(g, s, st);
    r := CreateChain(v, clst);
    if r != INVALID {
      CreateForFile(g, s, v.Img(), st, clst, idx, old(v.freeClst) == 0, r);
      if r != 0 {
        f.clust := r;
        if f.sclust == 0 { f.sclust := r; }
        f.chain := WentOn(st, clst, idx, r).chain;
        assert f.State() == WentOn(st, clst, idx, r);
      }
    }
  }

  /** No cluster could be had: none is free, or none is recorded to be. */
  ghost predicate Full(v: Volume)
    requires v.Valid()
    reads v`disk, v`winsect, v`wflag, v`writeFailed, v`freeClst, v.win
  {
    Exhausted(v.Fat(), v.freeClst)
  }

  // ---------- where the pointer is ----------

  /** The cluster changes exactly at the cluster boundaries. */
  lemma BoundaryIndex(g: Geo, p: nat)
    requires g.csize > 0 && p > 0
    ensures ClusterIndex(g, p) == ClusterIndex(g, p - 1) + if p % SS == 0 && p / SS % g.csize == 0 then 1 else 0
  {
    var k, c := p / SS, g.csize;
    if p % SS == 0 {
      assert (p - 1) / SS == k - 1;
      if k % c == 0 {
        assert k == c * (k / c);
        DivUnique(k - 1, c, k / c - 1, c - 1);
      } else {
        DivUnique(k - 1, c, k / c, k % c - 1);
      }
    } else {
      assert (p - 1) / SS == k;
    }
  }

  /** A cluster boundary is a multiple of the cluster size. */
  lemma BoundaryAt(g: Geo, p: nat)
    requires g.csize > 0 && p % SS == 0 && p / SS % g.csize == 0
    ensures p == ClusterIndex(g, p) * g.Bcs()
  {
    var k, c := p / SS, g.csize;
    assert p == SS * k && k == c * (k / c);
    Assoc(SS, c, k / c);
  }

  /** The pointer at the end of the last cluster is at the end of the file. */
  lemma AtEnd(g: Geo, s: Image, f: FileState)
    requires Core(g, s, f) && f.fptr == |f.chain| * g.Bcs()
    ensures f.objsize == f.fptr
  {
    hide FatOf, ChainOk, BufferOk, WindowOk;
    var n := |f.chain|;
    assert Capacity(g, n) * SS == n * g.Bcs() by {
      Assoc(SS, g.csize, n);
    }
  }

  /** Between boundaries the pointer's cluster is already the one the next byte goes to. */
  lemma StaysReady(g: Geo, f: FileState)
    requires g.csize > 0 && Positioned(g, f) && (f.fptr % SS != 0 || f.fptr / SS % g.csize != 0)
    ensures Ready(g, f)
  {
    BoundaryIndex(g, f.fptr);
  }

  lemma MediaAtBuffer(g: Geo, d: seq<Sector>, f: FileState)
    requires g.csize > 0 && g.nFatent >= 2 && BufferOk(g, d, f) && f.sect != 0
    ensures f.sect < |d| && Media(d, f)[f.sect] == f.buf
  {
  }

  lemma SectorsIndex(g: Geo, chain: seq<nat>, d: seq<Sector>, k: nat)
    requires g.csize > 0 && g.nFatent >= 2 && GoodChain(g, chain) && g.End() <= |d| && k < Capacity(g, |chain|)
    requires k / g.csize < |chain| && 0 <= Sec(g, chain, k) < |d|
    ensures Sectors(g, chain, d)[k] == d[Sec(g, chain, k)]
  {
  }

  lemma BufferIsSector(g: Geo, s: Image, f: FileState, k: nat)
    requires Core(g, s, f) && k / g.csize < |f.chain| && f.sect == Sec(g, f.chain, k)
    ensures k < Capacity(g, |f.chain|) && Secs(g, s, f)[k] == f.buf
  {
    hide FatOf, Sec, ChainOk, WindowOk, SizeOk, Capacity, BufferOk, Sectors, Media, ClusterOf;
    ValidSizes(g, s);
    SecIsMine(g, FatOf(g, s.View()), f, k);
    ChainIsMine(g, FatOf(g, s.View()), f);
    MediaAtBuffer(g, s.disk, f);
    SectorsIndex(g, f.chain, Media(s.disk, f), k);
  }
}
