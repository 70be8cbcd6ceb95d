/** The state of an open file and what each kind of change does to it. */
module FatFileState {
  import opened Arith
  import opened FatBase
  import opened FatVolume
  import opened FatChains
  import opened FatFileModel

  const MAXSIZE: nat := 0xFFFFFFFF

  /** Read/write pointer, its cluster, the buffered sector, size, first cluster, the buffer,
      and two ghosts: the chain of clusters, and the clusters that are the file's or free. */
  datatype FileState = FileState(
    fptr: nat, clust: nat, sect: nat, objsize: nat, sclust: nat,
    dirty: bool, buf: Sector, chain: seq<nat>, mine: set<nat>)

  // ---------- the invariant ----------

  ghost predicate ChainOk(g: Geo, fat: Fat, f: FileState) {
    && |fat| == g.nFatent
    && WellFormed(fat)
    && (if f.sclust == 0 then f.chain == [] else f.chain in Chains(fat) && |f.chain| > 0 && f.chain[0] == f.sclust)
    && GoodChain(g, f.chain)
    && (forall c :: c in f.mine <==> Cluster(fat, c) && (fat[c] == 0 || c in f.chain))
  }

  ghost predicate BufferOk(g: Geo, d: seq<Sector>, f: FileState)
    requires g.csize > 0 && g.nFatent >= 2
  {
    && g.End() <= |d|
    && (f.dirty ==> f.sect != 0)
    && (f.sect != 0 ==> g.database <= f.sect < g.End() && ClusterOf(g, f.sect) in f.mine)
    && (f.sect != 0 && !f.dirty ==> d[f.sect] == f.buf)
  }

  /** The window shows no sector of the file. */
  ghost predicate WindowOk(g: Geo, s: Image, f: FileState)
    requires g.csize > 0 && g.nFatent >= 2
  {
    g.database <= s.winsect < g.End() ==> ClusterOf(g, s.winsect) !in f.mine
  }

  ghost predicate SizeOk(g: Geo, f: FileState) {
    f.fptr <= f.objsize <= MAXSIZE && f.objsize <= Capacity(g, |f.chain|) * SS
  }

  ghost predicate Core(g: Geo, s: Image, f: FileState) {
    && s.Valid(g)
    && ChainOk(g, FatOf(g, s.View()), f)
    && BufferOk(g, s.disk, f)
    && WindowOk(g, s, f)
    && SizeOk(g, f)
  }

  /** Index in the chain of the cluster that holds byte p. */
  function ClusterIndex(g: Geo, p: nat): nat
    requires g.csize > 0
  {
    p / SS / g.csize
  }

  lemma ClusterIndexBcs(g: Geo, p: nat)
    requires g.csize > 0
    ensures p / g.Bcs() == ClusterIndex(g, p)
  {
    DivMul(p, SS, g.csize);
    assert SS * g.csize == g.csize * SS;
  }

  /** clust is the chain element at the cluster of the byte before the pointer, and
      inside a sector the buffer holds that sector. */
  ghost predicate Positioned(g: Geo, f: FileState)
    requires g.csize > 0
  {
    && (f.fptr > 0 ==> ClusterIndex(g, f.fptr - 1) < |f.chain| && f.clust == f.chain[ClusterIndex(g, f.fptr - 1)])
    && (f.fptr % SS != 0 ==> ClusterIndex(g, f.fptr) < |f.chain| && f.sect == Sec(g, f.chain, f.fptr / SS))
  }

  /** clust is the cluster the next byte goes to. */
  ghost predicate Ready(g: Geo, f: FileState)
    requires g.csize > 0
  {
    ClusterIndex(g, f.fptr) < |f.chain| && f.clust == f.chain[ClusterIndex(g, f.fptr)]
  }

  // ---------- what the file contains ----------

  /** The medium with the dirty buffer in its place. */
  ghost function Media(d: seq<Sector>, f: FileState): (r: seq<Sector>)
    ensures |r| == |d|
  {
    if f.dirty && f.sect < |d| then d[f.sect := f.buf] else d
  }

  ghost function Secs(g: Geo, s: Image, f: FileState): (r: seq<Sector>)
    requires Core(g, s, f)
    ensures |r| == Capacity(g, |f.chain|)
  {
    Sectors(g, f.chain, Media(s.disk, f))
  }

  /** The bytes of the file. */
  ghost function Content(g: Geo, s: Image, f: FileState): (r: seq<byte>)
    requires Core(g, s, f)
    ensures |r| == f.objsize
  {
    Flat(Secs(g, s, f), f.objsize)
  }

  // ---------- what other files see ----------

  ghost predicate MineSector(g: Geo, mine: set<nat>, x: int)
    requires g.csize > 0 && g.nFatent >= 2
  {
    g.database <= x < g.End() && ClusterOf(g, x) in mine
  }

  /** From s to t only the FAT and sectors of the clusters in mine were written
      (and a dirty window may have been flushed). */
  ghost predicate FileStep(g: Geo, mine: set<nat>, s: Image, t: Image)
    requires g.csize > 0 && g.nFatent >= 2
  {
    && t.Valid(g) && |t.disk| == |s.disk|
    && (forall x :: g.database <= x < |s.disk| && !MineSector(g, mine, x) && !(s.wflag && x == s.winsect) ==> t.disk[x] == s.disk[x])
    && (g.database <= t.winsect < |t.disk| ==> t.winsect == s.winsect && t.win == s.win && (t.wflag ==> s.wflag))
    && (forall x :: 0 <= x < g.database && x < |s.disk| && !InFirstFat(g, x) && !g.InMirror(x) ==> t.View()[x] == s.View()[x])
  }

  lemma FileStepStays(g: Geo, mine: set<nat>, s: Image)
    requires s.Valid(g)
    ensures FileStep(g, mine, s, s)
  {
  }

  lemma FileStepTrans(g: Geo, mine: set<nat>, s: Image, t: Image, u: Image)
    requires s.Valid(g) && FileStep(g, mine, s, t) && FileStep(g, mine, t, u)
    ensures FileStep(g, mine, s, u)
  {
  }

  lemma FatStepIsFileStep(g: Geo, mine: set<nat>, s: Image, t: Image)
    requires s.Valid(g) && FatStep(g, s, t)
    ensures FileStep(g, mine, s, t)
  {
  }

  // ---------- FAT traffic ----------

  lemma MineUntouched(g: Geo, s: Image, t: Image, f: FileState, x: int)
    requires s.Valid(g) && FatStep(g, s, t) && WindowOk(g, s, f) && MineSector(g, f.mine, x)
    ensures t.disk[x] == s.disk[x]
  {
  }

  /** Traffic through the window that leaves the table as it was changes nothing for the file. */
  lemma CoreFatStep(g: Geo, s: Image, t: Image, f: FileState)
    requires Core(g, s, f) && FatStep(g, s, t) && FatOf(g, t.View()) == FatOf(g, s.View())
    ensures Core(g, t, f) && Secs(g, t, f) == Secs(g, s, f)
  {
    hide ChainOk, FatOf, SizeOk, Sectors;
    WindowFatStep(g, s, t, f);
    BufferFatStep(g, s, t, f);
    ChainIsMine(g, FatOf(g, s.View()), f);
    MediaFatStep(g, s, t, f, f.chain);
  }

  lemma ChainIsMine(g: Geo, fat: Fat, f: FileState)
    requires ChainOk(g, fat, f)
    ensures forall c :: c in f.chain ==> c in f.mine
    ensures GoodChain(g, f.chain)
  {
    forall c | c in f.chain ensures c in f.mine {
      PathNotFree(fat, f.chain, c);
    }
  }

  lemma WindowFatStep(g: Geo, s: Image, t: Image, f: FileState)
    requires s.Valid(g) && FatStep(g, s, t) && WindowOk(g, s, f)
    ensures WindowOk(g, t, f)
  {
  }

  lemma BufferFatStep(g: Geo, s: Image, t: Image, f: FileState)
    requires s.Valid(g) && FatStep(g, s, t) && WindowOk(g, s, f) && BufferOk(g, s.disk, f)
    ensures BufferOk(g, t.disk, f)
  {
    if f.sect != 0 {
      MineUntouched(g, s, t, f, f.sect);
    }
  }

  lemma MediaFatStep(g: Geo, s: Image, t: Image, f: FileState, chain: seq<nat>)
    requires s.Valid(g) && FatStep(g, s, t) && WindowOk(g, s, f)
    requires GoodChain(g, chain) && forall c :: c in chain ==> c in f.mine
    ensures g.End() <= |s.disk| == |t.disk|
    ensures Sectors(g, chain, Media(t.disk, f)) == Sectors(g, chain, Media(s.disk, f))
  {
    forall x | g.database <= x < g.End() && ClusterOf(g, x) in chain ensures Media(t.disk, f)[x] == Media(s.disk, f)[x] {
      MineUntouched(g, s, t, f, x);
    }
    SectorsSame(g, chain, Media(t.disk, f), Media(s.disk, f));
  }

  // ---------- writing data sectors ----------

  /** The medium after a successful write of data sectors. */
  ghost function DataWritten(s: Image, x: nat, data: seq<Sector>): Image
    requires x + |data| <= |s.disk|
  {
    s.(disk := Overwritten(s.disk, x, data))
  }

  ghost predicate MineRange(g: Geo, mine: set<nat>, x: int, n: nat)
    requires g.csize > 0 && g.nFatent >= 2
  {
    forall y :: x <= y < x + n ==> MineSector(g, mine, y)
  }

  /** Writing sectors of the file keeps the volume valid and the table as it was. */
  lemma DataImage(g: Geo, s: Image, f: FileState, x: nat, data: seq<Sector>)
    requires s.Valid(g) && WindowOk(g, s, f) && MineRange(g, f.mine, x, |data|) && x + |data| <= g.End()
    requires g.database <= x
    ensures x + |data| <= |s.disk| && !(x <= s.winsect < x + |data|)
    ensures DataWritten(s, x, data).Valid(g)
    ensures FileStep(g, f.mine, s, DataWritten(s, x, data))
    ensures FatOf(g, DataWritten(s, x, data).View()) == FatOf(g, s.View())
    ensures WindowOk(g, DataWritten(s, x, data), f)
  {
    hide ClusterOf;
    assert x <= s.winsect < x + |data| ==> MineSector(g, f.mine, s.winsect);
    DataValid(g, s, x, data);
    var t := DataWritten(s, x, data);
    forall y | g.database <= y < |s.disk| && !MineSector(g, f.mine, y) ensures t.disk[y] == s.disk[y] {
      assert !(x <= y < x + |data|);
    }
  }

  /** A write to the data area that misses the window. */
  lemma DataValid(g: Geo, s: Image, x: nat, data: seq<Sector>)
    requires s.Valid(g) && g.database <= x && x + |data| <= g.End() && !(x <= s.winsect < x + |data|)
    ensures x + |data| <= |s.disk|
    ensures DataWritten(s, x, data).Valid(g)
    ensures FatOf(g, DataWritten(s, x, data).View()) == FatOf(g, s.View())
    ensures forall y :: 0 <= y < g.database ==> DataWritten(s, x, data).View()[y] == s.View()[y]
  {
    hide FatOf, Geo.Valid, Geo.End, DataWritten, Image.View;
    var t := DataWritten(s, x, data);
    ValidSizes(g, s);
    MirrorBelow(g);
    DataPlaced(s, x, data);
    DataView(s, x, data);
    assert t.Valid(g);
    SameFatSectors(g, s.View(), t.View());
  }

  lemma DataPlaced(s: Image, x: nat, data: seq<Sector>)
    requires x + |data| <= |s.disk|
    ensures var t := DataWritten(s, x, data);
            && |t.disk| == |s.disk| && t.win == s.win && t.winsect == s.winsect && t.wflag == s.wflag && t.writeFailed == s.writeFailed
            && forall y :: 0 <= y < |s.disk| && !(x <= y < x + |data|) ==> t.disk[y] == s.disk[y]
  {
  }

  lemma DataView(s: Image, x: nat, data: seq<Sector>)
    requires x + |data| <= |s.disk| && !(x <= s.winsect < x + |data|)
    ensures |DataWritten(s, x, data).View()| == |s.View()| == |s.disk|
    ensures forall y :: 0 <= y < x ==> DataWritten(s, x, data).View()[y] == s.View()[y]
  {
  }

  lemma MirrorBelow(g: Geo)
    requires g.Valid()
    ensures g.nFats == 2 ==> g.fatbase + 2 * g.fsize <= g.database
    ensures 0 < g.fatbase && g.fatbase + g.fsize <= g.database
  {
  }

  lemma SameFatSectors(g: Geo, a: seq<Sector>, b: seq<Sector>)
    requires g.Valid() && g.End() <= |a| == |b|
    requires forall y :: g.fatbase <= y < g.fatbase + g.fsize ==> a[y] == b[y]
    ensures FatOf(g, a) == FatOf(g, b)
  {
    assert FatImage(g, a) == FatImage(g, b);
  }

  lemma FailedImage(g: Geo, s: Image, f: FileState)
    requires Core(g, s, f)
    ensures Core(g, s.(writeFailed := true), f) && FileStep(g, f.mine, s, s.(writeFailed := true))
    ensures Secs(g, s.(writeFailed := true), f) == Secs(g, s, f)
    ensures FatOf(g, s.(writeFailed := true).View()) == FatOf(g, s.View())
  {
    hide ChainOk, FatOf;
    assert s.(writeFailed := true).View() == s.View();
  }

  // ---------- the sector buffer ----------

  /** The dirty buffer reaches its sector. */
  lemma CoreFlush(g: Geo, s: Image, f: FileState)
    requires Core(g, s, f) && f.dirty
    ensures g.database <= f.sect < |s.disk| && !(s.winsect == f.sect)
    ensures var t := DataWritten(s, f.sect, [f.buf]);
            Core(g, t, f.(dirty := false)) && Secs(g, t, f.(dirty := false)) == Secs(g, s, f)
            && FileStep(g, f.mine, s, t) && FatOf(g, t.View()) == FatOf(g, s.View())
  {
    hide ChainOk, FatOf, FileStep, Image.Valid;
    assert MineRange(g, f.mine, f.sect, 1);
    ValidSizes(g, s);
    DataImage(g, s, f, f.sect, [f.buf]);
    OverwrittenOne(s.disk, f.sect, f.buf);
    var t := DataWritten(s, f.sect, [f.buf]);
    assert Media(t.disk, f.(dirty := false)) == Media(s.disk, f);
    ChainFlags(g, FatOf(g, s.View()), f, f.(dirty := false));
  }

  /** The table sees nothing of the buffer and of the pointer. */
  lemma ChainFlags(g: Geo, fat: Fat, f: FileState, h: FileState)
    requires ChainOk(g, fat, f) && h.sclust == f.sclust && h.chain == f.chain && h.mine == f.mine
    ensures ChainOk(g, fat, h)
  {
  }

  /** A clean buffer is filled with a sector of the file. */
  lemma CoreLoad(g: Geo, s: Image, f: FileState, x: nat)
    requires Core(g, s, f) && !f.dirty && MineSector(g, f.mine, x)
    ensures x < |s.disk|
    ensures Core(g, s, f.(sect := x, buf := s.disk[x])) && Secs(g, s, f.(sect := x, buf := s.disk[x])) == Secs(g, s, f)
  {
    hide FatOf;
    ChainFlags(g, FatOf(g, s.View()), f, f.(sect := x, buf := s.disk[x]));
  }

  /** The sectors of the chain belong to the file. */
  lemma SecIsMine(g: Geo, fat: Fat, f: FileState, k: nat)
    requires g.Valid() && ChainOk(g, fat, f) && k / g.csize < |f.chain|
    ensures MineSector(g, f.mine, Sec(g, f.chain, k)) && 0 < Sec(g, f.chain, k) < g.End()
    ensures k < Capacity(g, |f.chain|)
  {
    hide WellFormed, Sec, ClusterOf, Capacity, Chains;
    ChainIsMine(g, fat, f);
    SecRange(g, f.chain, k);
    SecCluster(g, f.chain, k);
    IndexInChain(g, f.chain, k);
    assert f.chain[k / g.csize] in f.chain;
  }

  lemma RangeIsMine(g: Geo, fat: Fat, f: FileState, k: nat, n: nat)
    requires g.Valid() && ChainOk(g, fat, f) && k / g.csize < |f.chain| && 0 < n && k % g.csize + n <= g.csize
    ensures MineRange(g, f.mine, Sec(g, f.chain, k), n) && g.database <= Sec(g, f.chain, k)
    ensures Sec(g, f.chain, k) + n <= g.End() && k + n <= Capacity(g, |f.chain|)
  {
    hide ChainOk, Sec, ClusterOf, Capacity;
    var x := Sec(g, f.chain, k);
    forall y | x <= y < x + n ensures MineSector(g, f.mine, y) {
      SecConsecutive(g, f.chain, k, y - x);
      SecIsMine(g, fat, f, k + (y - x));
    }
    SecIsMine(g, fat, f, k);
    SecConsecutive(g, f.chain, k, n - 1);
    SecIsMine(g, fat, f, k + n - 1);
  }

  /** The buffer takes the k-th sector's place with new content. */
  ghost function Buffered(f: FileState, x: nat, b: Sector): FileState {
    f.(sect := x, buf := b, dirty := true)
  }

  lemma CoreBuffered(g: Geo, s: Image, f: FileState, k: nat, b: Sector)
    requires Core(g, s, f) && k / g.csize < |f.chain|
    requires f.dirty ==> f.sect == Sec(g, f.chain, k)
    ensures k < Capacity(g, |f.chain|) && Sec(g, f.chain, k) > 0
    ensures var h := Buffered(f, Sec(g, f.chain, k), b); Core(g, s, h) && Secs(g, s, h) == Secs(g, s, f)[k := b]
  {
    hide FatOf, Sectors, WellFormed, Image.Valid, Sec, ClusterOf;
    ValidSizes(g, s);
    SecIsMine(g, FatOf(g, s.View()), f, k);
    var x := Sec(g, f.chain, k);
    var h := Buffered(f, x, b);
    ChainFlags(g, FatOf(g, s.View()), f, h);
    BufferedSecs(g, s, f, k, b);
  }

  lemma BufferedSecs(g: Geo, s: Image, f: FileState, k: nat, b: Sector)
    requires Core(g, s, f) && k / g.csize < |f.chain| && k < Capacity(g, |f.chain|)
    requires f.dirty ==> f.sect == Sec(g, f.chain, k)
    requires 0 < Sec(g, f.chain, k) < |s.disk| && GoodChain(g, f.chain)
    ensures Sectors(g, f.chain, Media(s.disk, Buffered(f, Sec(g, f.chain, k), b)))
         == Sectors(g, f.chain, Media(s.disk, f))[k := b]
  {
    hide FatOf, Sectors, ChainOk, BufferOk, WindowOk, Image.Valid, Sec, SizeOk, Capacity;
    ValidSizes(g, s);
    var x := Sec(g, f.chain, k);
    var d, e := Media(s.disk, f), Media(s.disk, Buffered(f, x, b));
    assert e == d[x := b];
    SectorsWritten(g, f.chain, d, e, k, [b]);
    var secs := Sectors(g, f.chain, d);
    assert secs[..k] + [b] + secs[k + 1..] == secs[k := b];
  }

  // ---------- moving the pointer ----------

  /** The pointer moves on by n bytes, taking the end of the file with it. */
  ghost function Moved(f: FileState, n: nat): FileState {
    f.(fptr := f.fptr + n, objsize := if f.fptr + n > f.objsize then f.fptr + n else f.objsize)
  }

  lemma CoreMoved(g: Geo, s: Image, f: FileState, n: nat)
    requires Core(g, s, f) && f.fptr + n <= MAXSIZE && f.fptr + n <= Capacity(g, |f.chain|) * SS
    ensures Core(g, s, Moved(f, n)) && Secs(g, s, Moved(f, n)) == Secs(g, s, f)
  {
    hide FatOf;
    ChainFlags(g, FatOf(g, s.View()), f, Moved(f, n));
  }

  /** Around the n bytes at the pointer, b agrees with the sector c as far as the file reaches. */
  ghost predicate KeepsRest(f: FileState, n: nat, b: Sector, c: Sector) {
    forall i :: 0 <= i < SS && !(f.fptr % SS <= i < f.fptr % SS + n) && f.fptr / SS * SS + i < f.objsize ==> b[i] == c[i]
  }

  /** Part of the sector at the pointer is replaced in the buffer: the bytes are patched. */
  lemma CoreChunk(g: Geo, s: Image, f: FileState, b: Sector, chunk: seq<byte>)
    requires Core(g, s, f) && Ready(g, f)
    requires f.dirty ==> f.sect == Sec(g, f.chain, f.fptr / SS)
    requires f.fptr % SS + |chunk| <= SS && f.fptr + |chunk| <= MAXSIZE && |chunk| > 0
    requires f.fptr / SS < Capacity(g, |f.chain|)
    requires forall i :: 0 <= i < |chunk| ==> b[f.fptr % SS + i] == chunk[i]
    requires KeepsRest(f, |chunk|, b, Secs(g, s, f)[f.fptr / SS])
    ensures Sec(g, f.chain, f.fptr / SS) > 0
    ensures var h := Moved(Buffered(f, Sec(g, f.chain, f.fptr / SS), b), |chunk|);
            Core(g, s, h) && Content(g, s, h) == Patched(Content(g, s, f), f.fptr, chunk) && Positioned(g, h)
  {
    hide FatOf, Sectors, ChainOk, WellFormed, Image.Valid, BufferOk, WindowOk, Flat;
    var k := f.fptr / SS;
    var x := Sec(g, f.chain, k);
    CoreBuffered(g, s, f, k, b);
    var h1 := Buffered(f, x, b);
    FlatPatch(Secs(g, s, f), Secs(g, s, h1), f.objsize, f.fptr, chunk);
    CoreMoved(g, s, h1, |chunk|);
    ChunkPosition(g, f, |chunk|);
  }

  /** Where the pointer is after part of a sector. */
  lemma ChunkPosition(g: Geo, f: FileState, n: nat)
    requires g.csize > 0 && f.fptr % SS + n <= SS && n > 0
    ensures ClusterIndex(g, f.fptr + n - 1) == ClusterIndex(g, f.fptr)
    ensures (f.fptr + n) % SS != 0 ==> (f.fptr + n) / SS == f.fptr / SS
    ensures f.fptr + n <= (f.fptr / SS + 1) * SS
  {
    assert (f.fptr + n - 1) / SS == f.fptr / SS;
  }

  // ---------- whole sectors, past the buffer ----------

  /** After a direct write the clean buffer, if it shows one of the sectors, is refilled from the data. */
  ghost function Refilled(f: FileState, x: nat, data: seq<Sector>): FileState {
    if x <= f.sect < x + |data| then f.(buf := data[f.sect - x]) else f
  }

  lemma OverwrittenAt(d: seq<Sector>, x: nat, data: seq<Sector>, y: nat)
    requires x + |data| <= |d| && y < |d|
    ensures Overwritten(d, x, data)[y] == if x <= y < x + |data| then data[y - x] else d[y]
  {
  }

  lemma RefilledBuffer(g: Geo, d: seq<Sector>, e: seq<Sector>, f: FileState, x: nat, data: seq<Sector>)
    requires g.csize > 0 && g.nFatent >= 2 && BufferOk(g, d, f) && !f.dirty && |d| == |e|
    requires forall y :: 0 <= y < |d| ==> e[y] == if x <= y < x + |data| then data[y - x] else d[y]
    ensures BufferOk(g, e, Refilled(f, x, data))
  {
  }

  lemma SizeFlags(g: Geo, f: FileState, h: FileState)
    requires SizeOk(g, f) && h.fptr == f.fptr && h.objsize == f.objsize && h.chain == f.chain
    ensures SizeOk(g, h)
  {
  }

  lemma CoreDirect(g: Geo, s: Image, f: FileState, k: nat, data: seq<Sector>)
    requires Core(g, s, f) && !f.dirty && k / g.csize < |f.chain| && 0 < |data| && k % g.csize + |data| <= g.csize
    ensures Sec(g, f.chain, k) > 0 && Sec(g, f.chain, k) + |data| <= |s.disk| && k + |data| <= Capacity(g, |f.chain|)
    ensures !(Sec(g, f.chain, k) <= s.winsect < Sec(g, f.chain, k) + |data|) && g.database <= Sec(g, f.chain, k)
    ensures var t, h := DataWritten(s, Sec(g, f.chain, k), data), Refilled(f, Sec(g, f.chain, k), data);
            && Core(g, t, h) && FileStep(g, f.mine, s, t) && FatOf(g, t.View()) == FatOf(g, s.View())
            && Secs(g, t, h) == Secs(g, s, f)[..k] + data + Secs(g, s, f)[k + |data|..]
  {
    hide FatOf, Sectors, WellFormed, Image.Valid, Sec, ClusterOf, FileStep, Capacity, MineRange, Overwritten, ChainOk, SizeOk;
    ValidSizes(g, s);
    SecIsMine(g, FatOf(g, s.View()), f, k);
    RangeIsMine(g, FatOf(g, s.View()), f, k, |data|);
    var x := Sec(g, f.chain, k);
    DataImage(g, s, f, x, data);
    var t, h := DataWritten(s, x, data), Refilled(f, x, data);
    ChainFlags(g, FatOf(g, s.View()), f, h);
    ChainIsMine(g, FatOf(g, s.View()), f);
    forall y | 0 <= y < |s.disk| ensures t.disk[y] == if x <= y < x + |data| then data[y - x] else s.disk[y] {
      OverwrittenAt(s.disk, x, data, y);
    }
    RefilledBuffer(g, s.disk, t.disk, f, x, data);
    SizeFlags(g, f, h);
    SectorsWritten(g, f.chain, s.disk, t.disk, k, data);
  }

  /** The pointer is at a sector boundary; whole sectors are written: the bytes are patched. */
  lemma DirectBytes(g: Geo, s: Image, f: FileState, data: seq<Sector>)
    requires Core(g, s, f) && !f.dirty && Ready(g, f) && f.fptr % SS == 0
    requires 0 < |data| && f.fptr / SS % g.csize + |data| <= g.csize && f.fptr + |data| * SS <= MAXSIZE
    ensures Sec(g, f.chain, f.fptr / SS) > 0 && Sec(g, f.chain, f.fptr / SS) + |data| <= |s.disk|
    ensures var x := Sec(g, f.chain, f.fptr / SS);
            var t, h := DataWritten(s, x, data), Moved(Refilled(f, x, data), |data| * SS);
            Core(g, t, h) && Content(g, t, h) == Patched(Content(g, s, f), f.fptr, Join(data)) && Positioned(g, h)
  {
    hide FatOf, Sectors, ChainOk, Image.Valid, Sec, ClusterOf, Capacity, BufferOk, WindowOk, Flat, Join, Patched;
    ValidSizes(g, s);
    var k := f.fptr / SS;
    CoreDirect(g, s, f, k, data);
    var x := Sec(g, f.chain, k);
    var t, h1 := DataWritten(s, x, data), Refilled(f, x, data);
    CoreMoved(g, t, h1, |data| * SS);
    FlatReplace(Secs(g, s, f), k, data, f.objsize);
    PatchedSize(Content(g, s, f), f.fptr, Join(data));
    DirectPosition(g, f, |data|);
  }

  lemma PatchedSize(a: seq<byte>, p: nat, data: seq<byte>)
    requires p <= |a|
    ensures |Patched(a, p, data)| == if p + |data| > |a| then p + |data| else |a|
  {
  }

  lemma DirectPosition(g: Geo, f: FileState, n: nat)
    requires g.csize > 0 && f.fptr % SS == 0 && n > 0 && f.fptr / SS % g.csize + n <= g.csize
    ensures ClusterIndex(g, f.fptr + n * SS - 1) == ClusterIndex(g, f.fptr) && (f.fptr + n * SS) % SS == 0
  {
    var k := f.fptr / SS;
    assert (f.fptr + n * SS - 1) / SS == k + n - 1;
    DivUnique(k + n - 1, g.csize, k / g.csize, k % g.csize + n - 1);
  }

  /** What a direct read delivers once the dirty buffer is laid over it. */
  lemma DirectRead(g: Geo, s: Image, f: FileState, k: nat, n: nat)
    requires Core(g, s, f) && k / g.csize < |f.chain| && 0 < n && k % g.csize + n <= g.csize
    ensures k + n <= Capacity(g, |f.chain|) && Sec(g, f.chain, k) > 0 && Sec(g, f.chain, k) + n <= |s.disk|
    ensures Media(s.disk, f)[Sec(g, f.chain, k)..Sec(g, f.chain, k) + n] == Secs(g, s, f)[k..k + n]
  {
    hide FatOf, WellFormed, Image.Valid, Sec, ClusterOf, Capacity, MineRange, ChainOk, BufferOk, WindowOk;
    ValidSizes(g, s);
    ChainIsMine(g, FatOf(g, s.View()), f);
    SecIsMine(g, FatOf(g, s.View()), f, k);
    RangeIsMine(g, FatOf(g, s.View()), f, k, n);
    var x := Sec(g, f.chain, k);
    var l, r := Media(s.disk, f)[x..x + n], Secs(g, s, f)[k..k + n];
    forall i | 0 <= i < n ensures l[i] == r[i] {
      SecConsecutive(g, f.chain, k, i);
      assert r[i] == SectorAt(g, f.chain, Media(s.disk, f), k + i);
    }
  }

  // ---------- growing and cutting the chain ----------

  /** The file takes one more cluster. */
  ghost function Grown(f: FileState, r: nat): FileState {
    f.(chain := f.chain + [r], sclust := if f.sclust == 0 then r else f.sclust, clust := r)
  }

  lemma GrownChain(g: Geo, a: Fat, b: Fat, f: FileState, r: nat)
    requires ChainOk(g, a, f) && Cluster(a, r) && a[r] == 0 && |a| == |b| && WellFormed(b)
    requires if f.chain == [] then Chains(b) == Chains(a) + iset{[r]} else Chains(b) == Chains(a) - iset{f.chain} + iset{f.chain + [r]}
    requires forall c :: Cluster(a, c) ==> (b[c] == 0 <==> a[c] == 0 && c != r)
    ensures ChainOk(g, b, Grown(f, r))
    ensures Chains(b) - iset{Grown(f, r).chain} == Chains(a) - iset{f.chain}
  {
    hide WellFormed, Chains;
    var h := Grown(f, r);
    assert f.chain == [] ==> h.chain == [r];
    ChainsArePaths(b, h.chain);
    PathIsGood(g, b, h.chain);
    GrownMine(g, a, b, f, r);
    assert (f.chain + [r])[|f.chain|] == r;
    FreeNotInChain(a, f.chain + [r], r);
    if f.chain == [] {
      assert [r] == f.chain + [r];
      EmptyNotChain(a);
    }
  }

  lemma GrownMine(g: Geo, a: Fat, b: Fat, f: FileState, r: nat)
    requires ChainOk(g, a, f) && Cluster(a, r) && a[r] == 0 && |a| == |b|
    requires forall c :: Cluster(a, c) ==> (b[c] == 0 <==> a[c] == 0 && c != r)
    ensures forall c :: c in f.mine <==> Cluster(b, c) && (b[c] == 0 || c in f.chain + [r])
  {
    hide WellFormed, Chains;
    assert forall c :: c in f.chain + [r] <==> c in f.chain || c == r;
  }

  /** The clusters of a file are clusters of the volume. */
  lemma MemberRange(g: Geo, s: Image, f: FileState, idx: nat)
    requires Core(g, s, f) && idx < |f.chain|
    ensures 2 <= f.chain[idx] < g.nFatent < INVALID
  {
    hide FatOf, BufferOk, WindowOk, SizeOk, WellFormed, Chains;
  }

  lemma ChainsArePaths(a: Fat, s: seq<nat>)
    requires s in Chains(a)
    ensures Path(a, s)
  {
  }

  lemma EmptyNotChain(a: Fat)
    ensures [] !in Chains(a)
  {
  }

  lemma FreeNotInChain(a: Fat, s: seq<nat>, r: nat)
    requires Cluster(a, r) && a[r] == 0 && r in s
    ensures s !in Chains(a)
  {
    if s in Chains(a) {
      PathNotFree(a, s, r);
    }
  }

  /** The image before and after the allocation, the file before and after. */
  lemma CoreGrown(g: Geo, s: Image, t: Image, f: FileState, r: nat)
    requires Core(g, s, f) && FatStep(g, s, t)
    requires ChainOk(g, FatOf(g, t.View()), Grown(f, r)) && r in f.mine
    ensures Core(g, t, Grown(f, r)) && Content(g, t, Grown(f, r)) == Content(g, s, f)
    ensures Secs(g, s, f) <= Secs(g, t, Grown(f, r))
  {
    hide FatOf, Sectors, WellFormed, Image.Valid, ClusterOf, Capacity, FatStep;
    var h := Grown(f, r);
    ValidSizes(g, s);
    FatStepValid(g, s, t);
    ValidSizes(g, t);
    WindowFatStep(g, s, t, f);
    BufferFatStep(g, s, t, f);
    ChainIsMine(g, FatOf(g, s.View()), f);
    MediaFatStep(g, s, t, f, f.chain);
    SectorsGrow(g, f.chain, h.chain, Media(t.disk, f));
    FlatPrefix(Secs(g, s, f), Sectors(g, h.chain, Media(t.disk, f)), f.objsize);
  }

  lemma FatStepValid(g: Geo, s: Image, t: Image)
    requires FatStep(g, s, t)
    ensures t.Valid(g)
  {
  }

  lemma FlatPrefix(a: seq<Sector>, b: seq<Sector>, n: nat)
    requires a <= b && n <= |a| * SS
    ensures Flat(a, n) == Flat(b, n)
  {
  }

  /** The file keeps the first m clusters and is cut at the pointer. */
  ghost function Shortened(f: FileState, m: nat): FileState
    requires m <= |f.chain|
  {
    f.(chain := f.chain[..m], sclust := if m == 0 then 0 else f.sclust, objsize := f.fptr)
  }

  lemma ShortenedChain(g: Geo, a: Fat, b: Fat, f: FileState, m: nat)
    requires ChainOk(g, a, f) && m < |f.chain| && |a| == |b| && WellFormed(b)
    requires if m == 0 then Chains(b) == Chains(a) - iset{f.chain} else Chains(b) == Chains(a) - iset{f.chain} + iset{f.chain[..m]}
    requires forall c :: Cluster(a, c) ==> (b[c] == 0 <==> a[c] == 0 || c in f.chain[m..])
    ensures ChainOk(g, b, Shortened(f, m))
    ensures Chains(b) - iset{Shortened(f, m).chain} == Chains(a) - iset{f.chain}
  {
    hide WellFormed, Chains;
    var h := Shortened(f, m);
    ChainsArePaths(a, f.chain);
    if m != 0 {
      ChainsArePaths(b, h.chain);
      PathIsGood(g, b, h.chain);
      PrefixNotChain(a, f.chain, m);
    } else {
      EmptyNotChain(a);
      EmptyNotChain(b);
    }
    ShortenedMine(g, a, b, f, m);
  }

  lemma ShortenedMine(g: Geo, a: Fat, b: Fat, f: FileState, m: nat)
    requires ChainOk(g, a, f) && m < |f.chain| && |a| == |b| && Path(a, f.chain)
    requires forall c :: Cluster(a, c) ==> (b[c] == 0 <==> a[c] == 0 || c in f.chain[m..])
    ensures forall c :: c in f.mine <==> Cluster(b, c) && (b[c] == 0 || c in f.chain[..m])
  {
    hide WellFormed, Chains, Path;
    assert f.chain == f.chain[..m] + f.chain[m..];
    assert forall c :: c in f.chain <==> c in f.chain[..m] || c in f.chain[m..];
    forall c | c in f.chain ensures Cluster(a, c) && a[c] != 0 {
      PathNotFree(a, f.chain, c);
    }
  }

  lemma PrefixNotChain(a: Fat, chain: seq<nat>, m: nat)
    requires Path(a, chain) && 0 < m < |chain|
    ensures chain[..m] !in Chains(a)
  {
    PathLink(a, chain, m - 1);
    assert chain[..m][m - 1] == chain[m - 1];
  }

  lemma CoreShortened(g: Geo, s: Image, t: Image, f: FileState, m: nat)
    requires Core(g, s, f) && FatStep(g, s, t) && m <= |f.chain| && f.fptr <= Capacity(g, m) * SS
    requires ChainOk(g, FatOf(g, t.View()), Shortened(f, m))
    ensures Core(g, t, Shortened(f, m)) && Content(g, t, Shortened(f, m)) == Content(g, s, f)[..f.fptr]
  {
    hide FatOf, Sectors, WellFormed, Image.Valid, ClusterOf, Capacity, FatStep;
    var h := Shortened(f, m);
    ValidSizes(g, s);
    FatStepValid(g, s, t);
    ValidSizes(g, t);
    WindowFatStep(g, s, t, f);
    BufferFatStep(g, s, t, f);
    ChainIsMine(g, FatOf(g, s.View()), f);
    MediaFatStep(g, s, t, f, f.chain);
    SectorsGrow(g, h.chain, f.chain, Media(t.disk, f));
    FlatPrefix(Sectors(g, h.chain, Media(t.disk, f)), Secs(g, s, f), f.fptr);
    FlatShorter(Secs(g, s, f), f.objsize, f.fptr);
  }

  lemma FlatShorter(a: seq<Sector>, n: nat, m: nat)
    requires m <= n <= |a| * SS
    ensures Flat(a, n)[..m] == Flat(a, m)
  {
  }
}
