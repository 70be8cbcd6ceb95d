/** Where the table of a directory lies on a volume, and which entries it holds. */
module FatDirModel {
  import opened Arith
  import opened FatBase
  import opened FatVolume
  import opened FatChains
  import opened FatAlloc
  import opened FatFileModel
  import opened FatFileState
  import FatFile
  import FatDirectory
  import FatLongName

  type entry = FatLongName.entry

  /** MAX_DIR / SZDIRE. */
  const LIMIT: nat := 0x1_0000

  /** The root directory of FAT12 and FAT16 has sectors of its own, all others have clusters. */
  datatype Home = Fixed(first: nat, count: nat) | Clusters(chain: seq<nat>)

  ghost predicate HomeOk(g: Geo, fat: Fat, h: Home) {
    && |fat| == g.nFatent && WellFormed(fat)
    && match h
       case Fixed(first, count) => 0 < count && g.fatbase + g.nFats * g.fsize <= first && first + count <= g.database
       case Clusters(chain) => chain in Chains(fat) && |chain| > 0 && GoodChain(g, chain)
  }

  function SectorCount(g: Geo, h: Home): nat {
    match h case Fixed(_, count) => count case Clusters(chain) => Capacity(g, |chain|)
  }

  /** The k-th sector of the table. */
  ghost function SectorNo(g: Geo, h: Home, k: nat): int
    requires g.csize > 0 && k < SectorCount(g, h)
  {
    match h
    case Fixed(first, _) => first + k
    case Clusters(chain) =>
      IndexInChain(g, chain, k);
      Sec(g, chain, k)
  }

  /** The sectors that belong to the table. */
  ghost predicate Owns(g: Geo, h: Home, x: int)
    requires g.csize > 0 && g.nFatent >= 2
  {
    match h
    case Fixed(first, count) => first <= x < first + count
    case Clusters(chain) => g.database <= x < g.End() && ClusterOf(g, x) in chain
  }

  lemma SectorOwned(g: Geo, fat: Fat, h: Home, k: nat)
    requires g.Valid() && HomeOk(g, fat, h) && k < SectorCount(g, h)
    ensures Owns(g, h, SectorNo(g, h, k)) && 0 < SectorNo(g, h, k) < g.End()
    ensures g.fatbase + g.nFats * g.fsize <= SectorNo(g, h, k)
  {
    hide WellFormed, Chains, ClusterOf, Sec;
    match h
    case Fixed(first, count) => DataEnd(g);
    case Clusters(chain) =>
      IndexInChain(g, chain, k);
      SecRange(g, chain, k);
      SecCluster(g, chain, k);
      assert chain[k / g.csize] in chain;
      DataEnd(g);
  }

  lemma DataEnd(g: Geo)
    requires g.Valid()
    ensures 0 < g.fatbase + g.nFats * g.fsize <= g.database <= g.End() <= INVALID
  {
    MulNat(g.csize, g.nFatent - 2);
    MulNat(g.nFats, g.fsize);
  }

  /** No sector behind the FATs is one of theirs. */
  lemma BehindFats(g: Geo, x: int)
    requires g.Valid() && g.fatbase + g.nFats * g.fsize <= x
    ensures !InFirstFat(g, if x < 0 then 0 else x) && (x >= 0 ==> !g.InMirror(x))
  {
  }

  /** The sectors of the table as the volume shows them. */
  ghost function TableSectors(g: Geo, fat: Fat, h: Home, view: seq<Sector>): (r: seq<Sector>)
    requires g.Valid() && HomeOk(g, fat, h) && g.End() <= |view|
    ensures |r| == SectorCount(g, h)
  {
    seq(SectorCount(g, h), k requires 0 <= k < SectorCount(g, h) => TableSector(g, fat, h, view, k))
  }

  ghost function TableSector(g: Geo, fat: Fat, h: Home, view: seq<Sector>, k: nat): Sector
    requires g.Valid() && HomeOk(g, fat, h) && g.End() <= |view| && k < SectorCount(g, h)
  {
    SectorOwned(g, fat, h, k);
    view[SectorNo(g, h, k)]
  }

  /** Entry j of a sector. */
  function EntryOf(s: Sector, j: nat): entry
    requires j < 16
  {
    s[j * 32..j * 32 + 32]
  }

  /** The number of entries that are ever looked at. */
  function EntryCount(sectors: nat): nat {
    if sectors * 16 < LIMIT then sectors * 16 else LIMIT
  }

  ghost function EntriesOf(secs: seq<Sector>): (r: seq<entry>)
    ensures |r| == EntryCount(|secs|)
  {
    seq(EntryCount(|secs|), i requires 0 <= i < EntryCount(|secs|) => EntryOf(secs[i / 16], i % 16))
  }

  ghost function TableOf(g: Geo, fat: Fat, h: Home, view: seq<Sector>): (r: seq<entry>)
    requires g.Valid() && HomeOk(g, fat, h) && g.End() <= |view|
    ensures |r| == EntryCount(SectorCount(g, h))
  {
    EntriesOf(TableSectors(g, fat, h, view))
  }

  // ---------- what leaves the table alone ----------

  lemma TableSame(g: Geo, fat: Fat, fat': Fat, h: Home, a: seq<Sector>, b: seq<Sector>)
    requires g.Valid() && HomeOk(g, fat, h) && HomeOk(g, fat', h) && g.End() <= |a| && g.End() <= |b|
    requires forall x :: 0 <= x < g.End() && Owns(g, h, x) ==> a[x] == b[x]
    ensures TableOf(g, fat, h, a) == TableOf(g, fat', h, b)
  {
    hide Owns, SectorNo, HomeOk;
    forall k | 0 <= k < SectorCount(g, h) ensures TableSector(g, fat, h, a, k) == TableSector(g, fat', h, b, k) {
      SectorOwned(g, fat, h, k);
    }
    assert TableSectors(g, fat, h, a) == TableSectors(g, fat', h, b);
  }

  /** From a to b only the FATs may have changed in what the volume shows, and not what they stand for. */
  ghost predicate Undisturbed(g: Geo, a: Image, b: Image) {
    && a.Valid(g) && b.Valid(g) && |a.View()| == |b.View()| && g.Valid() && g.End() <= |a.View()|
    && SameOutsideFat(g, a.View(), b.View()) && FatOf(g, a.View()) == FatOf(g, b.View())
  }

  lemma UndisturbedTrans(g: Geo, a: Image, b: Image, c: Image)
    requires Undisturbed(g, a, b) && Undisturbed(g, b, c)
    ensures Undisturbed(g, a, c)
  {
    hide FatOf, Image.Valid, Image.View;
  }

  lemma UndisturbedStays(g: Geo, a: Image)
    requires a.Valid(g)
    ensures Undisturbed(g, a, a)
  {
    hide FatOf;
    ValidSizes(g, a);
    DataEnd(g);
  }

  /** Moving the window leaves everything in place. */
  lemma CoherentUndisturbed(g: Geo, a: Image, b: Image)
    requires a.Valid(g) && Coherent(g, a, b)
    ensures Undisturbed(g, a, b)
    ensures b.Valid(g) && g.Valid() && g.End() <= |a.View()| == |b.View()| && FatOf(g, b.View()) == FatOf(g, a.View())
  {
    hide FatOf;
    ValidSizes(g, a);
    ValidSizes(g, b);
    DataEnd(g);
    SamePrimaryFat(g, a.View(), b.View());
  }

  lemma FatStepUndisturbed(g: Geo, a: Image, b: Image)
    requires a.Valid(g) && FatStep(g, a, b) && b.Valid(g) && g.Valid() && g.End() <= |a.View()| && g.End() <= |b.View()|
    requires FatOf(g, b.View()) == FatOf(g, a.View())
    ensures Undisturbed(g, a, b)
  {
    hide FatOf, Image.Valid, Image.View;
  }

  /** Sectors of the table show the same. */
  lemma OwnedSame(g: Geo, fat: Fat, h: Home, a: seq<Sector>, b: seq<Sector>)
    requires g.Valid() && HomeOk(g, fat, h) && g.End() <= |a| && SameOutsideFat(g, a, b)
    ensures forall x :: 0 <= x < g.End() && Owns(g, h, x) ==> a[x] == b[x]
  {
    hide WellFormed, Chains, ClusterOf;
    DataEnd(g);
    forall x | 0 <= x < g.End() && Owns(g, h, x) ensures a[x] == b[x] {
      assert g.fatbase + g.nFats * g.fsize <= x;
      BehindFats(g, x);
    }
  }

  lemma UndisturbedTable(g: Geo, h: Home, a: Image, b: Image)
    requires Undisturbed(g, a, b) && HomeOk(g, FatOf(g, a.View()), h)
    ensures TableOf(g, FatOf(g, b.View()), h, b.View()) == TableOf(g, FatOf(g, a.View()), h, a.View())
  {
    hide FatOf, Image.Valid, Image.View, HomeOk, Owns, SameOutsideFat;
    OwnedSame(g, FatOf(g, a.View()), h, a.View(), b.View());
    TableSame(g, FatOf(g, a.View()), FatOf(g, b.View()), h, a.View(), b.View());
  }

  // ---------- writing an entry ----------

  /** The window, which is over a sector behind the FATs, gets new content and becomes dirty. */
  ghost function Dirtied(s: Image, w: Sector): Image {
    s.(win := w, wflag := true)
  }

  lemma DirtiedImage(g: Geo, s: Image, w: Sector)
    requires s.Valid(g) && g.fatbase + g.nFats * g.fsize <= s.winsect < |s.disk|
    ensures var t := Dirtied(s, w);
            && t.Valid(g) && t.View() == s.View()[s.winsect := w] && |s.View()| == |s.disk|
            && FatOf(g, t.View()) == FatOf(g, s.View())
  {
    hide FatOf;
    var t := Dirtied(s, w);
    ValidSizes(g, s);
    BehindFats(g, s.winsect);
    assert t.View() == s.View()[s.winsect := w];
    FatsSame(g, s.View(), t.View());
  }

  lemma FatsSame(g: Geo, a: seq<Sector>, b: seq<Sector>)
    requires g.Valid() && g.End() <= |a| == |b| && forall i :: g.fatbase <= i < g.fatbase + g.nFats * g.fsize ==> a[i] == b[i]
    ensures FatOf(g, a) == FatOf(g, b)
  {
    FatLast(g);
    DataEnd(g);
    assert FatImage(g, a) == FatImage(g, b);
  }

  lemma FatLast(g: Geo)
    requires g.Valid()
    ensures g.fsize <= g.nFats * g.fsize
  {
  }

  /** Different sectors of the table are different sectors of the volume. */
  lemma SectorsApart(g: Geo, fat: Fat, h: Home, k: nat, l: nat)
    requires g.Valid() && HomeOk(g, fat, h) && k < SectorCount(g, h) && l < SectorCount(g, h) && SectorNo(g, h, k) == SectorNo(g, h, l)
    ensures k == l
  {
    hide WellFormed, Chains, Sec;
    if h.Clusters? {
      IndexInChain(g, h.chain, k);
      IndexInChain(g, h.chain, l);
      SecInjective(g, h.chain, k, l);
    }
  }

  /** A sector with one entry replaced. */
  function WithEntry(s: Sector, j: nat, d: entry): Sector
    requires j < 16
  {
    s[..j * 32] + d + s[j * 32 + 32..]
  }

  lemma WithEntryAt(s: Sector, j: nat, d: entry, l: nat)
    requires j < 16 && l < 16
    ensures EntryOf(WithEntry(s, j, d), l) == if l == j then d else EntryOf(s, l)
  {
  }

  lemma EntryReplaced(g: Geo, fat: Fat, fat': Fat, h: Home, a: seq<Sector>, b: seq<Sector>, i: nat, d: entry)
    requires g.Valid() && HomeOk(g, fat, h) && HomeOk(g, fat', h) && g.End() <= |a| && i < |TableOf(g, fat, h, a)|
    requires i / 16 < SectorCount(g, h) && 0 <= SectorNo(g, h, i / 16) < |a|
    requires var x := SectorNo(g, h, i / 16); b == a[x := WithEntry(a[x], i % 16, d)]
    ensures TableOf(g, fat', h, b) == TableOf(g, fat, h, a)[i := d]
  {
    hide HomeOk, SectorNo, WithEntry, EntryOf;
    var t, u := TableOf(g, fat, h, a), TableOf(g, fat', h, b);
    forall l | 0 <= l < |t| ensures u[l] == t[i := d][l] {
      assert l / 16 < SectorCount(g, h);
      SectorOwned(g, fat, h, l / 16);
      if SectorNo(g, h, l / 16) == SectorNo(g, h, i / 16) {
        SectorsApart(g, fat, h, l / 16, i / 16);
        WithEntryAt(a[SectorNo(g, h, i / 16)], i % 16, d, l % 16);
        assert l == 16 * (l / 16) + l % 16 && i == 16 * (i / 16) + i % 16;
      }
    }
  }

  // ---------- positions ----------

  /** The fields of the directory object are those of entry i. */
  ghost predicate AtEntry(g: Geo, h: Home, i: nat, dptr: nat, sect: nat, clust: nat)
    requires g.csize > 0
  {
    && i < EntryCount(SectorCount(g, h)) && dptr == 32 * i
    && i / 16 < SectorCount(g, h) && sect == SectorNo(g, h, i / 16)
    && match h
       case Fixed(_, _) => clust == 0
       case Clusters(chain) => i / 16 / g.csize < |chain| && clust == chain[i / 16 / g.csize]
  }

  /** An offset within a sector of the table. */
  lemma OffsetParts(ofs: nat)
    requires ofs % 32 == 0
    ensures ofs == 32 * (ofs / 32) && ofs / 512 == ofs / 32 / 16 && ofs % 512 == ofs / 32 % 16 * 32 <= 480
    ensures (ofs + 32) % 32 == 0 && (ofs + 32) / 32 == ofs / 32 + 1
    ensures (ofs + 32) % 512 == 0 <==> ofs / 32 % 16 == 15
    ensures if ofs / 32 % 16 == 15 then (ofs / 32 + 1) / 16 == ofs / 32 / 16 + 1 else (ofs / 32 + 1) / 16 == ofs / 32 / 16
  {
    var i := ofs / 32;
    var q, r := i / 16, i % 16;
    assert ofs == 32 * i && i == 16 * q + r;
    DivUnique(ofs, 512, q, 32 * r);
  }

  /** The k-th cluster of the chain, o bytes into it. */
  lemma ClusterPosition(g: Geo, fat: Fat, chain: seq<nat>, k: nat, o: nat, ofs: nat)
    requires g.Valid() && HomeOk(g, fat, Clusters(chain)) && k < |chain| && o < g.csize * SS
    requires ofs % 32 == 0 && ofs == k * (g.csize * SS) + o && ofs < LIMIT * 32
    ensures 2 <= chain[k] < g.nFatent
    ensures AtEntry(g, Clusters(chain), ofs / 32, ofs, FatFile.Clst2Sect(g, chain[k]) + o / SS, chain[k])
    ensures FatFile.Clst2Sect(g, chain[k]) > 0
  {
    hide WellFormed, Chains, FatFile.Clst2Sect;
    var c, s := g.csize, o / SS;
    OffsetParts(ofs);
    DivNat(o, SS);
    Regrouped(k, c);
    DivUnique(ofs, SS, c * k + s, o % SS);
    DivUnique(c * k + s, c, k, s);
    IndexInChain(g, chain, c * k + s);
    FatFile.Clst2SectIsBase(g, chain[k]);
    SectorOwned(g, fat, Clusters(chain), ofs / 512);
  }

  lemma Regrouped(k: nat, c: nat)
    ensures k * (c * SS) == SS * (c * k)
  {
  }

  /** The FAT leads from each cluster of the table to the next, and says where it ends. */
  lemma FollowTable(g: Geo, fat: Fat, chain: seq<nat>, k: nat)
    requires HomeOk(g, fat, Clusters(chain)) && k < |chain|
    ensures 2 <= chain[k] < g.nFatent == |fat|
    ensures if k + 1 < |chain| then fat[chain[k]] == chain[k + 1] && 2 <= chain[k + 1] < |fat| else fat[chain[k]] >= |fat|
  {
    hide WellFormed;
    ChainsArePaths(fat, chain);
    PathLink(fat, chain, k);
  }

  /** The next entry: in the same sector, in the next sector, or in the next cluster. */
  lemma NextSameSector(g: Geo, h: Home, i: nat, dptr: nat, sect: nat, clust: nat)
    requires g.csize > 0 && AtEntry(g, h, i, dptr, sect, clust) && i % 16 != 15 && i + 1 < LIMIT
    ensures AtEntry(g, h, i + 1, dptr + 32, sect, clust)
  {
    OffsetParts(dptr);
    assert (i + 1) / 16 == i / 16;
  }

  lemma NextFixed(g: Geo, h: Home, i: nat, dptr: nat, sect: nat, clust: nat)
    requires g.csize > 0 && AtEntry(g, h, i, dptr, sect, clust) && i % 16 == 15 && i + 1 < LIMIT && h.Fixed?
    ensures i + 1 < 16 * h.count ==> AtEntry(g, h, i + 1, dptr + 32, sect + 1, clust)
    ensures i + 1 >= 16 * h.count ==> i + 1 == EntryCount(SectorCount(g, h))
  {
    NextSixteen(i);
    assert sect == h.first + i / 16 && clust == 0;
  }

  lemma NextSixteen(i: nat)
    requires i % 16 == 15
    ensures (i + 1) / 16 == i / 16 + 1 && i + 1 == 16 * (i / 16 + 1)
  {
  }

  lemma NextInCluster(g: Geo, h: Home, i: nat, dptr: nat, sect: nat, clust: nat)
    requires g.csize > 0 && AtEntry(g, h, i, dptr, sect, clust) && i % 16 == 15 && i + 1 < LIMIT && h.Clusters?
    requires (i + 1) / 16 % g.csize != 0
    ensures AtEntry(g, h, i + 1, dptr + 32, sect + 1, clust)
  {
    hide Sec;
    OffsetParts(dptr);
    var k, c := i / 16, g.csize;
    assert (i + 1) / 16 == k + 1;
    var q, s := k / c, k % c;
    DivNat(k, c);
    if s == c - 1 {
      Distribute(c, q, 1);
      DivUnique(k + 1, c, q + 1, 0);
    }
    SecConsecutive(g, h.chain, k, 1);
    IndexInChain(g, h.chain, k + 1);
  }

  /** Entry i, at offset ofs, begins behind the j-th cluster of the table, which is clust. */
  ghost predicate AtClusterEnd(g: Geo, h: Home, j: nat, i: nat, ofs: nat, clust: nat)
    requires g.csize > 0 && g.nFatent >= 2
  {
    && h.Clusters? && j < |h.chain| && clust == h.chain[j]
    && ofs == 32 * i && ofs == (j + 1) * (g.csize * SS)
    && if j + 1 < |h.chain| then AtEntry(g, h, i, ofs, FatFile.Clst2Sect(g, h.chain[j + 1]), h.chain[j + 1])
       else i == EntryCount(SectorCount(g, h))
  }

  lemma NextCluster(g: Geo, fat: Fat, h: Home, i: nat, dptr: nat, sect: nat, clust: nat)
    requires g.Valid() && HomeOk(g, fat, h) && AtEntry(g, h, i, dptr, sect, clust) && i % 16 == 15 && i + 1 < LIMIT && h.Clusters?
    requires (i + 1) / 16 % g.csize == 0
    ensures AtClusterEnd(g, h, i / 16 / g.csize, i + 1, dptr + 32, clust)
  {
    hide HomeOk, FatFile.Clst2Sect, SectorNo;
    OffsetParts(dptr);
    var k, c := i / 16, g.csize;
    var j := k / c;
    assert (i + 1) / 16 == k + 1 && i + 1 == 16 * (k + 1);
    DivNat(k, c);
    ClusterEnd(k, c);
    Regrouped(j + 1, c);
    if j + 1 < |h.chain| {
      OffsetParts(dptr + 32);
      ClusterPosition(g, fat, h.chain, j + 1, 0, dptr + 32);
    }
  }

  lemma ClusterEnd(k: nat, c: nat)
    requires c > 0 && (k + 1) % c == 0
    ensures k + 1 == c * (k / c + 1)
  {
    DivNat(k, c);
    DivNat(k + 1, c);
    var q, s := k / c, k % c;
    if s < c - 1 {
      DivUnique(k + 1, c, q, s + 1);
    }
    Distribute(c, q, 1);
  }

  // ---------- stretching the table ----------

  /**
   * From a to b nothing outside the FATs and the sectors of the table has changed in what the volume shows; the chain
   * of the table may have grown, and all other chains are as they were.
   */
  ghost predicate DirKept(g: Geo, a: Image, b: Image, h0: Home, h1: Home) {
    && g.Valid() && a.Valid(g) && b.Valid(g) && g.End() <= |a.View()| == |b.View()|
    && HomeOk(g, FatOf(g, a.View()), h0) && HomeOk(g, FatOf(g, b.View()), h1)
    && (forall x :: 0 <= x < |a.View()| && !InFirstFat(g, x) && !g.InMirror(x) && !Owns(g, h1, x) ==> b.View()[x] == a.View()[x])
    && OthersKept(FatOf(g, a.View()), FatOf(g, b.View()), h0, h1)
  }

  ghost predicate OthersKept(a: Fat, b: Fat, h0: Home, h1: Home) {
    match h0
    case Fixed(_, _) => h1 == h0 && Chains(b) == Chains(a)
    case Clusters(c0) => h1.Clusters? && c0 <= h1.chain && Chains(b) - iset{h1.chain} == Chains(a) - iset{c0}
  }

  lemma OwnsMore(g: Geo, h0: Home, h1: Home, x: int)
    requires g.csize > 0 && g.nFatent >= 2 && (h1 == h0 || (h0.Clusters? && h1.Clusters? && h0.chain <= h1.chain))
    requires Owns(g, h0, x)
    ensures Owns(g, h1, x)
  {
    hide ClusterOf;
    if h1 != h0 {
      assert h0.chain == h1.chain[..|h0.chain|];
    }
  }

  lemma DirKeptTrans(g: Geo, a: Image, b: Image, c: Image, h0: Home, h1: Home, h2: Home)
    requires DirKept(g, a, b, h0, h1) && DirKept(g, b, c, h1, h2)
    ensures DirKept(g, a, c, h0, h2)
  {
    hide FatOf, Image.Valid, Image.View, HomeOk, Chains, Owns;
    forall x | 0 <= x < |a.View()| && !InFirstFat(g, x) && !g.InMirror(x) && !Owns(g, h2, x) ensures c.View()[x] == a.View()[x] {
      if Owns(g, h1, x) {
        OwnsMore(g, h1, h2, x);
      }
    }
  }

  lemma UndisturbedKept(g: Geo, a: Image, b: Image, h: Home)
    requires Undisturbed(g, a, b) && HomeOk(g, FatOf(g, a.View()), h)
    ensures DirKept(g, a, b, h, h)
  {
    hide FatOf, Image.Valid, Image.View, HomeOk, Chains, Owns;
  }

  /** create_chain behind the last cluster adds a free cluster to the chain. */
  lemma HomeGrown(g: Geo, a: Fat, b: Fat, chain: seq<nat>, full: bool, r: nat)
    requires g.Valid() && HomeOk(g, a, Clusters(chain)) && CreateOutcome(g, a, b, chain[|chain| - 1], full, r) && r != INVALID && r > 1
    ensures 2 <= r < g.nFatent && a[r] == 0 && r !in chain
    ensures HomeOk(g, b, Clusters(chain + [r])) && OthersKept(a, b, Clusters(chain), Clusters(chain + [r]))
  {
    hide WellFormed, Chains, CreateOutcome;
    var k := |chain| - 1;
    FollowTable(g, a, chain, k);
    NewCluster(g, a, b, chain[k], full, r);
    var c := CreateEffect(g, a, b, chain[k], full, r);
    ChainsDisjoint(a, c, chain, |c| - 1, k);
    if r in chain {
      InChain(a, chain);
    }
    assert (chain + [r])[|chain|] == r;
    FreeNotInChain(a, chain + [r], r);
    ChainsArePaths(b, chain + [r]);
    PathIsGood(g, b, chain + [r]);
  }

  lemma NewCluster(g: Geo, a: Fat, b: Fat, clst: nat, full: bool, r: nat)
    requires |a| == g.nFatent && 2 <= clst < |a| && a[clst] >= |a| && CreateOutcome(g, a, b, clst, full, r) && r > 1 && r != INVALID
    ensures TookNew(a, clst, r) && Cluster(a, r) && a[r] == 0 && |b| == |a|
  {
  }

  /** No cluster, and then nothing has changed. */
  lemma NotGrown(g: Geo, a: Fat, b: Fat, chain: seq<nat>, full: bool, r: nat)
    requires g.Valid() && HomeOk(g, a, Clusters(chain)) && CreateOutcome(g, a, b, chain[|chain| - 1], full, r) && r <= 1
    ensures r == 0 && b == a
  {
    hide WellFormed, Chains;
    FollowTable(g, a, chain, |chain| - 1);
    NoOnes(a);
  }

  /** A further cluster full of zeros stretches the table by entries never used. */
  lemma TableGrown(g: Geo, a: Fat, b: Fat, chain: seq<nat>, c: nat, va: seq<Sector>, vb: seq<Sector>)
    requires g.Valid() && HomeOk(g, a, Clusters(chain)) && HomeOk(g, b, Clusters(chain + [c])) && g.End() <= |va| && g.End() <= |vb|
    requires forall x :: 0 <= x < g.End() && Owns(g, Clusters(chain), x) ==> vb[x] == va[x]
    requires 2 <= c < g.nFatent && ClusterBase(g, c) >= 0 && ClusterBase(g, c) + g.csize <= g.End()
    requires forall x: nat :: ClusterBase(g, c) <= x < ClusterBase(g, c) + g.csize ==> vb[x] == FatFile.ZeroSector()
    ensures FatDirectory.Lengthened(TableOf(g, a, Clusters(chain), va), TableOf(g, b, Clusters(chain + [c]), vb))
    ensures SectorCount(g, Clusters(chain + [c])) == SectorCount(g, Clusters(chain)) + g.csize
  {
    hide HomeOk, Owns, FatFile.ZeroSector, EntryOf;
    var h, k := Clusters(chain), Clusters(chain + [c]);
    var t, u := TableOf(g, a, h, va), TableOf(g, b, k, vb);
    Distribute(g.csize, |chain|, 1);
    forall i | 0 <= i < |u| ensures u[i] == if i < |t| then t[i] else FatDirectory.Blank() {
      GrownSector(g, a, b, chain, c, va, vb, i / 16);
      ZeroEntry(i % 16);
    }
  }

  lemma ZeroEntry(j: nat)
    requires j < 16
    ensures EntryOf(FatFile.ZeroSector(), j) == FatDirectory.Blank()
  {
  }

  lemma GrownSector(g: Geo, a: Fat, b: Fat, chain: seq<nat>, c: nat, va: seq<Sector>, vb: seq<Sector>, l: nat)
    requires g.Valid() && HomeOk(g, a, Clusters(chain)) && HomeOk(g, b, Clusters(chain + [c])) && g.End() <= |va| && g.End() <= |vb|
    requires forall x :: 0 <= x < g.End() && Owns(g, Clusters(chain), x) ==> vb[x] == va[x]
    requires 2 <= c < g.nFatent && ClusterBase(g, c) >= 0 && ClusterBase(g, c) + g.csize <= g.End()
    requires forall x: nat :: ClusterBase(g, c) <= x < ClusterBase(g, c) + g.csize ==> vb[x] == FatFile.ZeroSector()
    requires l < SectorCount(g, Clusters(chain + [c]))
    ensures TableSector(g, b, Clusters(chain + [c]), vb, l)
            == if l < SectorCount(g, Clusters(chain)) then TableSector(g, a, Clusters(chain), va, l) else FatFile.ZeroSector()
  {
    hide HomeOk, Owns, FatFile.ZeroSector, ClusterBase;
    var more := chain + [c];
    IndexInChain(g, chain, l);
    IndexInChain(g, more, l);
    DivNat(l, g.csize);
    if l < SectorCount(g, Clusters(chain)) {
      SectorOwned(g, a, Clusters(chain), l);
      assert more[l / g.csize] == chain[l / g.csize];
    } else {
      assert l / g.csize == |chain| && more[|chain|] == c;
    }
  }
}
