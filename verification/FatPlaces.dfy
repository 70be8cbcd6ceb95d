/** Where on the medium the bytes of files and the entries of directories lie, as plain arithmetic. */
module FatPlaces {
  import opened Arith
  import opened FatBase
  import opened FatVolume
  import opened FatChains
  import opened FatAlloc
  import opened FatFileModel
  import opened FatFileState
  import opened FatFile
  import opened FatDirModel

  /** The clusters follow one another from the data base on; a number out of range has no sector. */
  lemma ClustersInOrder(g: Geo, c: nat)
    requires g.Valid() && c < 0x1_0000_0000
    ensures Clst2Sect(g, 2) == g.database
    ensures 2 <= c && c + 1 < g.nFatent ==> Clst2Sect(g, c + 1) == Clst2Sect(g, c) + g.csize
    ensures c < 2 || c >= g.nFatent ==> Clst2Sect(g, c) == 0
  {
    hide Geo.Valid;
    if 2 <= c && c + 1 < g.nFatent {
      Clst2SectIsBase(g, c);
      Clst2SectIsBase(g, c + 1);
      OneMore(g.csize, c - 2);
    }
    Edges(g, c);
  }

  lemma Edges(g: Geo, c: nat)
    requires g.Valid() && c < 0x1_0000_0000
    ensures Clst2Sect(g, 2) == g.database && (c < 2 || c >= g.nFatent ==> Clst2Sect(g, c) == 0)
  {
    OneMore(g.csize, 0);
  }

  lemma OneMore(a: nat, b: int)
    ensures a * (b + 1) == a * b + a && a * 0 == 0
  {
  }

  /** Byte p stands in its cluster of the chain, which lies csize sectors behind the one before it. */
  ghost predicate LiesAt(g: Geo, chain: seq<nat>, disk: seq<Sector>, bytes: seq<byte>, p: nat) {
    && g.csize > 0 && p / 512 / g.csize < |chain| && p < |bytes|
    && var c: int := chain[p / 512 / g.csize];
       var x := g.database + g.csize * (c - 2) + p / 512 % g.csize;
       0 <= x < |disk| && bytes[p] == disk[x][p % 512]
  }

  /** Every byte of a file whose buffer is clean. */
  lemma ByteOnDisk(g: Geo, s: Image, f: FileState, p: nat)
    requires Core(g, s, f) && !f.dirty && p < f.objsize
    ensures LiesAt(g, f.chain, s.disk, Content(g, s, f), p)
  {
    hide FatOf, WellFormed, Chains, Image.Valid, Image.View;
    InFile(g, f, p);
    IndexInChain(g, f.chain, p / 512);
    SecRange(g, f.chain, p / 512);
  }

  lemma InFile(g: Geo, f: FileState, p: nat)
    requires SizeOk(g, f) && p < f.objsize
    ensures p / 512 < Capacity(g, |f.chain|)
  {
    hide Capacity;
  }

  ghost predicate LiesInPiece(g: Geo, c: nat, disk: seq<Sector>, bytes: seq<byte>, p: nat) {
    && p < |bytes|
    && var x: int := g.database + g.csize * (c - 2) + p / 512;
       0 <= x < |disk| && bytes[p] == disk[x][p % 512]
  }

  /** A file in one piece takes consecutive sectors from those of its first cluster on. */
  lemma ContiguousByte(g: Geo, s: Image, f: FileState, p: nat)
    requires Core(g, s, f) && !f.dirty && p < f.objsize && forall i :: 0 <= i < |f.chain| ==> f.chain[i] == f.sclust + i
    ensures LiesInPiece(g, f.sclust, s.disk, Content(g, s, f), p)
  {
    hide Core, Content;
    ByteOnDisk(g, s, f, p);
    Contiguous(g.csize, f.sclust - 2, p / 512);
  }

  lemma Contiguous(n: nat, c: int, k: nat)
    requires n > 0
    ensures n * (c + k / n) + k % n == n * c + k
  {
    DivNat(k, n);
    assert n * (c + k / n) == n * c + n * (k / n);
  }

  /** Entry i of a directory with sectors of its own. */
  lemma FixedEntry(g: Geo, fat: Fat, first: nat, count: nat, view: seq<Sector>, i: nat)
    requires g.Valid() && HomeOk(g, fat, Fixed(first, count)) && g.End() <= |view| && i < 16 * count && i < 0x1_0000
    ensures var t, x := TableOf(g, fat, Fixed(first, count), view), first + i / 16;
            i < |t| && x < |view| && t[i] == view[x][i % 16 * 32..i % 16 * 32 + 32]
  {
    hide WellFormed, Chains;
    DataEnd(g);
  }

  /** Entry i of a directory with clusters. */
  lemma ClusterEntry(g: Geo, fat: Fat, chain: seq<nat>, view: seq<Sector>, i: nat)
    requires g.Valid() && HomeOk(g, fat, Clusters(chain)) && g.End() <= |view| && i < 16 * (g.csize * |chain|) && i < 0x1_0000
    ensures g.csize > 0 && i / 16 / g.csize < |chain|
    ensures var t, x := TableOf(g, fat, Clusters(chain), view), g.database + g.csize * (chain[i / 16 / g.csize] - 2) + i / 16 % g.csize;
            i < |t| && 0 <= x < |view| && t[i] == view[x][i % 16 * 32..i % 16 * 32 + 32]
  {
    hide WellFormed, Chains;
    DataEnd(g);
    IndexInChain(g, chain, i / 16);
    SecRange(g, chain, i / 16);
  }
}
