/** The bytes of an open file: which sectors of the medium hold them, and what a
    change of one sector means for the sequence of bytes. */
module FatFileModel {
  import opened Arith
  import opened FatBase
  import opened FatChains

  // ---------- the sectors of a chain ----------

  /** Number of sectors of a chain of that many clusters. */
  function Capacity(g: Geo, clusters: nat): nat { g.csize * clusters }

  /** The clusters are distinct clusters of the volume. */
  ghost predicate GoodChain(g: Geo, chain: seq<nat>) {
    && (forall i :: 0 <= i < |chain| ==> 2 <= chain[i] < g.nFatent)
    && (forall i, j :: 0 <= i < j < |chain| ==> chain[i] != chain[j])
  }

  lemma PathIsGood(g: Geo, fat: Fat, chain: seq<nat>)
    requires Path(fat, chain) && |fat| == g.nFatent
    ensures GoodChain(g, chain)
  {
    forall i, j | 0 <= i < j < |chain| ensures chain[i] != chain[j] {
      PathDistinct(fat, chain, i, j);
    }
  }

  /** First sector of a cluster. */
  function ClusterBase(g: Geo, c: nat): int { g.database + g.csize * (c - 2) }

  /** Sector of the medium that holds the k-th sector of the chain. */
  ghost function Sec(g: Geo, chain: seq<nat>, k: nat): int
    requires g.csize > 0 && k / g.csize < |chain|
  {
    ClusterBase(g, chain[k / g.csize]) + k % g.csize
  }

  lemma IndexInChain(g: Geo, chain: seq<nat>, k: nat)
    requires g.csize > 0
    ensures k < Capacity(g, |chain|) <==> k / g.csize < |chain|
  {
    var q, r := k / g.csize, k % g.csize;
    assert k == g.csize * q + r;
    if q < |chain| {
      MulMonotone(g.csize, q + 1, |chain|);
    } else {
      MulMonotone(g.csize, |chain|, q);
    }
  }

  lemma ClusterRange(g: Geo, c: nat)
    requires g.csize > 0 && 2 <= c < g.nFatent
    ensures g.database <= ClusterBase(g, c) && ClusterBase(g, c) + g.csize <= g.End()
  {
    MulMonotone(g.csize, 0, c - 2);
    MulMonotone(g.csize, c - 1, g.nFatent - 2);
  }

  lemma SecRange(g: Geo, chain: seq<nat>, k: nat)
    requires g.csize > 0 && GoodChain(g, chain) && k / g.csize < |chain|
    ensures g.database <= Sec(g, chain, k) < g.End()
  {
    ClusterRange(g, chain[k / g.csize]);
  }

  /** The cluster a data sector belongs to. */
  function ClusterOf(g: Geo, x: int): int
    requires g.csize > 0
  {
    2 + (x - g.database) / g.csize
  }

  lemma ClusterOfSector(g: Geo, c: nat, r: nat)
    requires g.csize > 0 && r < g.csize && c >= 2
    ensures ClusterOf(g, ClusterBase(g, c) + r) == c
  {
    DivUnique(g.csize * (c - 2) + r, g.csize, c - 2, r);
  }

  lemma SecCluster(g: Geo, chain: seq<nat>, k: nat)
    requires g.csize > 0 && GoodChain(g, chain) && k / g.csize < |chain|
    ensures ClusterOf(g, Sec(g, chain, k)) == chain[k / g.csize]
  {
    ClusterOfSector(g, chain[k / g.csize], k % g.csize);
  }

  lemma SameElement(g: Geo, chain: seq<nat>, i: nat, j: nat)
    requires GoodChain(g, chain) && i < |chain| && j < |chain| && chain[i] == chain[j]
    ensures i == j
  {
  }

  /** Different sectors of a chain are different sectors of the medium. */
  lemma SecInjective(g: Geo, chain: seq<nat>, k: nat, l: nat)
    requires g.csize > 0 && GoodChain(g, chain) && k / g.csize < |chain| && l / g.csize < |chain|
    requires Sec(g, chain, k) == Sec(g, chain, l)
    ensures k == l
  {
    hide ClusterOf, GoodChain;
    SecCluster(g, chain, k);
    SecCluster(g, chain, l);
    SameElement(g, chain, k / g.csize, l / g.csize);
    DivNat(k, g.csize);
    DivNat(l, g.csize);
  }

  /** Within one cluster the sectors are consecutive. */
  lemma SecConsecutive(g: Geo, chain: seq<nat>, k: nat, i: nat)
    requires g.csize > 0 && k / g.csize < |chain| && k % g.csize + i < g.csize
    ensures (k + i) / g.csize == k / g.csize && Sec(g, chain, k + i) == Sec(g, chain, k) + i
  {
    DivUnique(k + i, g.csize, k / g.csize, k % g.csize + i);
  }

  // ---------- the file as a sequence of sectors ----------

  /** The content of the chain on the medium d. */
  ghost function Sectors(g: Geo, chain: seq<nat>, d: seq<Sector>): (r: seq<Sector>)
    requires g.csize > 0 && g.nFatent >= 2 && GoodChain(g, chain) && g.End() <= |d|
    ensures |r| == Capacity(g, |chain|)
  {
    seq(Capacity(g, |chain|), k requires 0 <= k < Capacity(g, |chain|) => SectorAt(g, chain, d, k))
  }

  ghost function SectorAt(g: Geo, chain: seq<nat>, d: seq<Sector>, k: nat): Sector
    requires g.csize > 0 && g.nFatent >= 2 && GoodChain(g, chain) && g.End() <= |d| && k < Capacity(g, |chain|)
  {
    IndexInChain(g, chain, k);
    SecRange(g, chain, k);
    d[Sec(g, chain, k)]
  }

  /** Only the sectors of the chain matter. */
  lemma SectorsSame(g: Geo, chain: seq<nat>, d: seq<Sector>, e: seq<Sector>)
    requires g.csize > 0 && g.nFatent >= 2 && GoodChain(g, chain) && g.End() <= |d| == |e|
    requires forall x :: g.database <= x < g.End() && ClusterOf(g, x) in chain ==> d[x] == e[x]
    ensures Sectors(g, chain, d) == Sectors(g, chain, e)
  {
    hide ClusterOf, ClusterBase, Sec;
    forall k | 0 <= k < Capacity(g, |chain|) ensures SectorAt(g, chain, d, k) == SectorAt(g, chain, e, k) {
      IndexInChain(g, chain, k);
      SecRange(g, chain, k);
      SecCluster(g, chain, k);
      assert chain[k / g.csize] in chain;
    }
  }

  /** Writing consecutive sectors of one cluster replaces that part of the file. */
  lemma SectorsWritten(g: Geo, chain: seq<nat>, d: seq<Sector>, e: seq<Sector>, k: nat, data: seq<Sector>)
    requires g.csize > 0 && g.nFatent >= 2 && GoodChain(g, chain) && g.End() <= |d| == |e|
    requires k / g.csize < |chain| && k % g.csize + |data| <= g.csize
    requires forall x :: 0 <= x < |d| ==>
      e[x] == if Sec(g, chain, k) <= x < Sec(g, chain, k) + |data| then data[x - Sec(g, chain, k)] else d[x]
    ensures k + |data| <= Capacity(g, |chain|)
    ensures Sectors(g, chain, e) == Sectors(g, chain, d)[..k] + data + Sectors(g, chain, d)[k + |data|..]
  {
    IndexInChain(g, chain, k);
    if |data| > 0 {
      SecConsecutive(g, chain, k, |data| - 1);
      IndexInChain(g, chain, k + |data| - 1);
    }
    forall l | 0 <= l < Capacity(g, |chain|)
      ensures SectorAt(g, chain, e, l) == if k <= l < k + |data| then data[l - k] else SectorAt(g, chain, d, l)
    {
      SectorWritten(g, chain, d, e, k, data, l);
    }
  }

  lemma SectorWritten(g: Geo, chain: seq<nat>, d: seq<Sector>, e: seq<Sector>, k: nat, data: seq<Sector>, l: nat)
    requires g.csize > 0 && g.nFatent >= 2 && GoodChain(g, chain) && g.End() <= |d| == |e|
    requires k / g.csize < |chain| && k % g.csize + |data| <= g.csize && l < Capacity(g, |chain|)
    requires forall x :: 0 <= x < |d| ==>
      e[x] == if Sec(g, chain, k) <= x < Sec(g, chain, k) + |data| then data[x - Sec(g, chain, k)] else d[x]
    ensures SectorAt(g, chain, e, l) == if k <= l < k + |data| then data[l - k] else SectorAt(g, chain, d, l)
  {
    IndexInChain(g, chain, l);
    SecRange(g, chain, l);
    var x := Sec(g, chain, l);
    if k <= l < k + |data| {
      SecConsecutive(g, chain, k, l - k);
    } else if Sec(g, chain, k) <= x < Sec(g, chain, k) + |data| {
      var i := x - Sec(g, chain, k);
      SecConsecutive(g, chain, k, i);
      SecInjective(g, chain, k + i, l);
    }
  }

  /** A longer chain starts with the same sectors. */
  lemma SectorsGrow(g: Geo, chain: seq<nat>, more: seq<nat>, d: seq<Sector>)
    requires g.csize > 0 && g.nFatent >= 2 && GoodChain(g, more) && g.End() <= |d| && chain <= more
    ensures GoodChain(g, chain) && Sectors(g, chain, d) <= Sectors(g, more, d)
    ensures |Sectors(g, chain, d)| == Capacity(g, |chain|) <= Capacity(g, |more|)
  {
    MulMonotone(g.csize, |chain|, |more|);
    forall k | 0 <= k < Capacity(g, |chain|) ensures Sectors(g, chain, d)[k] == Sectors(g, more, d)[k] {
      IndexInChain(g, chain, k);
      IndexInChain(g, more, k);
    }
  }

  // ---------- the file as a sequence of bytes ----------

  /** The first n bytes of the sectors. */
  ghost function Flat(secs: seq<Sector>, n: nat): (r: seq<byte>)
    requires n <= |secs| * SS
    ensures |r| == n
  {
    seq(n, p requires 0 <= p < n => secs[p / SS][p % SS])
  }

  /** Overwriting from position p on, growing the sequence if data reaches beyond its end. */
  function Patched(s: seq<byte>, p: nat, data: seq<byte>): (r: seq<byte>)
    requires p <= |s|
    ensures |r| == if p + |data| > |s| then p + |data| else |s|
  {
    s[..p] + data + if p + |data| < |s| then s[p + |data|..] else []
  }

  lemma PatchedAt(s: seq<byte>, p: nat, data: seq<byte>, q: nat)
    requires p <= |s| && q < |Patched(s, p, data)|
    ensures Patched(s, p, data)[q] == if p <= q < p + |data| then data[q - p] else s[q]
  {
  }

  lemma PatchedTwice(s: seq<byte>, p: nat, a: seq<byte>, b: seq<byte>)
    requires p <= |s|
    ensures Patched(Patched(s, p, a), p + |a|, b) == Patched(s, p, a + b)
  {
    var l, r := Patched(Patched(s, p, a), p + |a|, b), Patched(s, p, a + b);
    forall q | 0 <= q < |l| ensures l[q] == r[q] {
      PatchedAt(Patched(s, p, a), p + |a|, b, q);
      PatchedAt(s, p, a + b, q);
      if q < |Patched(s, p, a)| {
        PatchedAt(s, p, a, q);
      }
    }
  }

  /** Changing part of one sector patches the bytes. */
  lemma FlatPatch(secs: seq<Sector>, after: seq<Sector>, n: nat, p: nat, chunk: seq<byte>)
    requires p <= n <= |secs| * SS && |after| == |secs| && p / SS < |secs|
    requires p % SS + |chunk| <= SS
    requires forall k :: 0 <= k < |secs| && k != p / SS ==> after[k] == secs[k]
    requires forall i :: 0 <= i < |chunk| ==> after[p / SS][p % SS + i] == chunk[i]
    requires forall i :: 0 <= i < SS && !(p % SS <= i < p % SS + |chunk|) && p / SS * SS + i < n ==> after[p / SS][i] == secs[p / SS][i]
    ensures |Patched(Flat(secs, n), p, chunk)| <= |after| * SS
    ensures Flat(after, |Patched(Flat(secs, n), p, chunk)|) == Patched(Flat(secs, n), p, chunk)
  {
    var t := Patched(Flat(secs, n), p, chunk);
    assert |t| <= |after| * SS;
    forall q | 0 <= q < |t| ensures Flat(after, |t|)[q] == t[q] {
      PatchedAt(Flat(secs, n), p, chunk, q);
      SamePlace(p, q);
    }
  }

  /** Positions in the sector of p are told apart by their offsets. */
  lemma SamePlace(p: nat, q: nat)
    ensures q / SS == p / SS ==> q == p / SS * SS + q % SS && q - p == q % SS - p % SS
    ensures p <= q < p / SS * SS + SS ==> q / SS == p / SS
  {
  }

  /** Bytes of whole sectors. */
  ghost function Join(data: seq<Sector>): (r: seq<byte>)
    ensures |r| == |data| * SS
  {
    Flat(data, |data| * SS)
  }

  /** Replacing whole sectors patches the bytes by their joined content. */
  lemma FlatReplace(secs: seq<Sector>, k: nat, data: seq<Sector>, n: nat)
    requires k + |data| <= |secs| && k * SS <= n <= |secs| * SS
    ensures |Patched(Flat(secs, n), k * SS, Join(data))| <= |secs| * SS
    ensures Flat(secs[..k] + data + secs[k + |data|..], |Patched(Flat(secs, n), k * SS, Join(data))|)
         == Patched(Flat(secs, n), k * SS, Join(data))
  {
    var after := secs[..k] + data + secs[k + |data|..];
    var t := Patched(Flat(secs, n), k * SS, Join(data));
    forall q | 0 <= q < |t| ensures Flat(after, |t|)[q] == t[q] {
      PatchedAt(Flat(secs, n), k * SS, Join(data), q);
      if k * SS <= q < (k + |data|) * SS {
        ShiftPlace(k, q);
      }
    }
  }

  lemma ShiftPlace(k: nat, q: nat)
    requires k * SS <= q
    ensures (q - k * SS) / SS == q / SS - k && (q - k * SS) % SS == q % SS
  {
  }

  /** Reading whole sectors reads the bytes. */
  lemma FlatSlice(secs: seq<Sector>, k: nat, m: nat, n: nat)
    requires (k + m) * SS <= n <= |secs| * SS
    ensures Join(secs[k..k + m]) == Flat(secs, n)[k * SS..(k + m) * SS]
  {
    var l, r := Join(secs[k..k + m]), Flat(secs, n)[k * SS..(k + m) * SS];
    forall q | 0 <= q < m * SS ensures l[q] == r[q] {
      ShiftPlace(k, k * SS + q);
    }
  }
}
