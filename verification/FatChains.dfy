/** Cluster chains of a FAT, on the table of entry values: 0 is free, 2..n-1 links
    to that cluster, n and above ends a chain, 1 is never valid. */
module FatChains {
  type Fat = seq<nat>

  predicate Cluster(fat: Fat, c: int) { 2 <= c < |fat| }

  /** s runs along the links from its first cluster to an end-of-chain mark. */
  ghost predicate Path(fat: Fat, s: seq<nat>) {
    && |s| > 0
    && (forall i :: 0 <= i < |s| ==> Cluster(fat, s[i]))
    && (forall i :: 0 <= i < |s| - 1 ==> fat[s[i]] == s[i + 1])
    && fat[s[|s| - 1]] >= |fat|
  }

  ghost predicate EndsFrom(fat: Fat, c: nat) {
    exists s :: Path(fat, s) && s[0] == c
  }

  /** No entry holds 1, links to a free cluster, or shares its target with another entry. */
  ghost predicate LinksOk(fat: Fat) {
    && (forall c :: Cluster(fat, c) ==> fat[c] != 1)
    && (forall c {:trigger fat[fat[c]]} :: Cluster(fat, c) && Cluster(fat, fat[c]) ==> fat[fat[c]] != 0)
    && (forall c, d :: Cluster(fat, c) && Cluster(fat, d) && fat[c] == fat[d] && Cluster(fat, fat[c]) ==> c == d)
  }

  /** From every cluster in use the links lead to an end mark. */
  ghost predicate AllEnd(fat: Fat) {
    forall c {:trigger EndsFrom(fat, c)} :: Cluster(fat, c) && fat[c] != 0 ==> EndsFrom(fat, c)
  }

  /** Disjoint acyclic chains, each ending in an end mark; no link to a free cluster. */
  ghost predicate WellFormed(fat: Fat) {
    LinksOk(fat) && AllEnd(fat)
  }

  /** Nothing links to c. */
  ghost predicate IsHead(fat: Fat, c: nat) {
    forall d :: Cluster(fat, d) ==> fat[d] != c
  }

  /** The whole chains of the volume. */
  ghost function Chains(fat: Fat): iset<seq<nat>> {
    iset s | Path(fat, s) && IsHead(fat, s[0])
  }

  // ---------- paths ----------

  lemma PathSuffix(fat: Fat, s: seq<nat>, i: nat)
    requires Path(fat, s) && i < |s|
    ensures Path(fat, s[i..])
  {
    forall j | 0 <= j < |s[i..]| - 1 ensures fat[s[i..][j]] == s[i..][j + 1] {
      assert fat[s[i + j]] == s[i + j + 1];
    }
  }

  /** A cluster of a path is its last one exactly when its entry is an end mark. */
  lemma PathLink(fat: Fat, s: seq<nat>, i: nat)
    requires Path(fat, s) && i < |s|
    ensures Cluster(fat, s[i])
    ensures if i < |s| - 1 then fat[s[i]] == s[i + 1] && Cluster(fat, s[i + 1]) else fat[s[i]] >= |fat|
  {
  }

  lemma {:induction false} PathUnique(fat: Fat, s: seq<nat>, t: seq<nat>)
    requires Path(fat, s) && Path(fat, t) && s[0] == t[0]
    ensures s == t
  {
    if |s| > 1 {
      assert fat[s[0]] == s[1] && Cluster(fat, s[1]);
      assert |t| > 1 && t[1] == s[1];
      PathSuffix(fat, s, 1);
      PathSuffix(fat, t, 1);
      PathUnique(fat, s[1..], t[1..]);
      assert s == [s[0]] + s[1..] && t == [t[0]] + t[1..];
    } else {
      PathLink(fat, t, 0);
    }
  }

  /** A path never visits a cluster twice. */
  lemma PathDistinct(fat: Fat, s: seq<nat>, i: nat, j: nat)
    requires Path(fat, s) && i < j < |s|
    ensures s[i] != s[j]
  {
    PathSuffix(fat, s, i);
    PathSuffix(fat, s, j);
    if s[i] == s[j] {
      PathUnique(fat, s[i..], s[j..]);
    }
  }

  lemma PathNotFree(fat: Fat, s: seq<nat>, c: nat)
    requires Path(fat, s) && c in s
    ensures Cluster(fat, c) && fat[c] != 0
  {
    var i :| 0 <= i < |s| && s[i] == c;
    assert i < |s| - 1 ==> fat[s[i]] == s[i + 1] && Cluster(fat, s[i + 1]);
  }

  /** The numbers below n. */
  ghost function Below(n: nat): (r: set<nat>)
    ensures |r| == n
    ensures forall x: nat :: x in r <==> x < n
  {
    if n == 0 then {} else Below(n - 1) + {n - 1}
  }

  lemma {:induction false} DistinctSet(s: seq<nat>, n: nat)
    requires forall i :: 0 <= i < |s| ==> s[i] < n
    requires forall i, j :: 0 <= i < j < |s| ==> s[i] != s[j]
    ensures |s| <= n
  {
    var m := MemberSet(s);
    SubsetSize(m, Below(n));
  }

  lemma {:induction false} MemberSet(s: seq<nat>) returns (m: set<nat>)
    requires forall i, j :: 0 <= i < j < |s| ==> s[i] != s[j]
    ensures |m| == |s| && forall x :: x in m <==> x in s
  {
    if |s| == 0 {
      m := {};
    } else {
      var k := |s| - 1;
      var t := MemberSet(s[..k]);
      assert s == s[..k] + [s[k]];
      m := t + {s[k]};
    }
  }

  lemma SubsetSize<T>(a: set<T>, b: set<T>)
    requires a <= b
    ensures |a| <= |b|
  {
    assert b == a + (b - a);
  }

  lemma PathLength(fat: Fat, s: seq<nat>)
    requires Path(fat, s)
    ensures |s| <= |fat|
  {
    forall i, j | 0 <= i < j < |s| ensures s[i] != s[j] {
      PathDistinct(fat, s, i, j);
    }
    DistinctSet(s, |fat|);
  }

  /** Every cluster in use lies on exactly one whole chain; here it is found from its tail s. */
  lemma {:induction false} WholeChain(fat: Fat, s: seq<nat>) returns (t: seq<nat>, k: nat)
    requires Path(fat, s)
    ensures t in Chains(fat) && k < |t| && t[k..] == s
    decreases |fat| + 1 - |s|
  {
    PathLength(fat, s);
    if IsHead(fat, s[0]) {
      t, k := s, 0;
    } else {
      var d :| Cluster(fat, d) && fat[d] == s[0];
      var r := [d] + s;
      assert Path(fat, r);
      PathLength(fat, r);
      t, k := WholeChain(fat, r);
      assert t[k..][1..] == t[k + 1..];
      k := k + 1;
    }
  }

  lemma HeadIsFirst(fat: Fat, s: seq<nat>, i: nat)
    requires Path(fat, s) && i < |s|
    ensures i > 0 ==> !IsHead(fat, s[i])
  {
    if i > 0 {
      assert fat[s[i - 1]] == s[i - 1 + 1] && Cluster(fat, s[i - 1]);
    }
  }

  /** Two whole chains that share a cluster are the same chain. */
  lemma {:induction false} ChainsDisjoint(fat: Fat, s: seq<nat>, t: seq<nat>, i: nat, j: nat)
    requires WellFormed(fat) && s in Chains(fat) && t in Chains(fat)
    requires i < |s| && j < |t| && s[i] == t[j]
    ensures s == t && i == j
    decreases i
  {
    if i == 0 || j == 0 {
      HeadIsFirst(fat, s, i);
      HeadIsFirst(fat, t, j);
      PathUnique(fat, s, t);
    } else {
      assert fat[s[i - 1]] == s[i] && fat[t[j - 1]] == t[j];
      assert Cluster(fat, s[i - 1]) && Cluster(fat, t[j - 1]) && Cluster(fat, s[i]);
      ChainsDisjoint(fat, s, t, i - 1, j - 1);
    }
  }

  // ---------- allocating one cluster ----------

  /** A new chain of one cluster. */
  function Started(fat: Fat, ncl: nat, eoc: nat): Fat
    requires Cluster(fat, ncl)
  {
    fat[ncl := eoc]
  }

  /** The chain that ended in clst goes on to the new cluster. */
  function Stretched(fat: Fat, clst: nat, ncl: nat, eoc: nat): Fat
    requires Cluster(fat, ncl) && Cluster(fat, clst)
  {
    fat[ncl := eoc][clst := ncl]
  }

  lemma StartedPath(fat: Fat, ncl: nat, eoc: nat, s: seq<nat>)
    requires WellFormed(fat) && Cluster(fat, ncl) && fat[ncl] == 0 && eoc >= |fat|
    ensures Path(Started(fat, ncl, eoc), s) <==> Path(fat, s) || s == [ncl]
  {
    var f := Started(fat, ncl, eoc);
    if Path(fat, s) {
      forall i | 0 <= i < |s| ensures s[i] != ncl { PathNotFree(fat, s, s[i]); }
    }
    if Path(f, s) && s != [ncl] {
      forall i | 0 <= i < |s| ensures s[i] != ncl {
        if s[i] == ncl {
          PathLink(f, s, i);
          assert i > 0;
          assert f[s[i - 1]] == s[i];
          if s[i - 1] == ncl {
          } else {
            assert fat[s[i - 1]] == ncl && Cluster(fat, s[i - 1]);
          }
        }
      }
    }
  }

  /** The head clusters are the same, as far as clusters in use go. */
  lemma StartedHead(fat: Fat, ncl: nat, eoc: nat, c: nat)
    requires Cluster(fat, ncl) && fat[ncl] == 0 && eoc >= |fat| && Cluster(fat, c)
    ensures IsHead(Started(fat, ncl, eoc), c) <==> IsHead(fat, c)
  {
    var f := Started(fat, ncl, eoc);
    if IsHead(f, c) {
      forall d | Cluster(fat, d) ensures fat[d] != c { assert Cluster(f, d); assert d != ncl ==> f[d] == fat[d]; }
    }
    if IsHead(fat, c) {
      forall d | Cluster(f, d) ensures f[d] != c { assert Cluster(fat, d); assert d != ncl ==> f[d] == fat[d]; }
    }
  }

  lemma StartedLinks(fat: Fat, ncl: nat, eoc: nat)
    requires LinksOk(fat) && Cluster(fat, ncl) && fat[ncl] == 0 && eoc >= |fat|
    ensures LinksOk(Started(fat, ncl, eoc))
  {
    var f := Started(fat, ncl, eoc);
    forall c {:trigger f[f[c]]} | Cluster(f, c) && Cluster(f, f[c]) ensures f[f[c]] != 0 {
      assert c != ncl && fat[fat[c]] != 0;
    }
  }

  lemma StartedWellFormed(fat: Fat, ncl: nat, eoc: nat)
    requires WellFormed(fat) && Cluster(fat, ncl) && fat[ncl] == 0 && eoc >= |fat|
    ensures WellFormed(Started(fat, ncl, eoc))
  {
    hide LinksOk;
    StartedLinks(fat, ncl, eoc);
    var f := Started(fat, ncl, eoc);
    forall c | Cluster(f, c) && f[c] != 0 ensures EndsFrom(f, c) {
      if c == ncl {
        assert Path(f, [ncl]);
      } else {
        assert EndsFrom(fat, c);
        var s :| Path(fat, s) && s[0] == c;
        StartedPath(fat, ncl, eoc, s);
      }
    }
  }

  /** Starting a chain adds exactly that chain, and keeps the table well formed. */
  lemma StartChain(fat: Fat, ncl: nat, eoc: nat)
    requires WellFormed(fat) && Cluster(fat, ncl) && fat[ncl] == 0 && eoc >= |fat|
    ensures WellFormed(Started(fat, ncl, eoc))
    ensures Chains(Started(fat, ncl, eoc)) == Chains(fat) + iset{[ncl]}
  {
    hide IsHead;
    var f := Started(fat, ncl, eoc);
    StartedWellFormed(fat, ncl, eoc);
    HeadOfFree(fat, ncl);
    forall s ensures s in Chains(f) <==> s in Chains(fat) || s == [ncl] {
      StartedPath(fat, ncl, eoc, s);
      if Path(f, s) {
        StartedHead(fat, ncl, eoc, s[0]);
      }
    }
  }

  lemma HeadOfFree(fat: Fat, ncl: nat)
    requires WellFormed(fat) && Cluster(fat, ncl) && fat[ncl] == 0
    ensures IsHead(fat, ncl)
  {
  }

  // ---------- stretching ----------

  /** A path that does not go through clst is the same before and after. */
  lemma StretchedOther(fat: Fat, clst: nat, ncl: nat, eoc: nat, s: seq<nat>)
    requires WellFormed(fat) && Cluster(fat, ncl) && fat[ncl] == 0 && eoc >= |fat|
    requires Cluster(fat, clst) && fat[clst] >= |fat| && clst !in s
    ensures Path(Stretched(fat, clst, ncl, eoc), s) <==> Path(fat, s) || s == [ncl]
  {
    var f := Stretched(fat, clst, ncl, eoc);
    if Path(fat, s) {
      forall i | 0 <= i < |s| ensures s[i] != ncl { PathNotFree(fat, s, s[i]); }
    }
    if Path(f, s) && s != [ncl] {
      forall i | 0 <= i < |s| ensures s[i] != ncl {
        if s[i] == ncl {
          PathLink(f, s, i);
          assert i > 0 && f[s[i - 1]] == s[i];
          assert s[i - 1] != clst && Cluster(fat, s[i - 1]);
        }
      }
    }
  }

  /** A path into clst gains the new cluster. */
  lemma StretchedOne(fat: Fat, clst: nat, ncl: nat, eoc: nat, s: seq<nat>)
    requires WellFormed(fat) && Cluster(fat, ncl) && fat[ncl] == 0 && eoc >= |fat|
    requires Path(fat, s) && s[|s| - 1] == clst
    ensures Path(Stretched(fat, clst, ncl, eoc), s + [ncl])
  {
    var f := Stretched(fat, clst, ncl, eoc);
    var t := s + [ncl];
    forall i | 0 <= i < |s| ensures s[i] != ncl { PathNotFree(fat, s, s[i]); }
    forall i | 0 <= i < |t| - 1 ensures f[t[i]] == t[i + 1] {
      if i < |s| - 1 {
        PathDistinct(fat, s, i, |s| - 1);
        assert fat[s[i]] == s[i + 1];
      }
    }
  }

  /** Conversely, a path through clst afterwards is a path into clst before, plus the new cluster. */
  lemma StretchedBack(fat: Fat, clst: nat, ncl: nat, eoc: nat, t: seq<nat>)
    requires WellFormed(fat) && Cluster(fat, ncl) && fat[ncl] == 0 && eoc >= |fat|
    requires Cluster(fat, clst) && fat[clst] >= |fat|
    requires Path(Stretched(fat, clst, ncl, eoc), t) && clst in t
    ensures |t| > 1 && t[|t| - 1] == ncl && t[|t| - 2] == clst && Path(fat, t[..|t| - 1])
  {
    var f := Stretched(fat, clst, ncl, eoc);
    var i :| 0 <= i < |t| && t[i] == clst;
    PathLink(f, t, i);
    PathLink(f, t, i + 1);
    assert i == |t| - 2;
    var s := t[..|t| - 1];
    forall j | 0 <= j < |t| - 1 ensures t[j] != ncl {
      assert f[t[j]] == t[j + 1] && Cluster(fat, t[j + 1]);
    }
    forall j | 0 <= j < |s| - 1 ensures fat[s[j]] == s[j + 1] {
      PathDistinct(f, t, j, |t| - 2);
      assert f[t[j]] == t[j + 1];
    }
  }

  lemma NotLinked(fat: Fat, ncl: nat, d: nat)
    requires LinksOk(fat) && Cluster(fat, ncl) && fat[ncl] == 0 && Cluster(fat, d)
    ensures fat[d] != ncl
  {
    assert Cluster(fat, fat[d]) ==> fat[fat[d]] != 0;
  }

  lemma StretchedLinks(fat: Fat, clst: nat, ncl: nat, eoc: nat)
    requires LinksOk(fat) && Cluster(fat, ncl) && fat[ncl] == 0 && eoc >= |fat|
    requires Cluster(fat, clst) && fat[clst] >= |fat|
    ensures LinksOk(Stretched(fat, clst, ncl, eoc))
  {
    var f := Stretched(fat, clst, ncl, eoc);
    forall c {:trigger f[f[c]]} | Cluster(f, c) && Cluster(f, f[c]) ensures f[f[c]] != 0 {
      if c != clst {
        assert c != ncl && fat[fat[c]] != 0;
      }
    }
    forall c: nat, d: nat | Cluster(f, c) && Cluster(f, d) && f[c] == f[d] && Cluster(f, f[c]) ensures c == d {
      if c == clst && d != clst {
        NotLinked(fat, ncl, d);
      } else if d == clst && c != clst {
        NotLinked(fat, ncl, c);
      }
    }
  }

  lemma StretchedWellFormed(fat: Fat, clst: nat, ncl: nat, eoc: nat)
    requires WellFormed(fat) && Cluster(fat, ncl) && fat[ncl] == 0 && eoc >= |fat|
    requires Cluster(fat, clst) && fat[clst] >= |fat|
    ensures WellFormed(Stretched(fat, clst, ncl, eoc))
  {
    hide LinksOk;
    StretchedLinks(fat, clst, ncl, eoc);
    var f := Stretched(fat, clst, ncl, eoc);
    forall c | Cluster(f, c) && f[c] != 0 ensures EndsFrom(f, c) {
      if c == ncl {
        assert Path(f, [ncl]);
      } else {
        assert EndsFrom(fat, c);
        var s :| Path(fat, s) && s[0] == c;
        StretchedPath(fat, clst, ncl, eoc, s);
      }
    }
  }

  lemma StretchedPath(fat: Fat, clst: nat, ncl: nat, eoc: nat, s: seq<nat>)
    requires WellFormed(fat) && Cluster(fat, ncl) && fat[ncl] == 0 && eoc >= |fat|
    requires Cluster(fat, clst) && fat[clst] >= |fat| && Path(fat, s)
    ensures EndsFrom(Stretched(fat, clst, ncl, eoc), s[0])
  {
    var f := Stretched(fat, clst, ncl, eoc);
    if clst in s {
      var i :| 0 <= i < |s| && s[i] == clst;
      PathLink(fat, s, i);
      StretchedOne(fat, clst, ncl, eoc, s);
      assert (s + [ncl])[0] == s[0];
    } else {
      StretchedOther(fat, clst, ncl, eoc, s);
    }
  }

  lemma StretchedHead(fat: Fat, clst: nat, ncl: nat, eoc: nat, c: nat)
    requires Cluster(fat, ncl) && fat[ncl] == 0 && eoc >= |fat| && Cluster(fat, clst) && fat[clst] >= |fat|
    requires Cluster(fat, c)
    ensures IsHead(Stretched(fat, clst, ncl, eoc), c) <==> IsHead(fat, c) && c != ncl
  {
    var f := Stretched(fat, clst, ncl, eoc);
    if IsHead(f, c) {
      assert Cluster(f, clst) && f[clst] == ncl;
      forall d | Cluster(fat, d) ensures fat[d] != c { assert Cluster(f, d); assert d != ncl && d != clst ==> f[d] == fat[d]; }
    }
    if IsHead(fat, c) && c != ncl {
      forall d | Cluster(f, d) ensures f[d] != c { assert Cluster(fat, d); assert d != ncl && d != clst ==> f[d] == fat[d]; }
    }
  }

  /** Stretching replaces the one chain that ends in clst by the same chain plus the
      new cluster, leaves every other chain alone, and keeps the table well formed. */
  lemma StretchChain(fat: Fat, clst: nat, ncl: nat, eoc: nat, s: seq<nat>)
    requires WellFormed(fat) && Cluster(fat, ncl) && fat[ncl] == 0 && eoc >= |fat|
    requires s in Chains(fat) && s[|s| - 1] == clst
    ensures WellFormed(Stretched(fat, clst, ncl, eoc))
    ensures Chains(Stretched(fat, clst, ncl, eoc)) == Chains(fat) - iset{s} + iset{s + [ncl]}
  {
    StretchedWellFormed(fat, clst, ncl, eoc);
    var f := Stretched(fat, clst, ncl, eoc);
    forall t ensures t in Chains(f) <==> (t in Chains(fat) && t != s) || t == s + [ncl] {
      StretchedChain(fat, clst, ncl, eoc, s, t);
    }
  }

  lemma StretchedChain(fat: Fat, clst: nat, ncl: nat, eoc: nat, s: seq<nat>, t: seq<nat>)
    requires WellFormed(fat) && Cluster(fat, ncl) && fat[ncl] == 0 && eoc >= |fat|
    requires s in Chains(fat) && s[|s| - 1] == clst
    ensures t in Chains(Stretched(fat, clst, ncl, eoc)) <==> (t in Chains(fat) && t != s) || t == s + [ncl]
  {
    hide IsHead, WellFormed;
    var f := Stretched(fat, clst, ncl, eoc);
    if t in Chains(f) {
      StretchedChainBack(fat, clst, ncl, eoc, s, t);
    }
    if t in Chains(fat) && t != s {
      StretchedChainKept(fat, clst, ncl, eoc, s, t);
    }
    StretchedOne(fat, clst, ncl, eoc, s);
    assert (s + [ncl])[0] == s[0];
    PathNotFree(fat, s, s[0]);
    StretchedHead(fat, clst, ncl, eoc, s[0]);
  }

  lemma StretchedChainBack(fat: Fat, clst: nat, ncl: nat, eoc: nat, s: seq<nat>, t: seq<nat>)
    requires WellFormed(fat) && Cluster(fat, ncl) && fat[ncl] == 0 && eoc >= |fat|
    requires s in Chains(fat) && s[|s| - 1] == clst
    requires t in Chains(Stretched(fat, clst, ncl, eoc))
    ensures (t in Chains(fat) && t != s) || t == s + [ncl]
  {
    hide IsHead;
    StretchedHead(fat, clst, ncl, eoc, t[0]);
    if clst in t {
      StretchedBack(fat, clst, ncl, eoc, t);
      var u := t[..|t| - 1];
      assert u[0] == t[0] && u in Chains(fat) && u[|u| - 1] == clst;
      ChainsDisjoint(fat, s, u, |s| - 1, |u| - 1);
      assert t == u + [ncl];
    } else {
      StretchedOther(fat, clst, ncl, eoc, t);
      assert s[|s| - 1] in s;
    }
  }

  lemma StretchedChainKept(fat: Fat, clst: nat, ncl: nat, eoc: nat, s: seq<nat>, t: seq<nat>)
    requires WellFormed(fat) && Cluster(fat, ncl) && fat[ncl] == 0 && eoc >= |fat|
    requires s in Chains(fat) && s[|s| - 1] == clst
    requires t in Chains(fat) && t != s
    ensures t in Chains(Stretched(fat, clst, ncl, eoc))
  {
    hide IsHead;
    if clst in t {
      var j :| 0 <= j < |t| && t[j] == clst;
      ChainsDisjoint(fat, s, t, |s| - 1, j);
    }
    StretchedOther(fat, clst, ncl, eoc, t);
    PathNotFree(fat, t, t[0]);
    StretchedHead(fat, clst, ncl, eoc, t[0]);
  }

  // ---------- removing a chain ----------

  /** Clusters in use. */
  ghost function Used(fat: Fat): set<nat> {
    set c | 2 <= c < |fat| && fat[c] != 0
  }

  /** The outcome of the removal loop on any table whatsoever, cyclic ones included:
      the table it leaves, and whether it met a cluster holding 1. */
  ghost function Removed(fat: Fat, c: nat): (r: (Fat, bool))
    requires Cluster(fat, c)
    ensures |r.0| == |fat|
    decreases Used(fat)
  {
    var nxt := fat[c];
    if nxt == 0 then (fat, true)
    else if nxt == 1 then (fat, false)
    else
      var f := fat[c := 0];
      assert c in Used(fat) && c !in Used(f);
      if nxt < |fat| then Removed(f, nxt) else (f, true)
  }

  /** All clusters of s become free. */
  ghost function Cleared(fat: Fat, s: seq<nat>): (r: Fat)
    ensures |r| == |fat|
  {
    seq(|fat|, c requires 0 <= c < |fat| => if c in s then 0 else fat[c])
  }

  /** From the start of a path the loop frees exactly its clusters. */
  lemma {:induction false} RemovedPath(fat: Fat, s: seq<nat>)
    requires Path(fat, s) && (forall i :: 0 <= i < |s| ==> fat[s[i]] != 1)
    ensures Removed(fat, s[0]) == (Cleared(fat, s), true)
    decreases |s|
  {
    var f := fat[s[0] := 0];
    PathLink(fat, s, 0);
    if |s| == 1 {
      assert Cleared(fat, s) == f;
    } else {
      var r := s[1..];
      PathSuffix(fat, s, 1);
      forall i | 0 <= i < |r| ensures r[i] != s[0] { PathDistinct(fat, s, 0, i + 1); }
      assert Path(f, r);
      RemovedPath(f, r);
      assert forall c :: c in s <==> c == s[0] || c in r;
      assert Cleared(f, r) == Cleared(fat, s);
    }
  }

  /** The table after the chain s has been removed behind pclst (0: s is a whole chain). */
  ghost function Cut(fat: Fat, s: seq<nat>, pclst: nat, eoc: nat): Fat
    requires pclst < |fat|
  {
    Cleared(if pclst == 0 then fat else fat[pclst := eoc], s)
  }

  /** s is what lies behind pclst, or a whole chain. */
  ghost predicate Cuttable(fat: Fat, s: seq<nat>, pclst: nat, eoc: nat) {
    && WellFormed(fat) && Path(fat, s) && eoc >= |fat|
    && (if pclst == 0 then IsHead(fat, s[0]) else Cluster(fat, pclst) && fat[pclst] == s[0])
  }

  lemma BehindNotIn(fat: Fat, s: seq<nat>, pclst: nat, eoc: nat)
    requires Cuttable(fat, s, pclst, eoc)
    ensures pclst !in s
  {
    if pclst in s {
      var i :| 0 <= i < |s| && s[i] == pclst;
      PathLink(fat, s, i);
      PathDistinct(fat, s, 0, i + 1);
    }
  }

  /** Who precedes a cluster of s: the cluster before it in s, or pclst. */
  lemma Predecessor(fat: Fat, s: seq<nat>, pclst: nat, eoc: nat, d: nat, k: nat)
    requires Cuttable(fat, s, pclst, eoc) && Cluster(fat, d) && k < |s| && fat[d] == s[k]
    ensures if k > 0 then d == s[k - 1] else d == pclst
  {
    PathLink(fat, s, k);
    if k > 0 {
      PathLink(fat, s, k - 1);
    }
  }

  /** A path that meets s either starts in it or goes through pclst. */
  lemma {:induction false} MeetsFrom(fat: Fat, s: seq<nat>, pclst: nat, eoc: nat, t: seq<nat>, k: nat)
    requires Cuttable(fat, s, pclst, eoc) && Path(fat, t) && k < |t| && t[k] in s
    ensures t[0] in s || (pclst != 0 && pclst in t)
  {
    if k > 0 {
      var j :| 0 <= j < |s| && s[j] == t[k];
      PathLink(fat, t, k - 1);
      Predecessor(fat, s, pclst, eoc, t[k - 1], j);
      if j > 0 {
        MeetsFrom(fat, s, pclst, eoc, t, k - 1);
      }
    }
  }

  /** A path that avoids both s and pclst is untouched. */
  lemma CutPathKept(fat: Fat, s: seq<nat>, pclst: nat, eoc: nat, t: seq<nat>)
    requires Cuttable(fat, s, pclst, eoc)
    requires forall i :: 0 <= i < |t| ==> t[i] !in s
    requires pclst == 0 || pclst !in t
    ensures Path(Cut(fat, s, pclst, eoc), t) <==> Path(fat, t)
  {
    var f := Cut(fat, s, pclst, eoc);
    forall i | 0 <= i < |t| && Cluster(fat, t[i]) ensures f[t[i]] == fat[t[i]] {
    }
  }

  /** A path up to pclst now ends there. */
  lemma CutPathEnds(fat: Fat, s: seq<nat>, pclst: nat, eoc: nat, u: seq<nat>)
    requires Cuttable(fat, s, pclst, eoc) && pclst != 0
    requires Path(fat, u + s) && |u| > 0 && u[|u| - 1] == pclst
    ensures Path(Cut(fat, s, pclst, eoc), u)
  {
    var f := Cut(fat, s, pclst, eoc);
    var t := u + s;
    forall i | 0 <= i < |u| ensures u[i] !in s && (i < |u| - 1 ==> u[i] != pclst) && Cluster(f, u[i]) {
      assert u[i] == t[i] && Cluster(fat, t[i]);
      if u[i] in s {
        var j :| 0 <= j < |s| && s[j] == u[i];
        assert t[|u| + j] == s[j];
        PathDistinct(fat, t, i, |u| + j);
      }
      if i < |u| - 1 {
        PathDistinct(fat, t, i, |u| - 1);
      }
    }
    forall i | 0 <= i < |u| - 1 ensures f[u[i]] == u[i + 1] {
      assert t[i] == u[i] && t[i + 1] == u[i + 1];
      PathLink(fat, t, i);
    }
  }

  /** Afterwards no path meets s, and one through pclst ends there. */
  lemma CutPathBack(fat: Fat, s: seq<nat>, pclst: nat, eoc: nat, t: seq<nat>)
    requires Cuttable(fat, s, pclst, eoc) && Path(Cut(fat, s, pclst, eoc), t)
    ensures forall i :: 0 <= i < |t| ==> t[i] !in s
    ensures if pclst != 0 && pclst in t then t[|t| - 1] == pclst && Path(fat, t + s) else Path(fat, t)
  {
    var f := Cut(fat, s, pclst, eoc);
    forall i | 0 <= i < |t| ensures t[i] !in s { PathNotFree(f, t, t[i]); }
    if pclst != 0 && pclst in t {
      var i :| 0 <= i < |t| && t[i] == pclst;
      PathLink(f, t, i);
      JoinPath(fat, s, pclst, eoc, t);
    } else {
      CutPathKept(fat, s, pclst, eoc, t);
    }
  }

  lemma JoinPath(fat: Fat, s: seq<nat>, pclst: nat, eoc: nat, t: seq<nat>)
    requires Cuttable(fat, s, pclst, eoc) && pclst != 0 && Path(Cut(fat, s, pclst, eoc), t)
    requires t[|t| - 1] == pclst
    requires forall i :: 0 <= i < |t| ==> t[i] !in s
    ensures Path(fat, t + s)
  {
    var f := Cut(fat, s, pclst, eoc);
    var r := t + s;
    forall i | 0 <= i < |r| - 1 ensures fat[r[i]] == r[i + 1] {
      if i < |t| - 1 {
        PathLink(f, t, i);
        PathDistinct(f, t, i, |t| - 1);
      } else if i >= |t| {
        PathLink(fat, s, i - |t|);
      }
    }
    PathLink(fat, s, |s| - 1);
  }

  lemma CutHead(fat: Fat, s: seq<nat>, pclst: nat, eoc: nat, c: nat)
    requires Cuttable(fat, s, pclst, eoc) && Cluster(fat, c) && c !in s
    ensures IsHead(Cut(fat, s, pclst, eoc), c) <==> IsHead(fat, c)
  {
    var f := Cut(fat, s, pclst, eoc);
    if IsHead(f, c) {
      forall d | Cluster(fat, d) ensures fat[d] != c {
        assert Cluster(f, d);
        if d in s {
          var i :| 0 <= i < |s| && s[i] == d;
          PathLink(fat, s, i);
        }
      }
    }
    if IsHead(fat, c) {
      forall d | Cluster(f, d) ensures f[d] != c {
        assert Cluster(fat, d) && fat[d] != c;
      }
    }
  }

  /** A path through pclst is its part up to pclst, followed by s. */
  lemma SplitAt(fat: Fat, s: seq<nat>, pclst: nat, eoc: nat, t: seq<nat>) returns (u: seq<nat>)
    requires Cuttable(fat, s, pclst, eoc) && pclst != 0 && Path(fat, t) && pclst in t
    ensures t == u + s && |u| > 0 && u[|u| - 1] == pclst
  {
    var i :| 0 <= i < |t| && t[i] == pclst;
    PathLink(fat, t, i);
    PathLink(fat, s, 0);
    PathSuffix(fat, t, i + 1);
    PathUnique(fat, t[i + 1..], s);
    u := t[..i + 1];
  }

  lemma CutLinks(fat: Fat, s: seq<nat>, pclst: nat, eoc: nat)
    requires Cuttable(fat, s, pclst, eoc)
    ensures LinksOk(Cut(fat, s, pclst, eoc))
  {
    hide AllEnd;
    var f := Cut(fat, s, pclst, eoc);
    forall c: nat {:trigger f[f[c]]} | Cluster(f, c) && Cluster(f, f[c]) ensures f[f[c]] != 0 {
      CutLink(fat, s, pclst, eoc, c);
      assert fat[fat[c]] != 0;
    }
  }

  lemma CutLink(fat: Fat, s: seq<nat>, pclst: nat, eoc: nat, c: nat)
    requires Cuttable(fat, s, pclst, eoc)
    requires Cluster(fat, c) && Cluster(fat, Cut(fat, s, pclst, eoc)[c])
    ensures c !in s && c != pclst && Cut(fat, s, pclst, eoc)[c] == fat[c] && fat[c] !in s
  {
    var f := Cut(fat, s, pclst, eoc);
    if fat[c] in s {
      var k :| 0 <= k < |s| && s[k] == fat[c];
      Predecessor(fat, s, pclst, eoc, c, k);
    }
  }

  lemma CutWellFormed(fat: Fat, s: seq<nat>, pclst: nat, eoc: nat)
    requires Cuttable(fat, s, pclst, eoc)
    ensures WellFormed(Cut(fat, s, pclst, eoc))
  {
    hide LinksOk;
    CutLinks(fat, s, pclst, eoc);
    var f := Cut(fat, s, pclst, eoc);
    forall c: nat | Cluster(f, c) && f[c] != 0 ensures EndsFrom(f, c) {
      if c == pclst {
        BehindNotIn(fat, s, pclst, eoc);
        assert Path(f, [c]);
      } else {
        assert EndsFrom(fat, c);
        var t :| Path(fat, t) && t[0] == c;
        CutEnds(fat, s, pclst, eoc, t);
      }
    }
  }

  lemma CutEnds(fat: Fat, s: seq<nat>, pclst: nat, eoc: nat, t: seq<nat>)
    requires Cuttable(fat, s, pclst, eoc) && Path(fat, t) && t[0] !in s
    ensures EndsFrom(Cut(fat, s, pclst, eoc), t[0])
  {
    hide WellFormed, IsHead;
    if pclst != 0 && pclst in t {
      var u := SplitAt(fat, s, pclst, eoc, t);
      CutPathEnds(fat, s, pclst, eoc, u);
      assert u[0] == t[0];
    } else {
      forall k | 0 <= k < |t| ensures t[k] !in s {
        if t[k] in s {
          MeetsFrom(fat, s, pclst, eoc, t, k);
        }
      }
      CutPathKept(fat, s, pclst, eoc, t);
    }
  }

  /** Removing a whole chain removes exactly that chain. */
  lemma RemoveWhole(fat: Fat, s: seq<nat>, eoc: nat)
    requires WellFormed(fat) && s in Chains(fat) && eoc >= |fat|
    ensures WellFormed(Cut(fat, s, 0, eoc))
    ensures Chains(Cut(fat, s, 0, eoc)) == Chains(fat) - iset{s}
  {
    CutWellFormed(fat, s, 0, eoc);
    var f := Cut(fat, s, 0, eoc);
    forall t ensures t in Chains(f) <==> t in Chains(fat) && t != s {
      RemoveWholeChain(fat, s, eoc, t);
    }
  }

  lemma RemoveWholeChain(fat: Fat, s: seq<nat>, eoc: nat, t: seq<nat>)
    requires WellFormed(fat) && s in Chains(fat) && eoc >= |fat|
    ensures t in Chains(Cut(fat, s, 0, eoc)) <==> t in Chains(fat) && t != s
  {
    hide WellFormed, IsHead;
    var f := Cut(fat, s, 0, eoc);
    if t in Chains(f) {
      CutPathBack(fat, s, 0, eoc, t);
      CutHead(fat, s, 0, eoc, t[0]);
    }
    if t in Chains(fat) && t != s {
      forall k | 0 <= k < |t| ensures t[k] !in s {
        if t[k] in s {
          var j :| 0 <= j < |s| && s[j] == t[k];
          ChainsDisjoint(fat, s, t, j, k);
        }
      }
      CutPathKept(fat, s, 0, eoc, t);
      CutHead(fat, s, 0, eoc, t[0]);
    }
  }

  /** Removing what lies behind pclst shortens the one chain u + s to u. */
  lemma RemoveSuffix(fat: Fat, u: seq<nat>, s: seq<nat>, eoc: nat)
    requires WellFormed(fat) && u + s in Chains(fat) && |u| > 0 && |s| > 0 && eoc >= |fat|
    ensures Cuttable(fat, s, u[|u| - 1], eoc)
    ensures WellFormed(Cut(fat, s, u[|u| - 1], eoc))
    ensures Chains(Cut(fat, s, u[|u| - 1], eoc)) == Chains(fat) - iset{u + s} + iset{u}
  {
    var pclst := u[|u| - 1];
    PathSuffix(fat, u + s, |u|);
    assert (u + s)[|u|..] == s;
    PathLink(fat, u + s, |u| - 1);
    CutWellFormed(fat, s, pclst, eoc);
    var f := Cut(fat, s, pclst, eoc);
    forall t ensures t in Chains(f) <==> (t in Chains(fat) && t != u + s) || t == u {
      RemoveSuffixChain(fat, u, s, eoc, t);
    }
  }

  lemma RemoveSuffixChain(fat: Fat, u: seq<nat>, s: seq<nat>, eoc: nat, t: seq<nat>)
    requires WellFormed(fat) && u + s in Chains(fat) && |u| > 0 && |s| > 0 && eoc >= |fat|
    requires Cuttable(fat, s, u[|u| - 1], eoc) && u[|u| - 1] != 0
    ensures t in Chains(Cut(fat, s, u[|u| - 1], eoc)) <==> (t in Chains(fat) && t != u + s) || t == u
  {
    hide WellFormed, IsHead;
    var pclst := u[|u| - 1];
    var f := Cut(fat, s, pclst, eoc);
    if t in Chains(f) {
      SuffixChainBack(fat, u, s, eoc, t);
    }
    if t in Chains(fat) && t != u + s {
      SuffixChainKept(fat, u, s, eoc, t);
    }
    CutPathEnds(fat, s, pclst, eoc, u);
    CutPathBack(fat, s, pclst, eoc, u);
    assert u[0] == (u + s)[0];
    CutHead(fat, s, pclst, eoc, u[0]);
  }

  lemma SuffixChainBack(fat: Fat, u: seq<nat>, s: seq<nat>, eoc: nat, t: seq<nat>)
    requires WellFormed(fat) && u + s in Chains(fat) && |u| > 0 && |s| > 0
    requires Cuttable(fat, s, u[|u| - 1], eoc) && u[|u| - 1] != 0
    requires t in Chains(Cut(fat, s, u[|u| - 1], eoc))
    ensures (t in Chains(fat) && t != u + s) || t == u
  {
    hide WellFormed, IsHead;
    var pclst := u[|u| - 1];
    CutPathBack(fat, s, pclst, eoc, t);
    CutHead(fat, s, pclst, eoc, t[0]);
    if pclst in t {
      assert (t + s)[0] == t[0];
      assert t + s in Chains(fat);
      ChainsDisjoint(fat, u + s, t + s, |u| - 1, |t| - 1);
      assert t == (t + s)[..|t|] && u == (u + s)[..|u|];
    } else {
      assert (u + s)[|u| - 1] == pclst;
    }
  }

  lemma SuffixChainKept(fat: Fat, u: seq<nat>, s: seq<nat>, eoc: nat, t: seq<nat>)
    requires WellFormed(fat) && u + s in Chains(fat) && |u| > 0 && |s| > 0
    requires Cuttable(fat, s, u[|u| - 1], eoc) && u[|u| - 1] != 0
    requires t in Chains(fat) && t != u + s
    ensures t in Chains(Cut(fat, s, u[|u| - 1], eoc))
  {
    hide WellFormed, IsHead;
    var pclst := u[|u| - 1];
    var w := u + s;
    forall k | 0 <= k < |t| ensures t[k] !in w {
      if t[k] in w {
        var j :| 0 <= j < |w| && w[j] == t[k];
        ChainsDisjoint(fat, w, t, j, k);
      }
    }
    assert w[|u| - 1] == pclst;
    assert forall c :: c in s ==> c in w;
    CutPathKept(fat, s, pclst, eoc, t);
    CutHead(fat, s, pclst, eoc, t[0]);
  }

  // ---------- counting free clusters ----------

  ghost function Free(fat: Fat): set<nat> {
    set c | 2 <= c < |fat| && fat[c] == 0
  }

  ghost function FreeCount(fat: Fat): nat { |Free(fat)| }

  /** Changing the entry of one cluster moves it in or out of the free set. */
  lemma FreeUpdate(fat: Fat, c: nat, v: nat)
    requires Cluster(fat, c)
    ensures FreeCount(fat[c := v]) == FreeCount(fat) - (if fat[c] == 0 then 1 else 0) + (if v == 0 then 1 else 0)
  {
    var f := fat[c := v];
    var rest := Free(fat) - {c};
    assert fat[c] == 0 ==> Free(fat) == rest + {c};
    assert fat[c] != 0 ==> Free(fat) == rest;
    assert v == 0 ==> Free(f) == rest + {c};
    assert v != 0 ==> Free(f) == rest;
  }

  lemma FreeCountBound(fat: Fat)
    requires |fat| >= 2
    ensures FreeCount(fat) <= |fat| - 2
    ensures (exists c :: Cluster(fat, c) && fat[c] != 0) ==> FreeCount(fat) < |fat| - 2
  {
    var all := Below(|fat|) - {0, 1};
    assert Free(fat) <= all;
    SubsetSize(Free(fat), all);
    if c: nat :| Cluster(fat, c) && fat[c] != 0 {
      assert Free(fat) <= all - {c};
      SubsetSize(Free(fat), all - {c});
    }
  }

  lemma NoneFree(fat: Fat)
    requires FreeCount(fat) == 0
    ensures forall c :: Cluster(fat, c) ==> fat[c] != 0
  {
    assert Free(fat) == {};
    forall c: nat | Cluster(fat, c) ensures fat[c] != 0 {
      assert c !in Free(fat);
    }
  }
}
