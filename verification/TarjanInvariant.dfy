/** The invariant of Tarjan's search and the steps that keep it, on snapshots.

    A snapshot has the active calls (gray), the nodes on the stack (live), the
    depth numbers of all visited nodes, and the next free number.  Visited nodes
    off the stack belong to finished components. */
module TarjanInvariant {
  import opened Digraph

  datatype Search = Search(gray: set<Node>, live: set<Node>, index: map<Node, nat>, counter: nat) {
    ghost function Done(): set<Node> { index.Keys - live }
  }

  ghost function Targets(g: Graph, v: Node): set<Node> {
    set w | w in Successors(g, v)
  }

  ghost predicate Numbered(q: Search) {
    && q.gray <= q.live <= q.index.Keys
    && (forall v :: v in q.index ==> q.index[v] < q.counter)
    && (forall u, v :: u in q.live && v in q.live && q.index[u] == q.index[v] ==> u == v)
  }

  /** A black node has only visited successors, and a finished one only finished successors. */
  ghost predicate Closed(g: Graph, q: Search) {
    && q.index.Keys <= Vertices(g)
    && (forall v :: v in q.index && v !in q.gray ==> Targets(g, v) <= q.index.Keys)
    && (forall v :: v in q.Done() ==> Targets(g, v) <= q.Done())
  }

  ghost predicate OlderReachNewer(g: Graph, q: Search)
    requires Numbered(q)
  {
    forall u, v :: u in q.live && v in q.live && q.index[u] <= q.index[v] ==> Reaches(g, u, v)
  }

  /** v reaches an active call at least as old as itself. */
  ghost predicate ReachesGray(g: Graph, q: Search, v: Node)
    requires Numbered(q)
  {
    v in q.index && exists u :: u in q.gray && q.index[u] <= q.index[v] && Reaches(g, v, u)
  }

  lemma GrayAbove(g: Graph, q: Search, v: Node) returns (u: Node)
    requires Numbered(q) && ReachesGray(g, q, v)
    ensures v in q.index && u in q.gray && q.index[u] <= q.index[v] && Reaches(g, v, u)
  {
    hide Reaches;
    u :| u in q.gray && q.index[u] <= q.index[v] && Reaches(g, v, u);
  }

  lemma GrayBelow(g: Graph, q: Search, v: Node, u: Node)
    requires Numbered(q) && v in q.index && u in q.gray && q.index[u] <= q.index[v] && Reaches(g, v, u)
    ensures ReachesGray(g, q, v)
  {
    hide Reaches;
  }

  ghost predicate Inv(g: Graph, q: Search) {
    && Numbered(q)
    && Closed(g, q)
    && OlderReachNewer(g, q)
    && (forall v {:trigger ReachesGray(g, q, v)} :: v in q.live ==> ReachesGray(g, q, v))
  }

  /** r only adds to q; nodes visited since q have numbers from q's counter on. */
  ghost predicate Grows(q: Search, r: Search) {
    && q.counter <= r.counter
    && q.live <= r.live
    && q.index.Keys <= r.index.Keys
    && (forall v :: v in q.index ==> r.index[v] == q.index[v])
    && (forall v :: v in r.index && v !in q.index ==> q.counter <= r.index[v])
    && (forall v :: v in q.index && v !in q.live ==> v !in r.live)
  }

  /** No edge from the nodes ns leads to a node on q's stack older than low. */
  ghost predicate BackEdges(g: Graph, q: Search, ns: set<Node>, low: nat)
    requires Numbered(q)
  {
    forall a, b :: a in ns && b in q.live && b in Targets(g, a) ==> low <= q.index[b]
  }

  /** v reaches the node on the stack numbered low. */
  ghost predicate LowReached(g: Graph, q: Search, v: Node, low: nat)
    requires Numbered(q)
  {
    exists y :: y in q.live && q.index[y] == low && Reaches(g, v, y)
  }

  /** What one completed call on x achieves; low is the lowlink it leaves for x. */
  ghost predicate Connected(g: Graph, q: Search, r: Search, x: Node, low: nat) {
    && Numbered(q)
    && Inv(g, r)
    && Grows(q, r) && r.gray == q.gray
    && x in r.index
    && low <= r.index[x]
    && (if x in r.live then LowReached(g, r, x, low) else q.counter <= low)
    && BackEdges(g, q, r.live - q.live, low)
  }

  /** The call on x entered from q is scanning; the successors in seen have been considered. */
  ghost predicate Scanning(g: Graph, q: Search, r: Search, x: Node, low: nat, seen: set<Node>) {
    && Numbered(q) && x !in q.index
    && Inv(g, r)
    && Grows(q, r) && r.gray == q.gray + {x}
    && x in r.live && r.index[x] == q.counter
    && low <= r.index[x]
    && LowReached(g, r, x, low)
    && BackEdges(g, q, r.live - q.live - {x}, low)
    && seen <= r.index.Keys
    && (forall b :: b in seen && b in q.live ==> low <= q.index[b])
  }

  // ---------- entering a node ----------

  ghost function Push(q: Search, x: Node): Search {
    Search(q.gray + {x}, q.live + {x}, q.index[x := q.counter], q.counter + 1)
  }

  lemma PushInv(g: Graph, q: Search, x: Node)
    requires Inv(g, q) && x !in q.index && x in Vertices(g)
    requires forall u :: u in q.gray ==> Reaches(g, u, x)
    ensures Inv(g, Push(q, x))
  {
    hide Reaches, ReachesGray;
    var r := Push(q, x);
    assert r.index.Keys == q.index.Keys + {x};
    assert r.Done() == q.Done();
    ReachesRefl(g, x);
    forall u | u in q.live ensures Reaches(g, u, x) {
      var w := GrayAbove(g, q, u);
      ReachesTrans(g, u, w, x);
    }
    forall v | v in r.live ensures ReachesGray(g, r, v) {
      if v == x {
        GrayBelow(g, r, x, x);
      } else {
        var u := GrayAbove(g, q, v);
        GrayBelow(g, r, v, u);
      }
    }
  }

  lemma PushScans(g: Graph, q: Search, x: Node)
    requires Inv(g, q) && x !in q.index && x in Vertices(g)
    requires forall u :: u in q.gray ==> Reaches(g, u, x)
    ensures Scanning(g, q, Push(q, x), x, q.counter, {})
  {
    hide Reaches, ReachesGray;
    PushInv(g, q, x);
    var r := Push(q, x);
    ReachesRefl(g, x);
    assert x in r.live && r.index[x] == q.counter && Reaches(g, x, x);
    assert r.live - q.live - {x} == {};
  }

  // ---------- considering a successor ----------

  /** A successor on the stack is in the component being built. */
  lemma ScanStacked(g: Graph, q: Search, r: Search, x: Node, low: nat, seen: set<Node>, w: Node)
    requires Scanning(g, q, r, x, low, seen) && w in Targets(g, x) && w in r.live
    ensures Scanning(g, q, r, x, if low <= r.index[w] then low else r.index[w], seen + {w})
  {
    hide Reaches, ReachesGray;
    ReachesEdge(g, x, w);
  }

  /** A visited successor off the stack belongs to a finished component. */
  lemma ScanFinished(g: Graph, q: Search, r: Search, x: Node, low: nat, seen: set<Node>, w: Node)
    requires Scanning(g, q, r, x, low, seen) && w in r.index && w !in r.live
    ensures Scanning(g, q, r, x, low, seen + {w})
  {
    hide Reaches, ReachesGray;
  }

  /** An unvisited successor: the call on it leads from r to t with lowlink wlow. */
  lemma ScanRecursed(g: Graph, q: Search, r: Search, t: Search, x: Node, low: nat, wlow: nat, seen: set<Node>, w: Node)
    requires Scanning(g, q, r, x, low, seen) && w in Targets(g, x) && w !in r.index
    requires Connected(g, r, t, w, wlow)
    ensures Scanning(g, q, t, x, if low <= wlow then low else wlow, seen + {w})
  {
    hide Reaches, ReachesGray, OlderReachNewer, Closed, BackEdges, LowReached;
    RecursedLow(g, q, r, t, x, low, wlow, seen, w);
    RecursedEdges(g, q, r, t, x, low, wlow, seen, w);
  }

  lemma RecursedLow(g: Graph, q: Search, r: Search, t: Search, x: Node, low: nat, wlow: nat, seen: set<Node>, w: Node)
    requires Scanning(g, q, r, x, low, seen) && w in Targets(g, x) && w !in r.index
    requires Connected(g, r, t, w, wlow)
    ensures LowReached(g, t, x, if low <= wlow then low else wlow)
  {
    hide Reaches, ReachesGray;
    if wlow < low {
      var y :| y in t.live && t.index[y] == wlow && Reaches(g, w, y);
      ReachesEdge(g, x, w);
      ReachesTrans(g, x, w, y);
    } else {
      var y :| y in r.live && r.index[y] == low && Reaches(g, x, y);
      assert y in t.live && t.index[y] == low;
    }
  }

  lemma RecursedEdges(g: Graph, q: Search, r: Search, t: Search, x: Node, low: nat, wlow: nat, seen: set<Node>, w: Node)
    requires Scanning(g, q, r, x, low, seen) && w !in r.index
    requires Connected(g, r, t, w, wlow)
    ensures BackEdges(g, q, t.live - q.live - {x}, if low <= wlow then low else wlow)
  {
    hide Reaches, ReachesGray, OlderReachNewer, Closed, LowReached;
    forall a, b | a in t.live - q.live - {x} && b in q.live && b in Targets(g, a)
      ensures low <= q.index[b] || wlow <= q.index[b]
    {
      if a in r.live {
        assert a in r.live - q.live - {x};
      } else {
        assert a in t.live - r.live && b in r.live;
      }
    }
  }

  // ---------- leaving a node ----------

  /** Every node stacked since x was entered reaches x. */
  lemma SegmentReachesRoot(g: Graph, q: Search, r: Search, x: Node, low: nat, seen: set<Node>, y: Node)
    requires Scanning(g, q, r, x, low, seen) && y in r.live - q.live
    ensures Reaches(g, y, x)
  {
    hide Reaches, ReachesGray;
    var u := GrayAbove(g, r, y);
    if u != x {
      assert u in q.live;
      assert r.index[u] <= r.index[x];
      ReachesTrans(g, y, u, x);
    }
  }

  ghost function Blacken(r: Search, x: Node): Search {
    r.(gray := r.gray - {x})
  }

  lemma InnerLiveReach(g: Graph, q: Search, r: Search, x: Node, low: nat)
    requires Inv(g, q)
    requires Scanning(g, q, r, x, low, Targets(g, x)) && low != r.index[x]
    ensures var t := Blacken(r, x); t.gray == q.gray && forall v :: v in t.live ==> ReachesGray(g, t, v)
  {
    hide Reaches, ReachesGray;
    var t := Blacken(r, x);
    var u := InnerReachesGray(g, q, r, x, low);
    forall v | v in t.live ensures ReachesGray(g, t, v) {
      if v in q.live {
        var w := GrayAbove(g, q, v);
        GrayBelow(g, t, v, w);
      } else {
        SegmentReachesRoot(g, q, r, x, low, Targets(g, x), v);
        ReachesTrans(g, v, x, u);
        GrayBelow(g, t, v, u);
      }
    }
  }

  /** A node that is not a root turns black and stays on the stack. */
  lemma FinishInner(g: Graph, q: Search, r: Search, x: Node, low: nat)
    requires Inv(g, q)
    requires Scanning(g, q, r, x, low, Targets(g, x)) && low != r.index[x]
    ensures Connected(g, q, Blacken(r, x), x, low)
  {
    hide Reaches, ReachesGray, OlderReachNewer, Closed, BackEdges, LowReached;
    var t := Blacken(r, x);
    InnerLiveReach(g, q, r, x, low);
    InnerClosed(g, q, r, x, low);
    InnerEdges(g, q, r, x, low);
  }

  lemma InnerClosed(g: Graph, q: Search, r: Search, x: Node, low: nat)
    requires Scanning(g, q, r, x, low, Targets(g, x))
    ensures var t := Blacken(r, x); Numbered(t) && Closed(g, t) && OlderReachNewer(g, t) && LowReached(g, t, x, low)
  {
    hide Reaches, ReachesGray;
    assert Blacken(r, x).Done() == r.Done();
  }

  lemma InnerEdges(g: Graph, q: Search, r: Search, x: Node, low: nat)
    requires Scanning(g, q, r, x, low, Targets(g, x))
    ensures BackEdges(g, q, r.live - q.live, low)
  {
    hide Reaches, ReachesGray, OlderReachNewer, Closed, LowReached;
    forall a, b | a in r.live - q.live && b in q.live && b in Targets(g, a) ensures low <= q.index[b] {
      if a != x {
        assert a in r.live - q.live - {x};
      }
    }
  }

  lemma InnerReachesGray(g: Graph, q: Search, r: Search, x: Node, low: nat) returns (u: Node)
    requires Scanning(g, q, r, x, low, Targets(g, x)) && low != r.index[x]
    ensures u in q.gray && r.index[u] <= low && Reaches(g, x, u)
  {
    hide Reaches, ReachesGray;
    var y :| y in r.live && r.index[y] == low && Reaches(g, x, y);
    u := GrayAbove(g, r, y);
    ReachesTrans(g, x, y, u);
  }

  /** The nodes stacked since x was entered. */
  ghost function Segment(q: Search, r: Search): set<Node> {
    r.live - q.live
  }

  /** When x is a root, no edge leaves its segment except into finished components. */
  lemma SegmentClosed(g: Graph, q: Search, r: Search, x: Node, low: nat, v: Node)
    requires Scanning(g, q, r, x, low, Targets(g, x)) && low == r.index[x]
    requires v in Segment(q, r)
    ensures Targets(g, v) <= Segment(q, r) + r.Done()
  {
    hide Reaches, ReachesGray, OlderReachNewer, LowReached;
    forall w | w in Targets(g, v) ensures w in Segment(q, r) + r.Done() {
      if v != x {
        assert v in r.live - q.live - {x};
        assert v !in r.gray;
      }
      assert w in r.index;
      assert w !in q.live;
    }
  }

  lemma SegmentMutual(g: Graph, q: Search, r: Search, x: Node, low: nat, v: Node, w: Node)
    requires Scanning(g, q, r, x, low, Targets(g, x))
    requires v in Segment(q, r) && w in Segment(q, r)
    ensures Reaches(g, v, w)
  {
    hide Reaches, ReachesGray;
    SegmentReachesRoot(g, q, r, x, low, Targets(g, x), v);
    assert w !in q.index;
    assert r.index[x] <= r.index[w];
    ReachesTrans(g, v, x, w);
  }

  lemma SegmentMaximal(g: Graph, q: Search, r: Search, x: Node, low: nat, v: Node, w: Node)
    requires Scanning(g, q, r, x, low, Targets(g, x)) && low == r.index[x]
    requires v in Segment(q, r) && Mutual(g, v, w)
    ensures w in Segment(q, r)
  {
    hide Reaches, ReachesGray, OlderReachNewer, LowReached;
    var both := Segment(q, r) + r.Done();
    forall a, b | a in both && b in Successors(g, a) ensures b in both {
      assert b in Targets(g, a);
      if a in Segment(q, r) {
        SegmentClosed(g, q, r, x, low, a);
      }
    }
    ClosedKeepsReach(g, both, v, w);
    if w in r.Done() {
      forall a, b | a in r.Done() && b in Successors(g, a) ensures b in r.Done() {
        assert b in Targets(g, a);
      }
      ClosedKeepsReach(g, r.Done(), w, v);
    }
  }

  /** The segment of a root is a whole class of mutually reachable nodes. */
  lemma SegmentIsClass(g: Graph, q: Search, r: Search, x: Node, low: nat)
    requires Scanning(g, q, r, x, low, Targets(g, x)) && low == r.index[x]
    ensures forall v, w :: v in Segment(q, r) ==> (w in Segment(q, r) <==> Mutual(g, v, w))
  {
    hide Reaches, ReachesGray;
    forall v, w | v in Segment(q, r) ensures w in Segment(q, r) <==> Mutual(g, v, w) {
      if w in Segment(q, r) {
        SegmentMutual(g, q, r, x, low, v, w);
        SegmentMutual(g, q, r, x, low, w, v);
      }
      if Mutual(g, v, w) {
        SegmentMaximal(g, q, r, x, low, v, w);
      }
    }
  }

  /** The segment of x leaves the stack as a finished component. */
  ghost function Retire(q: Search, r: Search): Search {
    Search(q.gray, q.live, r.index, r.counter)
  }

  lemma RootClosed(g: Graph, q: Search, r: Search, x: Node, low: nat)
    requires Scanning(g, q, r, x, low, Targets(g, x)) && low == r.index[x]
    ensures Closed(g, Retire(q, r))
  {
    hide Reaches, ReachesGray, OlderReachNewer, LowReached, BackEdges;
    var t := Retire(q, r);
    assert t.Done() == r.Done() + Segment(q, r);
    forall v | v in t.Done() ensures Targets(g, v) <= t.Done() {
      if v in Segment(q, r) {
        SegmentClosed(g, q, r, x, low, v);
      }
    }
    forall v | v in t.index && v !in t.gray ensures Targets(g, v) <= t.index.Keys {
      if v != x {
        assert v !in r.gray;
      }
    }
  }

  lemma FinishRoot(g: Graph, q: Search, r: Search, x: Node, low: nat)
    requires Inv(g, q)
    requires Scanning(g, q, r, x, low, Targets(g, x)) && low == r.index[x]
    ensures Connected(g, q, Retire(q, r), x, low)
  {
    hide Reaches, ReachesGray, Closed;
    var t := Retire(q, r);
    RootClosed(g, q, r, x, low);
    forall v | v in t.live ensures ReachesGray(g, t, v) {
      var u := GrayAbove(g, q, v);
      GrayBelow(g, t, v, u);
    }
    assert t.live - q.live == {};
  }
}
