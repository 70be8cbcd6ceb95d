/** strongly_connected_components: Tarjan's algorithm over the include graph. */
module StronglyConnected {
  import opened Digraph
  import opened TarjanInvariant

  // ---------- what the answer means ----------

  ghost predicate InResult(r: seq<seq<Node>>, v: Node) {
    exists k :: 0 <= k < |r| && v in r[k]
  }

  /** c lists, without repetition, exactly the nodes mutually reachable with its members. */
  ghost predicate IsComponent(g: Graph, c: seq<Node>) {
    && |c| > 0
    && (forall i, j :: 0 <= i < j < |c| ==> c[i] != c[j])
    && (forall v, w :: v in c ==> (w in c <==> Mutual(g, v, w)))
  }

  /** An edge from a node of the k-th component leads into it or an earlier one. */
  ghost predicate ClosedUpTo(g: Graph, r: seq<seq<Node>>, k: nat)
    requires k < |r|
  {
    forall v, w :: v in r[k] && w in Successors(g, v) ==> InResult(r[..k + 1], w)
  }

  ghost predicate Emitted(g: Graph, r: seq<seq<Node>>) {
    && (forall k :: 0 <= k < |r| ==> IsComponent(g, r[k]))
    && (forall k, l, v :: 0 <= k < l < |r| && v in r[k] ==> v !in r[l])
    && (forall k :: 0 <= k < |r| ==> ClosedUpTo(g, r, k))
  }

  lemma InResultAppend(r: seq<seq<Node>>, c: seq<Node>, v: Node)
    ensures InResult(r + [c], v) <==> InResult(r, v) || v in c
  {
    if InResult(r, v) {
      var k :| 0 <= k < |r| && v in r[k];
      assert v in (r + [c])[k];
    }
    if v in c {
      assert v in (r + [c])[|r|];
    }
    if InResult(r + [c], v) {
      var k :| 0 <= k < |r + [c]| && v in (r + [c])[k];
      assert k < |r| ==> v in r[k];
    }
  }

  /** Appending one more class keeps the list sound when its edges lead into it or the list. */
  lemma EmitOne(g: Graph, r: seq<seq<Node>>, c: seq<Node>)
    requires Emitted(g, r) && IsComponent(g, c)
    requires forall v :: v in c ==> !InResult(r, v)
    requires forall v, w :: v in c && w in Successors(g, v) ==> w in c || InResult(r, w)
    ensures Emitted(g, r + [c])
  {
    hide IsComponent;
    var t := r + [c];
    forall k, l, v | 0 <= k < l < |t| && v in t[k] ensures v !in t[l] {
      if l == |r| {
        assert InResult(r, v);
      }
    }
    forall k | 0 <= k < |t| ensures ClosedUpTo(g, t, k) {
      if k < |r| {
        assert ClosedUpTo(g, r, k);
        assert t[..k + 1] == r[..k + 1];
      } else {
        assert t[..k + 1] == t;
        forall v, w | v in t[k] && w in Successors(g, v) ensures InResult(t, w) {
          InResultAppend(r, c, w);
        }
      }
    }
  }

  // ---------- the stack as a sequence ----------

  ghost function Members(s: seq<Node>): set<Node> {
    set v | v in s
  }

  /** Older nodes are deeper in the stack. */
  ghost predicate Ascending(stack: seq<Node>, index: map<Node, nat>) {
    && (forall i :: 0 <= i < |stack| ==> stack[i] in index)
    && (forall i, j :: 0 <= i < j < |stack| ==> index[stack[i]] < index[stack[j]])
  }

  lemma MembersSplit(s: seq<Node>, n: nat, index: map<Node, nat>)
    requires Ascending(s, index) && n <= |s|
    ensures Members(s[n..]) == Members(s) - Members(s[..n])
  {
    assert s == s[..n] + s[n..];
    assert forall i, j :: 0 <= i < n <= j < |s| ==> s[i] != s[j];
  }

  /** The popped nodes come out newest first. */
  function Reversed(c: seq<Node>): (r: seq<Node>)
    ensures |r| == |c|
    ensures forall i :: 0 <= i < |c| ==> r[i] == c[|c| - 1 - i]
  {
    seq(|c|, i requires 0 <= i < |c| => c[|c| - 1 - i])
  }

  lemma ReversedMembers(c: seq<Node>)
    ensures Members(Reversed(c)) == Members(c)
  {
    forall v | v in c ensures v in Reversed(c) {
      var i :| 0 <= i < |c| && c[i] == v;
      assert Reversed(c)[|c| - 1 - i] == v;
    }
  }

  lemma ReversedDistinct(c: seq<Node>, index: map<Node, nat>, i: nat, j: nat)
    requires Ascending(c, index) && i < j < |c|
    ensures Reversed(c)[i] != Reversed(c)[j]
  {
    assert index[c[|c| - 1 - j]] < index[c[|c| - 1 - i]];
  }

  lemma AscendingPart(s: seq<Node>, n: nat, index: map<Node, nat>)
    requires Ascending(s, index) && n <= |s|
    ensures Ascending(s[..n], index) && Ascending(s[n..], index)
  {
    forall i, j | 0 <= i < j < |s[n..]| ensures index[s[n..][i]] < index[s[n..][j]] {
      assert s[n..][i] == s[n + i] && s[n..][j] == s[n + j];
    }
  }

  /** A reversed segment that is a class of nodes is a component. */
  lemma SegmentComponent(g: Graph, c: seq<Node>, index: map<Node, nat>)
    requires |c| > 0 && Ascending(c, index)
    requires forall v, w :: v in Members(c) ==> (w in Members(c) <==> Mutual(g, v, w))
    ensures IsComponent(g, Reversed(c))
  {
    hide Reaches, Mutual, Ascending;
    var d := Reversed(c);
    ReversedMembers(c);
    forall i, j | 0 <= i < j < |d| ensures d[i] != d[j] {
      ReversedDistinct(c, index, i, j);
    }
    forall v, w | v in d ensures w in d <==> Mutual(g, v, w) {
      assert v in Members(d) && (w in d <==> w in Members(d));
    }
  }

  /** Emitting the segment of a root adds exactly that segment to the result. */
  lemma EmitSegment(g: Graph, q: Search, r: Search, x: Node, low: nat, result: seq<seq<Node>>, c: seq<Node>)
    requires Scanning(g, q, r, x, low, Targets(g, x)) && low == r.index[x]
    requires Members(c) == Segment(q, r) && IsComponent(g, Reversed(c))
    requires Emitted(g, result) && (forall v :: v in r.Done() <==> InResult(result, v))
    ensures Emitted(g, result + [Reversed(c)])
    ensures forall v :: v in Retire(q, r).Done() <==> InResult(result + [Reversed(c)], v)
  {
    hide Reaches, ReachesGray, OlderReachNewer, LowReached, IsComponent, Emitted, InResult, Closed;
    var d := Reversed(c);
    ReversedMembers(c);
    forall v ensures v in d <==> v in Segment(q, r) {
      assert v in d <==> v in Members(d);
    }
    forall v, w | v in d && w in Successors(g, v) ensures w in d || InResult(result, w) {
      SegmentClosed(g, q, r, x, low, v);
      assert w in Targets(g, v);
    }
    EmitOne(g, result, d);
    forall v ensures v in Retire(q, r).Done() <==> InResult(result + [d], v) {
      InResultAppend(result, d, v);
    }
  }

  lemma ConnectedInv(g: Graph, q: Search, r: Search, x: Node, low: nat)
    requires Connected(g, q, r, x, low)
    ensures Inv(g, r)
  {
    hide Inv;
  }

  /** Before the recursive call: every active call reaches the successor, and fewer nodes are left. */
  lemma BeforeRecursion(g: Graph, q: Search, r: Search, x: Node, low: nat, seen: set<Node>, k: nat)
    requires Inv(g, q) && x in Vertices(g) && Scanning(g, q, r, x, low, seen)
    requires forall u :: u in q.gray ==> Reaches(g, u, x)
    requires k < |Successors(g, x)|
    ensures Successors(g, x)[k] in Vertices(g)
    ensures forall u :: u in r.gray ==> Reaches(g, u, Successors(g, x)[k])
    ensures Vertices(g) - r.index.Keys < Vertices(g) - q.index.Keys
  {
    hide Reaches, ReachesGray, OlderReachNewer, LowReached, Inv;
    assert x in g && Successors(g, x)[k] == g[x][k];
    ReachesEdge(g, x, Successors(g, x)[k]);
    forall u | u in q.gray ensures Reaches(g, u, Successors(g, x)[k]) {
      ReachesTrans(g, u, x, Successors(g, x)[k]);
    }
    assert x in r.index.Keys by { assert x in r.live; InvNumbered(g, r); }
    assert x in Vertices(g) - q.index.Keys && x !in Vertices(g) - r.index.Keys;
  }

  lemma NotGray(g: Graph, q: Search, x: Node)
    requires Inv(g, q) && x !in q.index
    ensures x !in q.gray
  {
    hide Closed, ReachesGray, OlderReachNewer;
  }

  lemma InvNumbered(g: Graph, q: Search)
    requires Inv(g, q)
    ensures Numbered(q)
  {
    hide Numbered, Closed, ReachesGray, OlderReachNewer;
  }

  /** A new node on top of the stack is the newest, and finishes nothing. */
  lemma StackPush(g: Graph, q: Search, stack: seq<Node>, x: Node)
    requires Inv(g, q) && x !in q.index && Ascending(stack, q.index) && Members(stack) == q.live
    ensures Ascending(stack + [x], q.index[x := q.counter]) && Members(stack + [x]) == Members(stack) + {x}
    ensures Push(q, x).Done() == q.Done()
  {
    hide Closed, OlderReachNewer, ReachesGray;
  }

  lemma MembersNext(s: seq<Node>, k: nat)
    requires k < |s|
    ensures Members(s[..k + 1]) == Members(s[..k]) + {s[k]}
  {
    assert s[..k + 1] == s[..k] + [s[k]];
  }

  // ---------- the search itself ----------

  class Tarjan {
    const graph: Graph
    var indexCounter: nat
    var stack: seq<Node>
    var lowlinks: map<Node, nat>
    var index: map<Node, nat>
    var result: seq<seq<Node>>

    ghost function View(gray: set<Node>): Search
      reads this
    {
      Search(gray, Members(stack), index, indexCounter)
    }

    ghost predicate Valid(gray: set<Node>)
      reads this
    {
      && Inv(graph, View(gray))
      && index.Keys == lowlinks.Keys
      && Ascending(stack, index)
      && Emitted(graph, result)
      && (forall v :: v in View(gray).Done() <==> InResult(result, v))
    }

    constructor (graph: Graph)
      ensures this.graph == graph && index == map[] && Valid({})
    {
      this.graph := graph;
      indexCounter := 0;
      stack := [];
      lowlinks := map[];
      index := map[];
      result := [];
    }

    /** Numbers the node, and puts it on the stack. */
    method Enter(node: Node, ghost gray: set<Node>)
      requires Valid(gray) && node !in index && node in Vertices(graph)
      requires forall u :: u in gray ==> Reaches(graph, u, node)
      modifies this
      ensures Valid(gray + {node})
      ensures Scanning(graph, old(View(gray)), View(gray + {node}), node, old(indexCounter), {})
      ensures stack == old(stack) + [node] && result == old(result)
      ensures lowlinks == old(lowlinks)[node := old(indexCounter)]
    {
      hide Reaches, Emitted, InResult, Inv, Scanning, Ascending, Members;
      ghost var q := View(gray);
      PushInv(graph, q, node);
      PushScans(graph, q, node);
      StackPush(graph, q, stack, node);
      index := index[node := indexCounter];
      lowlinks := lowlinks[node := indexCounter];
      indexCounter := indexCounter + 1;
      stack := stack + [node];
      assert View(gray + {node}) == Push(q, node);
    }

    /** Pops the stack down to and including node, and stores the popped nodes. */
    method PopComponent(node: Node, ghost n: nat)
      requires n < |stack| && stack[n] == node
      requires forall i :: n < i < |stack| ==> stack[i] != node
      modifies this`stack, this`result
      ensures stack == old(stack[..n])
      ensures result == old(result) + [Reversed(old(stack[n..]))]
    {
      var connectedComponent: seq<Node> := [];
      ghost var all := stack;
      while true
        invariant n < |stack| <= |all| && stack == all[..|stack|]
        invariant connectedComponent == Reversed(all[|stack|..])
        invariant result == old(result)
        decreases |stack|
      {
        var successor := stack[|stack| - 1];
        stack := stack[..|stack| - 1];
        connectedComponent := connectedComponent + [successor];
        assert connectedComponent == Reversed(all[|stack|..]);
        if successor == node { break; }
      }
      assert stack == all[..n];
      result := result + [connectedComponent];
    }

    /** Pops and stores the component of a root. */
    method LeaveRoot(node: Node, ghost gray: set<Node>, ghost q: Search, ghost n: nat)
      requires Valid(gray + {node}) && node in lowlinks && node in index
      requires Inv(graph, q) && q.gray == gray
      requires Scanning(graph, q, View(gray + {node}), node, lowlinks[node], Targets(graph, node))
      requires lowlinks[node] == index[node]
      requires n < |stack| && stack[n] == node && Members(stack[..n]) == q.live
      modifies this`stack, this`result
      ensures Valid(gray)
      ensures Connected(graph, q, View(gray), node, lowlinks[node])
      ensures stack == old(stack[..n]) && old(result) <= result
    {
      hide Inv, Scanning, Connected, Reaches, Emitted, InResult, IsComponent, Mutual;
      ghost var r := View(gray + {node});
      ghost var c := stack[n..];
      FinishRoot(graph, q, r, node, lowlinks[node]);
      SegmentIsClass(graph, q, r, node, lowlinks[node]);
      MembersSplit(stack, n, index);
      AscendingPart(stack, n, index);
      SegmentComponent(graph, c, index);
      EmitSegment(graph, q, r, node, lowlinks[node], result, c);
      PopComponent(node, n);
      assert View(gray) == Retire(q, r);
      ConnectedInv(graph, q, View(gray), node, lowlinks[node]);
    }

    method Strongconnect(node: Node, ghost gray: set<Node>)
      requires Valid(gray)
      requires node !in index && node in Vertices(graph)
      requires forall u :: u in gray ==> Reaches(graph, u, node)
      modifies this
      ensures Valid(gray)
      ensures node in lowlinks && Connected(graph, old(View(gray)), View(gray), node, lowlinks[node])
      ensures old(stack) <= stack && old(result) <= result
      ensures forall v :: v in old(lowlinks) ==> v in lowlinks && lowlinks[v] == old(lowlinks[v])
      decreases Vertices(graph) - index.Keys
    {
      hide Inv, Connected, Scanning, Reaches, Valid, Members;
      ghost var q := View(gray);
      Facts(gray);
      Enter(node, gray);
      var successors := Successors(graph, node);
      var k := 0;
      assert Members(successors[..k]) == {} by { NoMembers(successors); }
      while k < |successors|
        invariant 0 <= k <= |successors|
        invariant Valid(gray + {node})
        invariant node in lowlinks
        invariant Scanning(graph, q, View(gray + {node}), node, lowlinks[node], Members(successors[..k]))
        invariant old(stack) + [node] <= stack && old(result) <= result
        invariant forall v :: v in old(lowlinks) ==> v in lowlinks && lowlinks[v] == old(lowlinks[v])
      {
        var successor := successors[k];
        ghost var r := View(gray + {node});
        ghost var low, seen := lowlinks[node], Members(successors[..k]);
        MembersNext(successors, k);
        Facts(gray + {node});
        if successor !in lowlinks {
          BeforeRecursion(graph, q, r, node, low, seen, k);
          Strongconnect(successor, gray + {node});
          ScanRecursed(graph, q, r, View(gray + {node}), node, low, lowlinks[successor], seen, successor);
          Lower(node, gray + {node}, lowlinks[successor]);
        } else if successor in stack {
          ScanStacked(graph, q, r, node, low, seen, successor);
          Lower(node, gray + {node}, index[successor]);
        } else {
          ScanFinished(graph, q, r, node, low, seen, successor);
        }
        k := k + 1;
      }
      assert Members(successors[..k]) == Targets(graph, node) by { AllMembers(graph, node); }
      assert gray + {node} - {node} == gray by { NotGray(graph, q, node); }
      Facts(gray + {node});
      if lowlinks[node] == index[node] {
        assert stack[..|old(stack)|] == old(stack);
        LeaveRoot(node, gray, q, |old(stack)|);
      } else {
        FinishInner(graph, q, View(gray + {node}), node, lowlinks[node]);
        StaysValid(node, gray, q);
      }
    }

    /** lowlinks[node] = min(lowlinks[node], low). */
    method Lower(node: Node, ghost gray: set<Node>, low: nat)
      requires Valid(gray) && node in lowlinks
      modifies this`lowlinks
      ensures Valid(gray) && View(gray) == old(View(gray))
      ensures lowlinks == old(lowlinks)[node := if old(lowlinks[node]) <= low then old(lowlinks[node]) else low]
    {
      hide Inv, Emitted, InResult, Ascending;
      lowlinks := lowlinks[node := if lowlinks[node] <= low then lowlinks[node] else low];
      assert lowlinks.Keys == old(lowlinks.Keys);
    }

    lemma Facts(gray: set<Node>)
      requires Valid(gray)
      ensures Inv(graph, View(gray)) && index.Keys == lowlinks.Keys
      ensures forall v :: v in stack <==> v in View(gray).live
    {
      hide Inv, Emitted, InResult, Ascending;
    }

    /** A node that stays on the stack only turns black. */
    lemma StaysValid(node: Node, gray: set<Node>, q: Search)
      requires Valid(gray + {node}) && node in lowlinks && gray == gray + {node} - {node}
      requires Connected(graph, q, Blacken(View(gray + {node}), node), node, lowlinks[node])
      ensures Valid(gray) && View(gray) == Blacken(View(gray + {node}), node)
    {
      hide Inv, Connected, Emitted, InResult, Ascending;
      ConnectedInv(graph, q, View(gray), node, lowlinks[node]);
      assert View(gray).Done() == View(gray + {node}).Done();
    }
  }

  lemma NoMembers(s: seq<Node>)
    ensures Members(s[..0]) == {}
  {
  }

  lemma AllMembers(g: Graph, v: Node)
    ensures Members(Successors(g, v)[..|Successors(g, v)|]) == Targets(g, v)
  {
    assert Successors(g, v)[..|Successors(g, v)|] == Successors(g, v);
  }

  // ---------- the whole run ----------

  /** With no active call the stack is empty, and all visited nodes are finished. */
  lemma IdleMeansDone(g: Graph, q: Search)
    requires Inv(g, q) && q.gray == {}
    ensures q.live == {} && q.Done() == q.index.Keys
  {
    hide Reaches, ReachesGray;
    if v :| v in q.live {
      var u := GrayAbove(g, q, v);
    }
  }

  lemma AllVisited(g: Graph, q: Search)
    requires Inv(g, q) && q.gray == {} && g.Keys <= q.index.Keys
    ensures q.Done() == Vertices(g)
  {
    hide Reaches, ReachesGray;
    IdleMeansDone(g, q);
    forall v | v in Vertices(g) ensures v in q.index {
      if v !in g {
        var k, i :| k in g && 0 <= i < |g[k]| && g[k][i] == v;
        assert v in Targets(g, k);
      }
    }
  }

  /** The components partition the graph's nodes, are the classes of mutual
      reachability, and come out in reverse topological order. */
  method StronglyConnectedComponents(graph: Graph) returns (result: seq<seq<Node>>)
    ensures forall v :: InResult(result, v) <==> v in Vertices(graph)
    ensures Emitted(graph, result)
  {
    hide Inv, Connected, Reaches, Emitted, InResult;
    var t := new Tarjan(graph);
    var todo := graph.Keys;
    while todo != {}
      invariant t.graph == graph && todo <= graph.Keys
      invariant t.Valid({})
      invariant forall v :: v in graph && v !in todo ==> v in t.index
      decreases todo
    {
      var node :| node in todo;
      todo := todo - {node};
      if node !in t.lowlinks {
        ghost var q := t.View({});
        t.Strongconnect(node, {});
        ConnectedGrows(graph, q, t.View({}), node, t.lowlinks[node]);
      }
    }
    AllVisited(graph, t.View({}));
    return t.result;
  }

  lemma ConnectedGrows(g: Graph, q: Search, r: Search, x: Node, low: nat)
    requires Connected(g, q, r, x, low)
    ensures q.index.Keys <= r.index.Keys && x in r.index
  {
    hide Inv;
  }

  // ---------- what the two clauses above give a reader ----------

  /** Two nodes share a component exactly when each reaches the other. */
  lemma SameComponentIffMutual(g: Graph, r: seq<seq<Node>>, v: Node, w: Node)
    requires Emitted(g, r) && InResult(r, v)
    ensures (exists k :: 0 <= k < |r| && v in r[k] && w in r[k]) <==> Mutual(g, v, w)
  {
    hide Mutual, Reaches;
    var k :| 0 <= k < |r| && v in r[k];
    assert IsComponent(g, r[k]);
    if i :| 0 <= i < |r| && v in r[i] && w in r[i] {
      assert IsComponent(g, r[i]);
    }
  }

  lemma InPrefix(r: seq<seq<Node>>, k: nat, v: Node)
    requires k <= |r|
    ensures InResult(r[..k], v) <==> exists i :: 0 <= i < k && v in r[i]
  {
    if InResult(r[..k], v) {
      var i :| 0 <= i < |r[..k]| && v in r[..k][i];
      assert v in r[i];
    }
    if i :| 0 <= i < k && v in r[i] {
      assert v in r[..k][i];
    }
  }

  /** A component is emitted only after every component it can reach. */
  lemma ReachableComesFirst(g: Graph, r: seq<seq<Node>>, i: nat, j: nat, v: Node, w: Node)
    requires Emitted(g, r) && i < |r| && j < |r| && v in r[i] && w in r[j]
    requires forall u :: InResult(r, u) ==> u in Vertices(g)
    requires Reaches(g, v, w)
    ensures j <= i
  {
    hide Reaches, IsComponent, InResult;
    var s := set u | u in Vertices(g) && InResult(r[..i + 1], u);
    forall a, b | a in s && b in Successors(g, a) ensures b in s {
      EarlierClosed(g, r, i, a, b);
    }
    InPrefix(r, i + 1, v);
    InPrefix(r, |r|, v);
    assert r[..|r|] == r;
    ClosedKeepsReach(g, s, v, w);
    InPrefix(r, i + 1, w);
  }

  lemma EarlierClosed(g: Graph, r: seq<seq<Node>>, i: nat, a: Node, b: Node)
    requires Emitted(g, r) && i < |r| && InResult(r[..i + 1], a) && b in Successors(g, a)
    ensures InResult(r[..i + 1], b) && InResult(r, b)
  {
    hide IsComponent, InResult;
    InPrefix(r, i + 1, a);
    var k :| 0 <= k < i + 1 && a in r[k];
    assert ClosedUpTo(g, r, k);
    InPrefix(r, k + 1, b);
    InPrefix(r, i + 1, b);
    InPrefix(r, |r|, b);
    assert r[..|r|] == r;
  }

  /** Each node occurs at exactly one position of exactly one component. */
  lemma OccursOnce(g: Graph, r: seq<seq<Node>>, k: nat, i: nat, l: nat, j: nat)
    requires Emitted(g, r)
    requires k < |r| && i < |r[k]| && l < |r| && j < |r[l]|
    requires r[k][i] == r[l][j]
    ensures k == l && i == j
  {
    hide Mutual;
    var v := r[k][i];
    assert v in r[k] && v in r[l];
    assert IsComponent(g, r[k]);
  }
}
