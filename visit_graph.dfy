/**
 * visit_graph.go: the graph of protocol states the fuzzer has seen, keyed by state key,
 * with per-state visit counts and successor/predecessor sets.
 */
module VisitGraphs {
  import opened Common
  import opened Types

  /** A node's content, as a value. */
  datatype NodeView = NodeView(state: string, visits: int, next: set<int>, prev: set<int>)

  /** The whole graph, as a value: the content of the node stored under each key. */
  type GraphView = map<int, NodeView>

  /** `s` with `k` added unless `k` is `self`: the effect of AddNext/AddPrev on a set. */
  function AddUnlessSelf(s: set<int>, k: int, self: int): (r: set<int>)
    ensures self !in s ==> self !in r
    ensures k in s ==> r == s
    ensures k != self ==> k in r
    ensures s <= r <= s + {k}
  {
    if k == self then s else s + {k}
  }

  /** One state of the graph: Go's `map[int64]bool` adjacency maps become sets. */
  class VisitGraphNode {
    const key: int
    var state: string
    var visits: int
    var next: set<int>
    var prev: set<int>

    constructor (key: int, state: string)
      ensures this.key == key && this.state == state
      ensures visits == 0 && next == {} && prev == {}
    {
      this.key := key;
      this.state := state;
      visits := 0;
      next := {};
      prev := {};
    }

    ghost function View(): NodeView
      reads this
    {
      NodeView(state, visits, next, prev)
    }

    /** Records `n` as a successor unless it is this node: no self-loops, and no duplicate. */
    method AddNext(n: int)
      modifies this`next
      ensures next == AddUnlessSelf(old(next), n, key)
    {
      if n == key {
        return;
      }
      if n !in next {
        next := next + {n};
      }
    }

    /** Records `p` as a predecessor unless it is this node. */
    method AddPrev(p: int)
      modifies this`prev
      ensures prev == AddUnlessSelf(old(prev), p, key)
    {
      if p == key {
        return;
      }
      if p !in prev {
        prev := prev + {p};
      }
    }
  }

  /** A fresh node for state `s`. */
  function NewNode(s: State): NodeView {
    NodeView(s.repr, 0, {}, {})
  }

  /** `g` with a node for `s` unless one is stored under its key already. */
  function Ensure(g: GraphView, s: State): GraphView {
    if s.key in g then g else g[s.key := NewNode(s)]
  }

  /** Lines 47-49 of `Update`: count a visit of `cur` and link `cur` to `nxt`, both already nodes. */
  function LinkNodes(g: GraphView, cur: int, nxt: int): (r: GraphView)
    requires cur in g && nxt in g
    ensures r.Keys == g.Keys
  {
    var c := g[cur];
    var g2 := g[cur := c.(visits := c.visits + 1, next := AddUnlessSelf(c.next, nxt, cur))];
    var n := g2[nxt];
    g2[nxt := n.(prev := AddUnlessSelf(n.prev, cur, nxt))]
  }

  /** One iteration of the loop of `Update`, for the consecutive states `cur` and `nxt`. */
  function Link(g: GraphView, cur: State, nxt: State): (r: GraphView)
    ensures r.Keys == g.Keys + {cur.key, nxt.key}
  {
    LinkNodes(Ensure(Ensure(g, cur), nxt), cur.key, nxt.key)
  }

  /** The loop of `Update` over every consecutive pair of `trace`. */
  function Walk(g: GraphView, trace: seq<State>): GraphView
    decreases |trace|
  {
    if |trace| < 2 then g
    else Link(Walk(g, trace[..|trace| - 1]), trace[|trace| - 2], trace[|trace| - 1])
  }

  /**
   * `Update` as a function: the loop, then one more visit of the last state. It panics,
   * here `None`, on an empty trace and when the last state has no node.
   */
  function UpdateView(g: GraphView, trace: seq<State>): Option<GraphView> {
    if trace == [] then None
    else
      var w := Walk(g, trace);
      var last := trace[|trace| - 1].key;
      if last !in w then None
      else Some(w[last := w[last].(visits := w[last].visits + 1)])
  }

  class VisitGraph {
    var nodes: map<int, VisitGraphNode>

    /** Every node is stored under its own key. */
    ghost predicate Valid()
      reads this, nodes.Values
    {
      forall k :: k in nodes ==> nodes[k].key == k
    }

    ghost function View(): (v: GraphView)
      reads this, nodes.Values
      ensures v.Keys == nodes.Keys
    {
      map k | k in nodes :: nodes[k].View()
    }

    /** `NewVisitGraph`. */
    constructor ()
      ensures Valid() && View() == map[]
    {
      nodes := map[];
    }

    /** True exactly when the graph has no node. */
    function IsEmpty(): (b: bool)
      reads this
      ensures b <==> nodes == map[]
    {
      |nodes| == 0
    }
  
    /** Lines 29-45 of `Update`: a node for `s` unless its key has one. */
    method AddState(s: State)
      requires Valid()
      modifies this
      ensures Valid()
      ensures View() == Ensure(old(View()), s)
      ensures forall o :: o in nodes.Values ==> o in old(nodes.Values) || fresh(o)
    {
      if s.key !in nodes {
        var n := new VisitGraphNode(s.key, s.repr);
        nodes := nodes[s.key := n];
      }
    }

    /** Lines 47-49 of `Update`, on two states that have nodes. */
    method LinkStates(cur: int, nxt: int)
      requires Valid() && cur in nodes && nxt in nodes
      modifies nodes[cur], nodes[nxt]
      ensures Valid()
      ensures View() == LinkNodes(old(View()), cur, nxt)
    {
      ghost var g := View();
      var c := nodes[cur];
      var n := nodes[nxt];
      assert forall k :: k in nodes && k != cur ==> nodes[k] != c;
      assert forall k :: k in nodes && k != nxt ==> nodes[k] != n;
      c.visits := c.visits + 1;
      c.AddNext(nxt);
      ghost var g2 := g[cur := g[cur].(visits := g[cur].visits + 1, next := AddUnlessSelf(g[cur].next, nxt, cur))];
      assert View() == g2 by {
        forall k | k in nodes
          ensures View()[k] == g2[k]
        {
          if k != cur {
            assert nodes[k].View() == old(nodes[k].View());
          }
        }
      }
      n.AddPrev(cur);
      ghost var g3 := g2[nxt := g2[nxt].(prev := AddUnlessSelf(g2[nxt].prev, cur, nxt))];
      assert View() == g3 by {
        forall k | k in nodes
          ensures View()[k] == g3[k]
        {
          if k != nxt {
            assert nodes[k] != n;
          }
        }
      }
    }

    /** One iteration of the loop of `Update` (lines 28-49). */
    method LinkPair(cur: State, nxt: State)
      requires Valid()
      modifies this, nodes.Values
      ensures Valid()
      ensures View() == Link(old(View()), cur, nxt)
      ensures forall o :: o in nodes.Values ==> o in old(nodes.Values) || fresh(o)
    {
      AddState(cur);
      AddState(nxt);
      LinkStates(cur.key, nxt.key);
    }

    /** Line 52 of `Update`: one more visit of the node stored under `k`. */
    method CountVisit(k: int)
      requires Valid() && k in nodes
      modifies nodes[k]
      ensures Valid()
      ensures View() == old(View())[k := old(View())[k].(visits := old(View())[k].visits + 1)]
    {
      ghost var w := View();
      var l := nodes[k];
      assert forall j :: j in nodes && j != k ==> nodes[j] != l;
      l.visits := l.visits + 1;
      ghost var final := w[k := w[k].(visits := w[k].visits + 1)];
      assert View() == final by {
        forall j | j in nodes
          ensures View()[j] == final[j]
        {
          if j != k {
            assert nodes[j] != l;
          }
        }
      }
    }

    /**
     * Adds the states of `trace` and the links between consecutive ones, counting one visit
     * per position. `ok` is false where Go panics (an empty trace, or a single state with no
     * node), and then nothing has changed.
     */
    method Update(trace: seq<State>) returns (ok: bool)
      requires Valid()
      modifies this, nodes.Values
      ensures Valid()
      ensures UpdateView(old(View()), trace) == if ok then Some(View()) else None
      ensures !ok ==> View() == old(View())
    {
      if trace == [] {
        return false;
      }
      var i := 0;
      while i < |trace| - 1
        invariant 0 <= i <= |trace| - 1
        invariant Valid()
        invariant forall o :: o in nodes.Values ==> o in old(nodes.Values) || fresh(o)
        invariant View() == Walk(old(View()), trace[..i + 1])
      {
        assert trace[..i + 2][..i + 1] == trace[..i + 1];
        LinkPair(trace[i], trace[i + 1]);
        i := i + 1;
      }
      var last := trace[|trace| - 1];
      assert trace[..i + 1] == trace;
      if last.key !in nodes {
        return false;
      }
      CountVisit(last.key);
      ok := true;
    }
  }

  // ---------------------------------------------------------------------------
  // What Update guarantees

  /** Every successor link has its predecessor link in the other node, and the other way round. */
  ghost predicate Mirrored(g: GraphView) {
    && (forall a, b :: a in g && b in g[a].next ==> b in g && a in g[b].prev)
    && (forall a, b :: a in g && b in g[a].prev ==> b in g && a in g[b].next)
  }

  ghost predicate NoSelfLoops(g: GraphView) {
    forall a :: a in g ==> a !in g[a].next && a !in g[a].prev
  }

  /** `r` keeps every node of `g` with its state, and only adds links and visits. */
  ghost predicate Grows(g: GraphView, r: GraphView) {
    && g.Keys <= r.Keys
    && forall k :: k in g ==>
         r[k].state == g[k].state && g[k].next <= r[k].next && g[k].prev <= r[k].prev && g[k].visits <= r[k].visits
  }

  /** The keys of the states of `trace`. */
  ghost function TraceKeys(trace: seq<State>): set<int>
    decreases |trace|
  {
    if trace == [] then {} else TraceKeys(trace[..|trace| - 1]) + {trace[|trace| - 1].key}
  }

  lemma EnsureKeepsShape(g: GraphView, s: State)
    requires Mirrored(g) && NoSelfLoops(g)
    ensures Mirrored(Ensure(g, s)) && NoSelfLoops(Ensure(g, s)) && Grows(g, Ensure(g, s))
  {
  }

  lemma LinkNodesKeepsShape(g: GraphView, cur: int, nxt: int)
    requires cur in g && nxt in g
    requires Mirrored(g) && NoSelfLoops(g)
    ensures Mirrored(LinkNodes(g, cur, nxt)) && NoSelfLoops(LinkNodes(g, cur, nxt))
  {
  }

  lemma LinkKeepsShape(g: GraphView, cur: State, nxt: State)
    requires Mirrored(g) && NoSelfLoops(g)
    ensures var r := Link(g, cur, nxt);
      && Mirrored(r) && NoSelfLoops(r) && Grows(g, r)
      && (cur.key != nxt.key ==> nxt.key in r[cur.key].next && cur.key in r[nxt.key].prev)
  {
    var g1 := Ensure(g, cur);
    var g2 := Ensure(g1, nxt);
    EnsureKeepsShape(g, cur);
    EnsureKeepsShape(g1, nxt);
    LinkNodesKeepsShape(g2, cur.key, nxt.key);
    LinkGrows(g, cur, nxt);
  }

  lemma LinkGrows(g: GraphView, cur: State, nxt: State)
    ensures var r := Link(g, cur, nxt);
      Grows(g, r) && (cur.key != nxt.key ==> nxt.key in r[cur.key].next && cur.key in r[nxt.key].prev)
  {
  }

  lemma GrowsTransitive(g1: GraphView, g2: GraphView, g3: GraphView)
    requires Grows(g1, g2) && Grows(g2, g3)
    ensures Grows(g1, g3)
  {
  }

  /** The loop keeps the graph mirrored and free of self-loops. */
  lemma {:induction false} WalkKeepsShape(g: GraphView, trace: seq<State>)
    requires Mirrored(g) && NoSelfLoops(g)
    ensures Mirrored(Walk(g, trace)) && NoSelfLoops(Walk(g, trace))
    decreases |trace|
  {
    if |trace| >= 2 {
      var front := trace[..|trace| - 1];
      WalkKeepsShape(g, front);
      LinkKeepsShape(Walk(g, front), trace[|trace| - 2], trace[|trace| - 1]);
    }
  }

  /** The loop keeps every node with its state and links. */
  lemma {:induction false} WalkGrows(g: GraphView, trace: seq<State>)
    ensures Grows(g, Walk(g, trace))
    decreases |trace|
  {
    if |trace| >= 2 {
      var front := trace[..|trace| - 1];
      WalkGrows(g, front);
      LinkGrows(Walk(g, front), trace[|trace| - 2], trace[|trace| - 1]);
      GrowsTransitive(g, Walk(g, front), Walk(g, trace));
    }
  }

  /** The loop adds exactly the nodes of the trace, when it has a pair. */
  lemma {:induction false} WalkAddsTraceKeys(g: GraphView, trace: seq<State>)
    ensures Walk(g, trace).Keys == g.Keys + (if |trace| < 2 then {} else TraceKeys(trace))
    decreases |trace|
  {
    if |trace| >= 2 {
      var front := trace[..|trace| - 1];
      var cur := trace[|trace| - 2];
      var nxt := trace[|trace| - 1];
      WalkAddsTraceKeys(g, front);
      assert TraceKeys(trace) == TraceKeys(front) + {nxt.key};
      assert front[..|front| - 1] + [cur] == front;
      if |trace| == 2 {
        assert front[..|front| - 1] == [];
      }
      assert cur.key in TraceKeys(front);
    }
  }

  /** The loop links every consecutive pair of distinct states, both ways. */
  lemma {:induction false} WalkLinksPairs(g: GraphView, trace: seq<State>)
    ensures var r := Walk(g, trace);
      forall i :: 0 <= i < |trace| - 1 && trace[i].key != trace[i + 1].key ==>
        && trace[i].key in r && trace[i + 1].key in r
        && trace[i + 1].key in r[trace[i].key].next && trace[i].key in r[trace[i + 1].key].prev
    decreases |trace|
  {
    if |trace| >= 2 {
      var front := trace[..|trace| - 1];
      var cur := trace[|trace| - 2];
      var nxt := trace[|trace| - 1];
      var w := Walk(g, front);
      var r := Walk(g, trace);
      WalkLinksPairs(g, front);
      LinkGrows(w, cur, nxt);
      assert Grows(w, r);
      forall i | 0 <= i < |trace| - 1 && trace[i].key != trace[i + 1].key
        ensures trace[i].key in r && trace[i + 1].key in r
        ensures trace[i + 1].key in r[trace[i].key].next && trace[i].key in r[trace[i + 1].key].prev
      {
        if i < |trace| - 2 {
          assert front[i] == trace[i] && front[i + 1] == trace[i + 1];
        }
      }
    }
  }

  /** `Update` panics exactly on an empty trace and on a one-state trace whose key has no node. */
  lemma UpdatePanics(g: GraphView, trace: seq<State>)
    ensures UpdateView(g, trace).None? <==> trace == [] || (|trace| == 1 && trace[0].key !in g)
  {
    if |trace| >= 2 {
      WalkAddsTraceKeys(g, trace);
      assert trace[|trace| - 1] in trace;
    }
  }

  /**
   * After `Update` the graph holds exactly its old keys and the trace's, every existing
   * node keeps its state and its links, and a mirrored graph free of self-loops stays so.
   */
  lemma UpdateKeepsShape(g: GraphView, trace: seq<State>)
    requires UpdateView(g, trace).Some?
    ensures var r := UpdateView(g, trace).value;
      && Grows(g, r)
      && r.Keys == g.Keys + TraceKeys(trace)
      && (Mirrored(g) && NoSelfLoops(g) ==> Mirrored(r) && NoSelfLoops(r))
  {
    var w := Walk(g, trace);
    var r := UpdateView(g, trace).value;
    WalkAddsTraceKeys(g, trace);
    WalkGrows(g, trace);
    GrowsTransitive(g, w, r);
    if |trace| == 1 {
      assert TraceKeys(trace) == {trace[0].key};
    }
    if Mirrored(g) && NoSelfLoops(g) {
      WalkKeepsShape(g, trace);
    }
  }

  /** After `Update` every consecutive pair of distinct states is linked both ways. */
  lemma UpdateLinksPairs(g: GraphView, trace: seq<State>)
    requires UpdateView(g, trace).Some?
    ensures var r := UpdateView(g, trace).value;
      forall i :: 0 <= i < |trace| - 1 && trace[i].key != trace[i + 1].key ==>
        && trace[i].key in r && trace[i + 1].key in r
        && trace[i + 1].key in r[trace[i].key].next && trace[i].key in r[trace[i + 1].key].prev
  {
    WalkLinksPairs(g, trace);
  }

  // ---------------------------------------------------------------------------
  // Visit counts

  ghost function Pick(s: set<int>): (k: int)
    requires s != {}
    ensures k in s
  {
    assert exists x :: x in s by { if forall x :: x !in s { assert false; } }
    var k :| k in s;
    k
  }

  /** The visits of the nodes stored under `keys`. */
  ghost function SumVisits(g: GraphView, keys: set<int>): int
    requires keys <= g.Keys
    decreases |keys|
  {
    if keys == {} then 0 else var k := Pick(keys); g[k].visits + SumVisits(g, keys - {k})
  }

  ghost function TotalVisits(g: GraphView): int {
    SumVisits(g, g.Keys)
  }

  lemma {:induction false} SumVisitsWithout(g: GraphView, keys: set<int>, x: int)
    requires keys <= g.Keys && x in keys
    ensures SumVisits(g, keys) == g[x].visits + SumVisits(g, keys - {x})
    decreases |keys|
  {
    var k := Pick(keys);
    if k != x {
      SumVisitsWithout(g, keys - {k}, x);
      SumVisitsWithout(g, keys - {x}, k);
      assert keys - {k} - {x} == keys - {x} - {k};
    }
  }

  lemma {:induction false} SumVisitsAgree(g1: GraphView, g2: GraphView, keys: set<int>)
    requires keys <= g1.Keys && keys <= g2.Keys
    requires forall k :: k in keys ==> g1[k].visits == g2[k].visits
    ensures SumVisits(g1, keys) == SumVisits(g2, keys)
    decreases |keys|
  {
    if keys != {} {
      SumVisitsAgree(g1, g2, keys - {Pick(keys)});
    }
  }

  /** Storing `v` under `k` changes the total by the difference in visits. */
  lemma TotalVisitsUpdate(g: GraphView, k: int, v: NodeView)
    ensures TotalVisits(g[k := v]) == TotalVisits(g) - (if k in g then g[k].visits else 0) + v.visits
  {
    var g' := g[k := v];
    SumVisitsWithout(g', g'.Keys, k);
    assert g'.Keys - {k} == g.Keys - {k};
    SumVisitsAgree(g, g', g.Keys - {k});
    if k in g {
      SumVisitsWithout(g, g.Keys, k);
    } else {
      assert g.Keys - {k} == g.Keys;
    }
  }

  lemma LinkCountsOneVisit(g: GraphView, cur: State, nxt: State)
    ensures TotalVisits(Link(g, cur, nxt)) == TotalVisits(g) + 1
  {
    var g1 := Ensure(g, cur);
    TotalVisitsUpdate(g, cur.key, NewNode(cur));
    var g2 := Ensure(g1, nxt);
    TotalVisitsUpdate(g1, nxt.key, NewNode(nxt));
    var c := g2[cur.key];
    var g3 := g2[cur.key := c.(visits := c.visits + 1, next := AddUnlessSelf(c.next, nxt.key, cur.key))];
    TotalVisitsUpdate(g2, cur.key, g3[cur.key]);
    var n := g3[nxt.key];
    TotalVisitsUpdate(g3, nxt.key, n.(prev := AddUnlessSelf(n.prev, cur.key, nxt.key)));
  }

  lemma {:induction false} WalkCountsVisits(g: GraphView, trace: seq<State>)
    requires trace != []
    ensures TotalVisits(Walk(g, trace)) == TotalVisits(g) + |trace| - 1
    decreases |trace|
  {
    if |trace| >= 2 {
      var front := trace[..|trace| - 1];
      WalkCountsVisits(g, front);
      LinkCountsOneVisit(Walk(g, front), trace[|trace| - 2], trace[|trace| - 1]);
    }
  }

  /** A successful `Update` raises the total number of visits by the length of the trace. */
  lemma UpdateCountsVisits(g: GraphView, trace: seq<State>)
    requires UpdateView(g, trace).Some?
    ensures TotalVisits(UpdateView(g, trace).value) == TotalVisits(g) + |trace|
  {
    var w := Walk(g, trace);
    var last := trace[|trace| - 1].key;
    WalkCountsVisits(g, trace);
    TotalVisitsUpdate(w, last, w[last].(visits := w[last].visits + 1));
  }
}
