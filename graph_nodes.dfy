/**
 * The node store that both copies of analyze_graph.py read and annotate, and the
 * depth pass they share: start-node detection and the FIFO worklist that gives
 * nodes a Depth.
 *
 * The worklist loop is specified by `Run`, which performs one dequeue per unit of
 * fuel. The loop does not always terminate (see `EmptyPrevCycleNeverFinishes`), so
 * every run carries a bound and reports `OutOfFuel` when the bound is reached.
 */
module GraphNodes {
  import opened Common

  /** A key of the "Nodes" object. */
  type Key = string

  /** A (source, destination) pair collected by the layout variant. */
  type Edge = (Key, Key)

  /** One entry of "Nodes". Every field that the scripts test with `in` is optional. */
  datatype Node = Node(
    key: Option<int>,          // "Key": the tracer's own identifier
    prev: Option<seq<Key>>,    // the keys of "Prev", in document order
    next: Option<seq<Key>>,    // the keys of "Next", in document order
    depth: Option<int>,        // "Depth"
    sibling: Option<int>)      // "Sibling"

  type Nodes = map<Key, Node>

  /** The node store, annotated in place; `order` is the document order of its keys. */
  class Graph {
    var nodes: Nodes
    const order: seq<Key>

    ghost predicate Valid()
      reads this
    {
      Distinct(order) && forall k :: k in nodes <==> k in order
    }

    constructor (nodes: Nodes, order: seq<Key>)
      ensures this.nodes == nodes && this.order == order
    {
      this.nodes := nodes;
      this.order := order;
    }
  }

  // ---------------------------------------------------------------------------
  // Start nodes

  /** A start node has no "Prev" field, or an empty one. */
  predicate IsStart(n: Node) {
    n.prev.None? || n.prev.value == []
  }

  ghost function StartSet(nodes: Nodes): set<Key> {
    set k | k in nodes && IsStart(nodes[k])
  }

  /** The first loop of `analyze`: every key whose node lacks "Prev" or has an empty one. */
  method FindStartStates(nodes: Nodes) returns (starts: set<Key>)
    ensures forall k :: k in starts <==> k in nodes && (nodes[k].prev.None? || nodes[k].prev == Some([]))
  {
    starts := {};
    var todo := nodes.Keys;
    while todo != {}
      invariant todo <= nodes.Keys
      invariant forall k :: k in starts <==> k in nodes && k !in todo && IsStart(nodes[k])
      decreases todo
    {
      var k :| k in todo;
      if IsStart(nodes[k]) {
        starts := starts + {k};
      }
      todo := todo - {k};
    }
  }

  /** `list(s)`: the elements of a set, once each, in an order the model leaves open. */
  method ListOf(s: set<Key>) returns (r: seq<Key>)
    ensures Distinct(r)
    ensures forall k :: k in r <==> k in s
  {
    r := [];
    var rest := s;
    while rest != {}
      invariant rest <= s
      invariant Distinct(r)
      invariant forall k :: k in r <==> k in s && k !in rest
      decreases rest
    {
      var k :| k in rest;
      r := r + [k];
      rest := rest - {k};
    }
  }

  // ---------------------------------------------------------------------------
  // One dequeue

  /** The candidate depths `pred.Depth + 1` over the listed predecessors that have a depth. */
  ghost function Candidates(nodes: Nodes, ps: seq<Key>): set<int> {
    set p | p in ps && p in nodes && nodes[p].depth.Some? :: nodes[p].depth.value + 1
  }

  /**
   * The loop over "Prev": looks every predecessor up in order, collecting candidate
   * depths, and fails at the first predecessor that is not a node.
   */
  ghost function ScanPrev(nodes: Nodes, ps: seq<Key>): (r: Result<set<int>, Key>)
    ensures r.Success? ==> (forall p :: p in ps ==> p in nodes) && r.value == Candidates(nodes, ps)
    ensures r.Failure? ==>
      exists i :: 0 <= i < |ps| && ps[i] == r.error && r.error !in nodes && forall j :: 0 <= j < i ==> ps[j] in nodes
    decreases |ps|
  {
    if ps == [] then Success({})
    else
      var front := ps[..|ps| - 1];
      var p := ps[|ps| - 1];
      assert forall x :: x in ps <==> x in front || x == p;
      assert forall j :: 0 <= j < |front| ==> front[j] == ps[j];
      match ScanPrev(nodes, front)
      case Failure(k) => Failure(k)
      case Success(ds) =>
        if p !in nodes then Failure(p)
        else if nodes[p].depth.Some? then Success(ds + {nodes[p].depth.value + 1})
        else Success(ds)
  }

  lemma {:induction false} ScanPrevKeepsFailure(nodes: Nodes, ps: seq<Key>, i: nat)
    requires i <= |ps| && ScanPrev(nodes, ps[..i]).Failure?
    ensures ScanPrev(nodes, ps) == ScanPrev(nodes, ps[..i])
    decreases |ps| - i
  {
    if i < |ps| {
      var front := ps[..|ps| - 1];
      assert front[..i] == ps[..i];
      ScanPrevKeepsFailure(nodes, front, i);
    } else {
      assert ps[..i] == ps;
    }
  }

  lemma LeastExists(s: set<int>)
    requires s != {}
    ensures exists m :: m in s && forall x :: x in s ==> m <= x
  {
    assert exists x :: x in s by { if forall x :: x !in s { assert false; } }
    var y :| y in s;
    if s != {y} {
      LeastExists(s - {y});
      var m :| m in s - {y} && forall x :: x in s - {y} ==> m <= x;
      var least := if y < m then y else m;
      forall x | x in s
        ensures least <= x
      {
        if x != y {
          assert x in s - {y};
        }
      }
      assert least in s;
    } else {
      assert forall x :: x in s ==> y <= x;
    }
  }

  /** The least element of a non-empty set (Python's `min`). */
  ghost function Least(s: set<int>): (m: int)
    requires s != {}
    ensures m in s && forall x :: x in s ==> m <= x
  {
    LeastExists(s);
    var m :| m in s && forall x :: x in s ==> m <= x;
    m
  }

  /** `min(list(depths))`. */
  method MinOf(s: set<int>) returns (m: int)
    requires s != {}
    ensures m in s && forall x :: x in s ==> m <= x
  {
    assert exists x :: x in s by { if forall x :: x !in s { assert false; } }
    m :| m in s;
    var rest := s - {m};
    while rest != {}
      invariant rest <= s && m in s
      invariant forall x :: x in s && x !in rest ==> m <= x
      decreases rest
    {
      assert exists x :: x in rest by { if forall x :: x !in rest { assert false; } }
      var x :| x in rest;
      if x < m {
        m := x;
      }
      rest := rest - {x};
    }
  }

  /** The keys of "Next", or none when the field is absent. */
  function Successors(n: Node): seq<Key> {
    if n.next.Some? then n.next.value else []
  }

  /** What one dequeue of a key does. */
  datatype Dequeue =
    | Missing(key: Key)                                  // a lookup raised KeyError
    | Skipped                                            // the node already had a depth
    | Expanded(nodes: Nodes, successors: seq<Key>)       // the new node map and the keys to enqueue

  /**
   * One iteration of the worklist loop, for the dequeued key `cur`. A KeyError is raised
   * exactly when `cur` or, for a node without a depth, one of its predecessors is not a
   * node; a node that has a depth is skipped; any other node is expanded, and expanding
   * touches no node but `cur` and nothing of `cur` but its depth.
   */
  ghost function Visit(nodes: Nodes, cur: Key): (v: Dequeue)
    ensures v.Missing? <==>
      cur !in nodes || (nodes[cur].depth.None? && nodes[cur].prev.Some? && exists p :: p in nodes[cur].prev.value && p !in nodes)
    ensures v.Missing? ==> v.key !in nodes
    ensures v.Skipped? <==> cur in nodes && nodes[cur].depth.Some?
    ensures v.Expanded? ==>
      && Extends(nodes, v.nodes)
      && (forall k :: k in nodes && k != cur ==> v.nodes[k] == nodes[k])
      && v.successors == Successors(nodes[cur])
  {
    if cur !in nodes then Missing(cur)
    else
      var n := nodes[cur];
      if n.depth.Some? then Skipped
      else match n.prev
        case None => Expanded(nodes[cur := n.(depth := Some(0))], Successors(n))
        case Some(ps) =>
          match ScanPrev(nodes, ps)
          case Failure(p) => Missing(p)
          case Success(ds) =>
            if ds == {} then Expanded(nodes, Successors(n))
            else Expanded(nodes[cur := n.(depth := Some(Least(ds)))], Successors(n))
  }

  /** The result of one dequeue, as the imperative loop sees it. */
  datatype Step = Miss(key: Key) | Skip | Expand(successors: seq<Key>)

  /** Lines 15-28 of the script: pop one key and give its node a depth if it can have one. */
  method VisitNode(g: Graph, cur: Key) returns (step: Step)
    modifies g`nodes
    ensures match Visit(old(g.nodes), cur)
      case Missing(k) => step == Miss(k) && g.nodes == old(g.nodes)
      case Skipped => step == Skip && g.nodes == old(g.nodes)
      case Expanded(after, succ) => step == Expand(succ) && g.nodes == after
  {
    if cur !in g.nodes {
      return Miss(cur);
    }
    var node := g.nodes[cur];
    if node.depth.Some? {
      return Skip;
    }
    if node.prev.Some? {
      var ps := node.prev.value;
      var depths: set<int> := {};
      var i := 0;
      while i < |ps|
        invariant 0 <= i <= |ps|
        invariant g.nodes == old(g.nodes)
        invariant ScanPrev(g.nodes, ps[..i]) == Success(depths)
      {
        var p := ps[i];
        assert ps[..i + 1][..i] == ps[..i];
        if p !in g.nodes {
          ScanPrevKeepsFailure(g.nodes, ps, i + 1);
          return Miss(p);
        }
        if g.nodes[p].depth.Some? {
          depths := depths + {g.nodes[p].depth.value + 1};
        }
        i := i + 1;
      }
      assert ps[..|ps|] == ps;
      assert ScanPrev(g.nodes, ps) == Success(depths);
      if depths != {} {
        var m := MinOf(depths);
        assert m == Least(depths);
        g.nodes := g.nodes[cur := node.(depth := Some(m))];
      }
    } else {
      g.nodes := g.nodes[cur := node.(depth := Some(0))];
    }
    step := Expand(Successors(node));
  }

  // ---------------------------------------------------------------------------
  // The worklist loop

  /** `edges[(cur, next)] = [cur, next]`: a pair already present keeps its place. */
  function AddEdge(edges: seq<Edge>, e: Edge): seq<Edge> {
    if e in edges then edges else edges + [e]
  }

  /** The edges recorded while enqueueing the successors of `cur`. */
  function AddEdges(edges: seq<Edge>, cur: Key, succ: seq<Key>): seq<Edge>
    decreases |succ|
  {
    if succ == [] then edges
    else AddEdge(AddEdges(edges, cur, succ[..|succ| - 1]), (cur, succ[|succ| - 1]))
  }

  datatype Status = Finished | LookupFailed(key: Key) | OutOfFuel(pending: seq<Key>)

  /** The node map and edge list when the loop stops, and why it stopped. */
  datatype Outcome = Outcome(nodes: Nodes, edges: seq<Edge>, status: Status)

  /** The worklist loop from queue `q`, allowed `fuel` more dequeues. */
  ghost function Run(nodes: Nodes, q: seq<Key>, edges: seq<Edge>, fuel: nat): Outcome
    decreases fuel
  {
    if q == [] then Outcome(nodes, edges, Finished)
    else if fuel == 0 then Outcome(nodes, edges, OutOfFuel(q))
    else match Visit(nodes, q[0])
      case Missing(k) => Outcome(nodes, edges, LookupFailed(k))
      case Skipped => Run(nodes, q[1..], edges, fuel - 1)
      case Expanded(after, succ) => Run(after, q[1..] + succ, AddEdges(edges, q[0], succ), fuel - 1)
  }

  /**
   * The worklist loop of both scripts (pop the head, visit it, append its "Next" keys and
   * record the pairs), run for at most `fuel` dequeues from the queue `start`.
   */
  method Worklist(g: Graph, start: seq<Key>, fuel: nat) returns (edges: seq<Edge>, status: Status)
    modifies g`nodes
    ensures Run(old(g.nodes), start, [], fuel) == Outcome(g.nodes, edges, status)
  {
    var q := start;
    edges := [];
    var steps := fuel;
    while q != [] && steps > 0
      invariant Run(g.nodes, q, edges, steps) == Run(old(g.nodes), start, [], fuel)
      decreases steps
    {
      var cur := q[0];
      var step := VisitNode(g, cur);
      match step {
        case Miss(k) =>
          return edges, LookupFailed(k);
        case Skip =>
          q := q[1..];
        case Expand(succ) =>
          var rest := q[1..];
          var edges0 := edges;
          q := rest;
          var i := 0;
          while i < |succ|
            invariant 0 <= i <= |succ|
            invariant q == rest + succ[..i]
            invariant edges == AddEdges(edges0, cur, succ[..i])
          {
            assert succ[..i + 1][..i] == succ[..i];
            edges := AddEdge(edges, (cur, succ[i]));
            q := q + [succ[i]];
            i := i + 1;
          }
          assert succ[..i] == succ;
      }
      steps := steps - 1;
    }
    status := if q == [] then Finished else OutOfFuel(q);
  }

  // ---------------------------------------------------------------------------
  // What the loop guarantees

  /** `after` is `before` with depths added: same keys, every other field kept, no depth changed. */
  ghost predicate Extends(before: Nodes, after: Nodes) {
    && before.Keys == after.Keys
    && (forall k :: k in before ==> after[k] == before[k].(depth := after[k].depth))
    && (forall k :: k in before && before[k].depth.Some? ==> after[k].depth == before[k].depth)
  }

  /**
   * A dequeued node without a depth gets 0 when it has no "Prev" field; otherwise it gets
   * the least `pred.Depth + 1` over the predecessors that have a depth at that moment, and
   * no depth when none of them has one.
   */
  lemma VisitAssignsLeastCandidate(nodes: Nodes, cur: Key)
    requires cur in nodes && nodes[cur].depth.None?
    requires nodes[cur].prev.Some? ==> forall p :: p in nodes[cur].prev.value ==> p in nodes
    ensures Visit(nodes, cur).Expanded?
    ensures var d := Visit(nodes, cur).nodes[cur].depth; var n := nodes[cur];
      && (n.prev.None? ==> d == Some(0))
      && (n.prev.Some? ==>
            && (d.None? <==> forall p :: p in n.prev.value ==> nodes[p].depth.None?)
            && (d.Some? ==> exists p :: p in n.prev.value && nodes[p].depth == Some(d.value - 1))
            && (d.Some? ==> forall p :: p in n.prev.value && nodes[p].depth.Some? ==> d.value <= nodes[p].depth.value + 1))
  {
    var n := nodes[cur];
    if n.prev.Some? {
      var ps := n.prev.value;
      var ds := Candidates(nodes, ps);
      assert ScanPrev(nodes, ps) == Success(ds);
      forall p | p in ps && nodes[p].depth.Some?
        ensures nodes[p].depth.value + 1 in ds
      {
      }
      if ds != {} {
        var m := Least(ds);
        assert Visit(nodes, cur).nodes[cur].depth == Some(m);
      }
    }
  }

  /** The depth of `k` is explained by its node: 0 without "Prev", else one more than a predecessor's. */
  ghost predicate DepthJustified(nodes: Nodes, k: Key) {
    && k in nodes
    && nodes[k].depth.Some?
    && match nodes[k].prev
       case None => nodes[k].depth.value == 0
       case Some(ps) => exists p :: p in ps && p in nodes && nodes[p].depth == Some(nodes[k].depth.value - 1)
  }

  /** Every depth that `after` has and `before` lacks is justified in `after`. */
  ghost predicate Justified(before: Nodes, after: Nodes) {
    forall k :: k in before && before[k].depth.None? && k in after && after[k].depth.Some? ==> DepthJustified(after, k)
  }

  ghost predicate DepthsNonNegative(nodes: Nodes) {
    forall k :: k in nodes && nodes[k].depth.Some? ==> nodes[k].depth.value >= 0
  }

  /** The worklist loop only adds depths: no node appears or disappears and no depth is overwritten. */
  lemma {:induction false} RunOnlyAddsDepths(nodes: Nodes, q: seq<Key>, edges: seq<Edge>, fuel: nat)
    ensures Extends(nodes, Run(nodes, q, edges, fuel).nodes)
    decreases fuel
  {
    if q != [] && fuel > 0 {
      match Visit(nodes, q[0])
      case Missing(_) =>
      case Skipped =>
        RunOnlyAddsDepths(nodes, q[1..], edges, fuel - 1);
      case Expanded(after, succ) =>
        RunOnlyAddsDepths(after, q[1..] + succ, AddEdges(edges, q[0], succ), fuel - 1);
    }
  }

  lemma VisitKeepsJustified(n0: Nodes, n1: Nodes, cur: Key)
    requires Extends(n0, n1) && Justified(n0, n1)
    requires Visit(n1, cur).Expanded?
    ensures Extends(n0, Visit(n1, cur).nodes) && Justified(n0, Visit(n1, cur).nodes)
  {
    var n2 := Visit(n1, cur).nodes;
    forall k | k in n0 && n0[k].depth.None? && k in n2 && n2[k].depth.Some?
      ensures DepthJustified(n2, k)
    {
      var d := n2[k].depth.value;
      if k == cur {
        if n1[cur].prev.Some? {
          var ps := n1[cur].prev.value;
          VisitAssignsLeastCandidate(n1, cur);
          var p :| p in ps && n1[p].depth == Some(d - 1);
          assert p != cur;
        }
      } else {
        assert DepthJustified(n1, k);
        if n1[k].prev.Some? {
          var p :| p in n1[k].prev.value && p in n1 && n1[p].depth == Some(d - 1);
          assert p != cur;
        }
      }
    }
  }

  lemma {:induction false} RunKeepsJustified(n0: Nodes, n1: Nodes, q: seq<Key>, edges: seq<Edge>, fuel: nat)
    requires Extends(n0, n1) && Justified(n0, n1)
    ensures Justified(n0, Run(n1, q, edges, fuel).nodes)
    decreases fuel
  {
    if q != [] && fuel > 0 {
      match Visit(n1, q[0])
      case Missing(_) =>
      case Skipped =>
        RunKeepsJustified(n0, n1, q[1..], edges, fuel - 1);
      case Expanded(after, succ) =>
        VisitKeepsJustified(n0, n1, q[0]);
        RunKeepsJustified(n0, after, q[1..] + succ, AddEdges(edges, q[0], succ), fuel - 1);
    }
  }

  /**
   * Every depth the loop assigns is explained by the final map: 0 for a node without "Prev",
   * otherwise one more than the depth of one of its predecessors.
   */
  lemma RunJustifiesDepths(nodes: Nodes, q: seq<Key>, edges: seq<Edge>, fuel: nat)
    ensures Justified(nodes, Run(nodes, q, edges, fuel).nodes)
  {
    RunKeepsJustified(nodes, nodes, q, edges, fuel);
  }

  /** When the input carries no negative depth, neither does the output. */
  lemma {:induction false} RunKeepsDepthsNonNegative(nodes: Nodes, q: seq<Key>, edges: seq<Edge>, fuel: nat)
    requires DepthsNonNegative(nodes)
    ensures DepthsNonNegative(Run(nodes, q, edges, fuel).nodes)
    decreases fuel
  {
    if q != [] && fuel > 0 {
      match Visit(nodes, q[0])
      case Missing(_) =>
      case Skipped =>
        RunKeepsDepthsNonNegative(nodes, q[1..], edges, fuel - 1);
      case Expanded(after, succ) =>
        var cur := q[0];
        if nodes[cur].prev.Some? && after[cur].depth.Some? {
          VisitAssignsLeastCandidate(nodes, cur);
        }
        assert DepthsNonNegative(after);
        RunKeepsDepthsNonNegative(after, q[1..] + succ, AddEdges(edges, q[0], succ), fuel - 1);
    }
  }

  /** A node with an empty "Prev" map is a start node, yet it never receives a depth. */
  lemma {:induction false} EmptyPrevStartGetsNoDepth(nodes: Nodes, q: seq<Key>, edges: seq<Edge>, fuel: nat, s: Key)
    requires s in nodes && nodes[s].prev == Some([]) && nodes[s].depth.None?
    ensures s in StartSet(nodes)
    ensures s in Run(nodes, q, edges, fuel).nodes && Run(nodes, q, edges, fuel).nodes[s].depth.None?
    decreases fuel
  {
    RunOnlyAddsDepths(nodes, q, edges, fuel);
    if q != [] && fuel > 0 {
      match Visit(nodes, q[0])
      case Missing(_) =>
      case Skipped =>
        EmptyPrevStartGetsNoDepth(nodes, q[1..], edges, fuel - 1, s);
      case Expanded(after, succ) =>
        if q[0] == s {
          assert ScanPrev(nodes, []) == Success({});
        }
        EmptyPrevStartGetsNoDepth(after, q[1..] + succ, AddEdges(edges, q[0], succ), fuel - 1, s);
    }
  }

  /** The edges recorded for one expansion: pairs already present keep their place, new ones are appended once. */
  lemma {:induction false} AddEdgesRecordsPairs(edges: seq<Edge>, cur: Key, succ: seq<Key>)
    requires Distinct(edges)
    ensures var r := AddEdges(edges, cur, succ);
      && Distinct(r)
      && edges <= r
      && forall e :: e in r <==> e in edges || (e.0 == cur && e.1 in succ)
    decreases |succ|
  {
    if succ != [] {
      var front := succ[..|succ| - 1];
      AddEdgesRecordsPairs(edges, cur, front);
      assert forall x :: x in succ <==> x in front || x == succ[|succ| - 1];
    }
  }

  /** The keys the loop from queue `q` expands (dequeues without skipping) within `fuel` dequeues. */
  ghost function ExpandedKeys(nodes: Nodes, q: seq<Key>, fuel: nat): set<Key>
    decreases fuel
  {
    if q == [] || fuel == 0 then {}
    else match Visit(nodes, q[0])
      case Missing(_) => {}
      case Skipped => ExpandedKeys(nodes, q[1..], fuel - 1)
      case Expanded(after, succ) => {q[0]} + ExpandedKeys(after, q[1..] + succ, fuel - 1)
  }

  /**
   * The edge list in `out` has no duplicate pair and keeps the pairs of `edges` in their
   * places; the `expanded` keys are nodes that had no depth in `nodes`; a pair is in `out`
   * exactly when it was in `edges` or is a "Next" entry of an expanded node; and every node
   * that had no depth in `nodes` and has one in `out` was expanded.
   */
  ghost predicate RecordsEdges(nodes: Nodes, edges: seq<Edge>, out: Outcome, expanded: set<Key>) {
    && Distinct(out.edges)
    && edges <= out.edges
    && (forall k :: k in expanded ==> k in nodes && nodes[k].depth.None?)
    && (forall e :: e in out.edges <==>
          e in edges || (e.0 in expanded && e.0 in nodes && e.1 in Successors(nodes[e.0])))
    && (forall k :: k in nodes && nodes[k].depth.None? && k in out.nodes && out.nodes[k].depth.Some? ==> k in expanded)
  }

  /**
   * The edge list the loop builds has no duplicate pair, keeps the pairs it started with in
   * their places, and adds exactly the "Next" entries of the nodes it expands: nodes that
   * arrived without a depth, including every node the loop gives a depth and every node it
   * expands without giving it one.
   */
  lemma {:induction false} RunRecordsEdges(nodes: Nodes, q: seq<Key>, edges: seq<Edge>, fuel: nat)
    requires Distinct(edges)
    ensures RecordsEdges(nodes, edges, Run(nodes, q, edges, fuel), ExpandedKeys(nodes, q, fuel))
    decreases fuel
  {
    if q == [] || fuel == 0 {
      var status := Run(nodes, q, edges, fuel).status;
      StopRecordsEdges(nodes, edges, status);
      assert Run(nodes, q, edges, fuel) == Outcome(nodes, edges, status);
      assert ExpandedKeys(nodes, q, fuel) == {};
    } else {
      match Visit(nodes, q[0])
      case Missing(k) =>
        StopRecordsEdges(nodes, edges, LookupFailed(k));
        assert Run(nodes, q, edges, fuel) == Outcome(nodes, edges, LookupFailed(k));
        assert ExpandedKeys(nodes, q, fuel) == {};
      case Skipped =>
        RunRecordsEdges(nodes, q[1..], edges, fuel - 1);
        assert Run(nodes, q, edges, fuel) == Run(nodes, q[1..], edges, fuel - 1);
        assert ExpandedKeys(nodes, q, fuel) == ExpandedKeys(nodes, q[1..], fuel - 1);
      case Expanded(after, succ) =>
        var edges' := AddEdges(edges, q[0], succ);
        AddEdgesRecordsPairs(edges, q[0], succ);
        var out := Run(after, q[1..] + succ, edges', fuel - 1);
        var expanded := ExpandedKeys(after, q[1..] + succ, fuel - 1);
        RunRecordsEdges(after, q[1..] + succ, edges', fuel - 1);
        RunOnlyAddsDepths(after, q[1..] + succ, edges', fuel - 1);
        ExpandedRecordsEdges(nodes, q[0], edges, after, succ, out, expanded);
        assert Run(nodes, q, edges, fuel) == out;
        assert ExpandedKeys(nodes, q, fuel) == {q[0]} + expanded;
    }
  }

  /** A loop that stops before expanding anything leaves the edge list as it was. */
  lemma StopRecordsEdges(nodes: Nodes, edges: seq<Edge>, status: Status)
    requires Distinct(edges)
    ensures RecordsEdges(nodes, edges, Outcome(nodes, edges, status), {})
  {
  }

  /** One expansion followed by a run that records its edges records the edges of both. */
  lemma ExpandedRecordsEdges(nodes: Nodes, cur: Key, edges: seq<Edge>, after: Nodes, succ: seq<Key>, out: Outcome, expanded: set<Key>)
    requires Distinct(edges)
    requires Visit(nodes, cur) == Expanded(after, succ)
    requires RecordsEdges(after, AddEdges(edges, cur, succ), out, expanded)
    requires Extends(after, out.nodes)
    ensures RecordsEdges(nodes, edges, out, {cur} + expanded)
  {
    var edges' := AddEdges(edges, cur, succ);
    AddEdgesRecordsPairs(edges, cur, succ);
    forall k | k in expanded
      ensures k in nodes && nodes[k].depth.None? && Successors(after[k]) == Successors(nodes[k])
    {
      assert after[k] == nodes[k].(depth := after[k].depth);
    }
    forall k | k in nodes && nodes[k].depth.None? && k in out.nodes && out.nodes[k].depth.Some? && k != cur
      ensures k in expanded
    {
      assert after[k] == nodes[k];
    }
  }

  /**
   * When the loop empties its queue, every key it was given names a node, and every node
   * without "Prev" among them ends with a depth.
   */
  lemma {:induction false} RunFinishedDequeuesAll(nodes: Nodes, q: seq<Key>, edges: seq<Edge>, fuel: nat)
    requires Run(nodes, q, edges, fuel).status.Finished?
    ensures forall k :: k in q ==> k in nodes && k in Run(nodes, q, edges, fuel).nodes
    ensures forall k :: k in q && k in nodes && nodes[k].prev.None? ==> Run(nodes, q, edges, fuel).nodes[k].depth.Some?
    decreases fuel, 1
  {
    if q != [] {
      var cur := q[0];
      var out := Run(nodes, q, edges, fuel).nodes;
      RunOnlyAddsDepths(nodes, q, edges, fuel);
      match Visit(nodes, cur)
      case Skipped =>
        RunFinishedDequeuesAll(nodes, q[1..], edges, fuel - 1);
        assert forall k :: k in q ==> k == cur || k in q[1..];
      case Expanded(after, succ) =>
        ExpandedDequeuesAll(nodes, q, edges, fuel, after, succ);
    }
  }

  /** The step of RunFinishedDequeuesAll where the head of the queue is expanded. */
  lemma {:induction false} ExpandedDequeuesAll(nodes: Nodes, q: seq<Key>, edges: seq<Edge>, fuel: nat, after: Nodes, succ: seq<Key>)
    requires q != [] && fuel > 0 && Visit(nodes, q[0]) == Expanded(after, succ)
    requires Run(nodes, q, edges, fuel).status.Finished?
    ensures forall k :: k in q ==> k in nodes && k in Run(nodes, q, edges, fuel).nodes
    ensures forall k :: k in q && k in nodes && nodes[k].prev.None? ==> Run(nodes, q, edges, fuel).nodes[k].depth.Some?
    decreases fuel, 0
  {
    var cur := q[0];
    var q' := q[1..] + succ;
    var edges' := AddEdges(edges, cur, succ);
    var out := Run(after, q', edges', fuel - 1).nodes;
    assert out == Run(nodes, q, edges, fuel).nodes;
    RunFinishedDequeuesAll(after, q', edges', fuel - 1);
    RunOnlyAddsDepths(after, q', edges', fuel - 1);
    forall k | k in q
      ensures k in nodes && k in out && (nodes[k].prev.None? ==> out[k].depth.Some?)
    {
      if k != cur {
        assert k in q';
      }
    }
  }

  /** When the loop empties its queue, the destination of every edge it recorded names a node. */
  lemma {:induction false} RunFinishedEdgesEndAtNodes(nodes: Nodes, q: seq<Key>, edges: seq<Edge>, fuel: nat)
    requires Run(nodes, q, edges, fuel).status.Finished?
    ensures forall e :: e in Run(nodes, q, edges, fuel).edges && e !in edges ==> e.1 in Run(nodes, q, edges, fuel).nodes
    decreases fuel
  {
    if q != [] {
      var cur := q[0];
      match Visit(nodes, cur)
      case Skipped =>
        RunFinishedEdgesEndAtNodes(nodes, q[1..], edges, fuel - 1);
      case Expanded(after, succ) =>
        var q' := q[1..] + succ;
        var edges' := AddEdges(edges, cur, succ);
        var out := Run(after, q', edges', fuel - 1);
        AddEdgesRecordsPairsOnly(edges, cur, succ);
        RunFinishedEdgesEndAtNodes(after, q', edges', fuel - 1);
        RunFinishedDequeuesAll(after, q', edges', fuel - 1);
        forall e | e in out.edges && e !in edges
          ensures e.1 in out.nodes
        {
          if e in edges' {
            assert e.1 in q';
          }
        }
    }
  }

  /** Membership in the edges recorded for one expansion, without the distinctness hypothesis. */
  lemma {:induction false} AddEdgesRecordsPairsOnly(edges: seq<Edge>, cur: Key, succ: seq<Key>)
    ensures forall e :: e in AddEdges(edges, cur, succ) <==> e in edges || (e.0 == cur && e.1 in succ)
    decreases |succ|
  {
    if succ != [] {
      var front := succ[..|succ| - 1];
      AddEdgesRecordsPairsOnly(edges, cur, front);
      assert forall x :: x in succ <==> x in front || x == succ[|succ| - 1];
    }
  }

  // ---------------------------------------------------------------------------
  // A graph on which the loop never stops

  /**
   * `s` has an empty "Prev" map and leads to `a`; `a` and `b` form a cycle. The map is
   * consistent ("Prev" mirrors "Next"), and `s` is its only start node.
   */
  function CycleBelowEmptyStart(): Nodes {
    map[
      "s" := Node(None, Some([]), Some(["a"]), None, None),
      "a" := Node(None, Some(["s", "b"]), Some(["b"]), None, None),
      "b" := Node(None, Some(["a"]), Some(["a"]), None, None)]
  }

  lemma {:induction false} CycleKeepsTurning(edges: seq<Edge>, fuel: nat)
    ensures Run(CycleBelowEmptyStart(), ["a"], edges, fuel).status.OutOfFuel?
    ensures Run(CycleBelowEmptyStart(), ["b"], edges, fuel).status.OutOfFuel?
    decreases fuel
  {
    var g := CycleBelowEmptyStart();
    if fuel > 0 {
      assert ScanPrev(g, ["s", "b"]) == Success({}) by {
        assert ["s", "b"][..1] == ["s"];
        assert ["s"][..0] == [];
      }
      assert ScanPrev(g, ["a"]) == Success({}) by {
        assert ["a"][..0] == [];
      }
      assert Visit(g, "a") == Expanded(g, ["b"]);
      assert Visit(g, "b") == Expanded(g, ["a"]);
      assert ["a"][1..] + ["b"] == ["b"];
      assert ["b"][1..] + ["a"] == ["a"];
      CycleKeepsTurning(AddEdges(edges, "a", ["b"]), fuel - 1);
      CycleKeepsTurning(AddEdges(edges, "b", ["a"]), fuel - 1);
    }
  }

  /**
   * Started from its start set, the loop never empties its queue on this graph, whatever the
   * bound, and `s` keeps no depth: the script hangs.
   */
  lemma EmptyPrevCycleNeverFinishes(fuel: nat)
    ensures StartSet(CycleBelowEmptyStart()) == {"s"}
    ensures Run(CycleBelowEmptyStart(), ["s"], [], fuel).status.OutOfFuel?
  {
    var g := CycleBelowEmptyStart();
    assert "a" !in StartSet(g) && "b" !in StartSet(g);
    if fuel > 0 {
      assert ScanPrev(g, []) == Success({});
      assert Visit(g, "s") == Expanded(g, ["a"]);
      assert ["s"][1..] + ["a"] == ["a"];
      CycleKeepsTurning(AddEdges([], "s", ["a"]), fuel - 1);
    }
  }
}
