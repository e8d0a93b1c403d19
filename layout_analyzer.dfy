/**
 * scripts/visualize/analyze_graph.py: the depth pass of analyze_graph.py, which here also
 * records every (node, next) pair it enqueues, followed by a layout pass that numbers the
 * nodes of each depth by ascending "Key" and stores the number as "Sibling".
 */
module LayoutAnalyzer {
  import opened Common
  import opened GraphNodes

  // ---------------------------------------------------------------------------
  // Python's str on integers

  function DigitChar(d: nat): (c: char)
    requires d < 10
    ensures '0' <= c <= '9'
  {
    "0123456789"[d]
  }

  /** The decimal digits of `n`, most significant first, without leading zeros. */
  function Digits(n: nat): (s: string)
    ensures |s| >= 1 && forall i :: 0 <= i < |s| ==> '0' <= s[i] <= '9'
    ensures (|s| == 1) == (n < 10)
    decreases n
  {
    if n < 10 then [DigitChar(n)] else Digits(n / 10) + [DigitChar(n % 10)]
  }

  /**
   * `str(n)` for an integer: a minus sign when negative, then the decimal digits. It is
   * never a field name such as "Depth" or "Key".
   */
  function DecimalString(n: int): (s: string)
    ensures |s| >= 1 && (s[0] == '-' <==> n < 0)
    ensures forall i :: 0 < i < |s| ==> '0' <= s[i] <= '9'
    ensures s != "Depth" && s != "Key"
  {
    if n < 0 then "-" + Digits(-n) else Digits(n)
  }

  // ---------------------------------------------------------------------------
  // Grouping by depth

  /**
   * The dictionary `depths`: its keys in insertion order, and the set of "Key" values
   * collected under each.
   */
  datatype Grouping = Grouping(depthOrder: seq<int>, groups: map<int, set<int>>)

  /**
   * The first loop of the layout pass over the nodes listed in `order`: nodes that already
   * have "Sibling" are passed over; any other node must have "Depth" and then "Key", and the
   * KeyError names the field that is missing.
   */
  ghost function GroupFrom(nodes: Nodes, order: seq<Key>): Result<Grouping, Key>
    requires forall k :: k in order ==> k in nodes
    decreases |order|
  {
    if order == [] then Success(Grouping([], map[]))
    else
      match GroupFrom(nodes, order[..|order| - 1])
      case Failure(e) => Failure(e)
      case Success(gr) =>
        var n := nodes[order[|order| - 1]];
        if n.sibling.Some? then Success(gr)
        else if n.depth.None? then Failure("Depth")
        else if n.key.None? then Failure("Key")
        else if n.depth.value in gr.groups then
          Success(Grouping(gr.depthOrder, gr.groups[n.depth.value := gr.groups[n.depth.value] + {n.key.value}]))
        else
          Success(Grouping(gr.depthOrder + [n.depth.value], gr.groups[n.depth.value := {n.key.value}]))
  }

  /** The nodes of `order` that lack "Sibling": they are the ones the layout pass numbers. */
  ghost predicate Unranked(nodes: Nodes, order: seq<Key>, k: Key) {
    k in order && k in nodes && nodes[k].sibling.None?
  }

  /** The "Key" values of the unnumbered nodes at depth `d`. */
  ghost function Peers(nodes: Nodes, order: seq<Key>, d: int): set<int> {
    set k | k in order && k in nodes && nodes[k].sibling.None? && nodes[k].depth == Some(d) && nodes[k].key.Some? :: nodes[k].key.value
  }

  /** Adding one node to the end of `order` adds at most its key to one depth's peers. */
  lemma PeersOfLonger(nodes: Nodes, order: seq<Key>, d: int)
    requires order != [] && forall k :: k in order ==> k in nodes
    ensures var last := order[|order| - 1]; var n := nodes[last];
      Peers(nodes, order, d) == Peers(nodes, order[..|order| - 1], d) +
        (if n.sibling.None? && n.depth == Some(d) && n.key.Some? then {n.key.value} else {})
  {
    var front := order[..|order| - 1];
    var last := order[|order| - 1];
    assert forall k :: k in order <==> k in front || k == last;
    assert forall x :: x in Peers(nodes, front, d) ==> x in Peers(nodes, order, d);
  }

  /** The grouping fails exactly when an unnumbered node lacks "Depth" or "Key", and names that field. */
  lemma {:induction false} GroupingFailsOnMissingField(nodes: Nodes, order: seq<Key>)
    requires forall k :: k in order ==> k in nodes
    ensures GroupFrom(nodes, order).Failure? <==>
      exists k :: Unranked(nodes, order, k) && (nodes[k].depth.None? || nodes[k].key.None?)
    ensures GroupFrom(nodes, order).Failure? ==> GroupFrom(nodes, order).error in ["Depth", "Key"]
    decreases |order|
  {
    if order != [] {
      var front := order[..|order| - 1];
      var last := order[|order| - 1];
      GroupingFailsOnMissingField(nodes, front);
      assert forall k :: k in order <==> k in front || k == last;
      assert forall k :: Unranked(nodes, order, k) <==> Unranked(nodes, front, k) || (k == last && nodes[last].sibling.None?);
    }
  }

  /**
   * A grouping that succeeds lists its depths once each, lists a depth exactly when some
   * unnumbered node has it, and holds under each depth the keys of exactly the unnumbered
   * nodes at that depth.
   */
  lemma {:induction false} GroupingCollectsPeers(nodes: Nodes, order: seq<Key>)
    requires forall k :: k in order ==> k in nodes
    requires GroupFrom(nodes, order).Success?
    ensures var gr := GroupFrom(nodes, order).value;
      && Distinct(gr.depthOrder)
      && (forall d :: d in gr.depthOrder <==> d in gr.groups)
      && (forall d :: d in gr.groups <==> Peers(nodes, order, d) != {})
      && (forall d :: d in gr.groups ==> gr.groups[d] == Peers(nodes, order, d))
    decreases |order|
  {
    if order != [] {
      var front := order[..|order| - 1];
      var last := order[|order| - 1];
      GroupingCollectsPeers(nodes, front);
      forall d {
        PeersOfLonger(nodes, order, d);
      }
    }
  }

  /** Lines 37-42 of the script, over the nodes in document order. */
  method GroupByDepth(g: Graph) returns (r: Result<Grouping, Key>)
    requires g.Valid()
    ensures r == GroupFrom(g.nodes, g.order)
  {
    var depthOrder: seq<int> := [];
    var groups: map<int, set<int>> := map[];
    var i := 0;
    while i < |g.order|
      invariant 0 <= i <= |g.order|
      invariant GroupFrom(g.nodes, g.order[..i]) == Success(Grouping(depthOrder, groups))
    {
      assert g.order[..i + 1][..i] == g.order[..i];
      var node := g.nodes[g.order[i]];
      if node.sibling.None? {
        if node.depth.None? {
          GroupFailureSticks(g.nodes, g.order, i + 1);
          return Failure("Depth");
        }
        if node.key.None? {
          GroupFailureSticks(g.nodes, g.order, i + 1);
          return Failure("Key");
        }
        var d := node.depth.value;
        if d in groups {
          groups := groups[d := groups[d] + {node.key.value}];
        } else {
          depthOrder := depthOrder + [d];
          groups := groups[d := {node.key.value}];
        }
      }
      i := i + 1;
    }
    assert g.order[..i] == g.order;
    r := Success(Grouping(depthOrder, groups));
  }

  lemma {:induction false} GroupFailureSticks(nodes: Nodes, order: seq<Key>, i: nat)
    requires forall k :: k in order ==> k in nodes
    requires i <= |order| && GroupFrom(nodes, order[..i]).Failure?
    ensures GroupFrom(nodes, order) == GroupFrom(nodes, order[..i])
    decreases |order| - i
  {
    if i < |order| {
      var front := order[..|order| - 1];
      assert front[..i] == order[..i];
      GroupFailureSticks(nodes, front, i);
    } else {
      assert order[..i] == order;
    }
  }

  // ---------------------------------------------------------------------------
  // Sorting a group

  /** The elements of `s` in ascending order (`list(s)` followed by `sort()`). */
  ghost function SortedSet(s: set<int>): seq<int>
    decreases |s|
  {
    if s == {} then [] else var m := Least(s); [m] + SortedSet(s - {m})
  }

  ghost predicate StrictlyIncreasing(r: seq<int>) {
    forall i, j :: 0 <= i < j < |r| ==> r[i] < r[j]
  }

  /** The ascending list holds every element of the set once, smallest first. */
  lemma {:induction false} SortedSetEnumerates(s: set<int>)
    ensures StrictlyIncreasing(SortedSet(s))
    ensures forall x :: x in SortedSet(s) <==> x in s
    ensures |SortedSet(s)| == |s|
    decreases |s|
  {
    if s != {} {
      var m := Least(s);
      var rest := SortedSet(s - {m});
      SortedSetEnumerates(s - {m});
      var r := SortedSet(s);
      assert r == [m] + rest;
      forall i, j | 0 <= i < j < |r|
        ensures r[i] < r[j]
      {
        if i == 0 {
          assert r[j] == rest[j - 1];
          assert r[j] in s - {m};
        } else {
          assert r[i] == rest[i - 1] && r[j] == rest[j - 1];
        }
      }
      assert forall x :: x in r <==> x == m || x in rest;
    }
  }

  /** `d_nodes = list(depths[d]); d_nodes.sort()`, by repeatedly taking the least element. */
  method SortKeys(s: set<int>) returns (r: seq<int>)
    ensures r == SortedSet(s)
  {
    r := [];
    var rest := s;
    while rest != {}
      invariant r + SortedSet(rest) == SortedSet(s)
      decreases |rest|
    {
      var m := MinOf(rest);
      assert m == Least(rest);
      r := r + [m];
      rest := rest - {m};
    }
  }

  // ---------------------------------------------------------------------------
  // Numbering

  /** The node store after a pass, and the key of the KeyError that stopped it, if any. */
  datatype Annotated = Annotated(nodes: Nodes, failure: Option<Key>)

  /** `str(n)` for each key of a sorted group, in the same order. */
  function Names(sorted: seq<int>): (names: seq<Key>)
    ensures |names| == |sorted| && forall i :: 0 <= i < |sorted| ==> names[i] == DecimalString(sorted[i])
  {
    seq(|sorted|, i requires 0 <= i < |sorted| => DecimalString(sorted[i]))
  }

  /** Lines 47-48: `nodes[name]["Sibling"] = i` for each position `i`, stopping at the first KeyError. */
  ghost function RankFrom(nodes: Nodes, names: seq<Key>): Annotated
    decreases |names|
  {
    if names == [] then Annotated(nodes, None)
    else
      var r := RankFrom(nodes, names[..|names| - 1]);
      var name := names[|names| - 1];
      if r.failure.Some? then r
      else if name in r.nodes then Annotated(r.nodes[name := r.nodes[name].(sibling := Some(|names| - 1))], None)
      else Annotated(r.nodes, Some(name))
  }

  /** Lines 44-48: each depth in insertion order, its keys sorted and numbered. */
  ghost function AssignFrom(nodes: Nodes, depthOrder: seq<int>, groups: map<int, set<int>>): Annotated
    decreases |depthOrder|
  {
    if depthOrder == [] then Annotated(nodes, None)
    else
      var r := AssignFrom(nodes, depthOrder[..|depthOrder| - 1], groups);
      var d := depthOrder[|depthOrder| - 1];
      if r.failure.Some? then r
      else RankFrom(r.nodes, Names(SortedSet(if d in groups then groups[d] else {})))
  }

  lemma {:induction false} RankFailureSticks(nodes: Nodes, names: seq<Key>, i: nat)
    requires i <= |names| && RankFrom(nodes, names[..i]).failure.Some?
    ensures RankFrom(nodes, names) == RankFrom(nodes, names[..i])
    decreases |names| - i
  {
    if i < |names| {
      var front := names[..|names| - 1];
      assert front[..i] == names[..i];
      RankFailureSticks(nodes, front, i);
    } else {
      assert names[..i] == names;
    }
  }

  lemma {:induction false} AssignFailureSticks(nodes: Nodes, depthOrder: seq<int>, groups: map<int, set<int>>, i: nat)
    requires i <= |depthOrder| && AssignFrom(nodes, depthOrder[..i], groups).failure.Some?
    ensures AssignFrom(nodes, depthOrder, groups) == AssignFrom(nodes, depthOrder[..i], groups)
    decreases |depthOrder| - i
  {
    if i < |depthOrder| {
      var front := depthOrder[..|depthOrder| - 1];
      assert front[..i] == depthOrder[..i];
      AssignFailureSticks(nodes, front, groups, i);
    } else {
      assert depthOrder[..i] == depthOrder;
    }
  }

  /** One more name numbered after a prefix that raised no KeyError. */
  lemma RankFromStep(nodes: Nodes, names: seq<Key>, i: nat, cur: Nodes)
    requires i < |names| && RankFrom(nodes, names[..i]) == Annotated(cur, None)
    ensures RankFrom(nodes, names[..i + 1]) ==
      if names[i] in cur then Annotated(cur[names[i] := cur[names[i]].(sibling := Some(i))], None)
      else Annotated(cur, Some(names[i]))
  {
    assert names[..i + 1][..i] == names[..i];
  }

  /** Lines 47-48 of the script, for one sorted group. */
  method NumberGroup(g: Graph, dNodes: seq<int>) returns (failure: Option<Key>)
    modifies g`nodes
    ensures RankFrom(old(g.nodes), Names(dNodes)) == Annotated(g.nodes, failure)
  {
    ghost var names := Names(dNodes);
    var i := 0;
    while i < |dNodes|
      invariant 0 <= i <= |dNodes|
      invariant RankFrom(old(g.nodes), names[..i]) == Annotated(g.nodes, None)
    {
      RankFromStep(old(g.nodes), names, i, g.nodes);
      var name := DecimalString(dNodes[i]);
      if name !in g.nodes {
        RankFailureSticks(old(g.nodes), names, i + 1);
        return Some(name);
      }
      g.nodes := g.nodes[name := g.nodes[name].(sibling := Some(i))];
      i := i + 1;
    }
    assert names[..i] == names;
    failure := None;
  }

  /** One more depth numbered after a prefix of the depths that raised no KeyError. */
  lemma AssignFromStep(nodes: Nodes, depthOrder: seq<int>, groups: map<int, set<int>>, j: nat, cur: Nodes)
    requires j < |depthOrder| && depthOrder[j] in groups
    requires AssignFrom(nodes, depthOrder[..j], groups) == Annotated(cur, None)
    ensures AssignFrom(nodes, depthOrder[..j + 1], groups) == RankFrom(cur, Names(SortedSet(groups[depthOrder[j]])))
  {
    assert depthOrder[..j + 1][..j] == depthOrder[..j];
  }

  /** Lines 45-48 of the script, for the `j`-th depth of the grouping. */
  method NumberDepth(g: Graph, ghost nodes0: Nodes, gr: Grouping, j: nat) returns (failure: Option<Key>)
    requires j < |gr.depthOrder| && gr.depthOrder[j] in gr.groups
    requires AssignFrom(nodes0, gr.depthOrder[..j], gr.groups) == Annotated(g.nodes, None)
    modifies g`nodes
    ensures AssignFrom(nodes0, gr.depthOrder[..j + 1], gr.groups) == Annotated(g.nodes, failure)
  {
    AssignFromStep(nodes0, gr.depthOrder, gr.groups, j, g.nodes);
    var dNodes := SortKeys(gr.groups[gr.depthOrder[j]]);
    failure := NumberGroup(g, dNodes);
  }

  /** Lines 44-48 of the script, on the grouping the first loop built. */
  method AssignSiblings(g: Graph, gr: Grouping) returns (failure: Option<Key>)
    requires forall d :: d in gr.depthOrder ==> d in gr.groups
    modifies g`nodes
    ensures AssignFrom(old(g.nodes), gr.depthOrder, gr.groups) == Annotated(g.nodes, failure)
  {
    var j := 0;
    while j < |gr.depthOrder|
      invariant 0 <= j <= |gr.depthOrder|
      invariant AssignFrom(old(g.nodes), gr.depthOrder[..j], gr.groups) == Annotated(g.nodes, None)
    {
      var d := gr.depthOrder[j];
      assert d in gr.depthOrder;
      assert d in gr.groups;
      failure := NumberDepth(g, old(g.nodes), gr, j);
      if failure.Some? {
        AssignFailureSticks(old(g.nodes), gr.depthOrder, gr.groups, j + 1);
        return;
      }
      j := j + 1;
    }
    assert gr.depthOrder[..j] == gr.depthOrder;
    failure := None;
  }

  // ---------------------------------------------------------------------------
  // The layout pass

  /** Lines 36-48: grouping, then numbering; a failed grouping leaves the store as it was. */
  ghost function SiblingPass(nodes: Nodes, order: seq<Key>): Annotated
    requires forall k :: k in order ==> k in nodes
  {
    match GroupFrom(nodes, order)
    case Failure(e) => Annotated(nodes, Some(e))
    case Success(gr) => AssignFrom(nodes, gr.depthOrder, gr.groups)
  }

  /**
   * Every node the layout pass numbers is stored under `str` of its own "Key" and has a
   * depth, as in the graphs the fuzzer writes once the depth pass has reached every node.
   */
  ghost predicate WellKeyed(nodes: Nodes) {
    forall k :: k in nodes && nodes[k].sibling.None? ==>
      nodes[k].depth.Some? && nodes[k].key.Some? && DecimalString(nodes[k].key.value) == k
  }

  /**
   * In `after`, node `k` differs from `nodes[k]` only in "Sibling", which is the position
   * of its "Key" in the ascending list of the keys of its unnumbered peers at its depth.
   */
  ghost predicate RankedAmongPeers(nodes: Nodes, order: seq<Key>, after: Nodes, k: Key) {
    && k in nodes && k in after
    && nodes[k].depth.Some? && nodes[k].key.Some?
    && after[k] == nodes[k].(sibling := after[k].sibling)
    && after[k].sibling.Some?
    && var s := SortedSet(Peers(nodes, order, nodes[k].depth.value));
       0 <= after[k].sibling.value < |s| && s[after[k].sibling.value] == nodes[k].key.value
  }

  /** Numbering distinct names that are all nodes succeeds and touches exactly those nodes. */
  lemma {:induction false} RankFromNumbers(nodes: Nodes, names: seq<Key>)
    requires forall i :: 0 <= i < |names| ==> names[i] in nodes
    requires Distinct(names)
    ensures RankFrom(nodes, names).failure.None?
    ensures var r := RankFrom(nodes, names).nodes;
      && r.Keys == nodes.Keys
      && (forall i :: 0 <= i < |names| ==> r[names[i]] == nodes[names[i]].(sibling := Some(i)))
      && (forall k :: k in nodes && k !in names ==> r[k] == nodes[k])
    decreases |names|
  {
    if names != [] {
      var last := |names| - 1;
      var front := names[..last];
      assert forall i :: 0 <= i < last ==> front[i] == names[i];
      assert forall k :: k in names <==> k in front || k == names[last];
      RankFromNumbers(nodes, front);
    }
  }

  /** A key among the peers at depth `d` names, through `str`, the unnumbered node that holds it. */
  lemma PeerIsStoredUnderItsKey(nodes: Nodes, order: seq<Key>, d: int, n: int)
    requires WellKeyed(nodes)
    requires n in Peers(nodes, order, d)
    ensures var k := DecimalString(n);
      k in order && k in nodes && nodes[k].sibling.None? && nodes[k].depth == Some(d) && nodes[k].key == Some(n)
  {
    var k :| k in order && k in nodes && nodes[k].sibling.None? && nodes[k].depth == Some(d) &&
      nodes[k].key.Some? && nodes[k].key.value == n;
    assert DecimalString(n) == k;
  }

  /**
   * The names of the sorted peers at depth `d` are distinct, each names the unnumbered node
   * at depth `d` holding the key at the same position, and every such node is named.
   */
  lemma PeerNames(nodes: Nodes, order: seq<Key>, d: int)
    requires WellKeyed(nodes)
    ensures var s := SortedSet(Peers(nodes, order, d)); var names := Names(s);
      && Distinct(names)
      && (forall i :: 0 <= i < |names| ==>
            var k := names[i];
            k in order && k in nodes && nodes[k].sibling.None? && nodes[k].depth == Some(d) && nodes[k].key == Some(s[i]))
      && (forall k :: k in nodes && nodes[k].sibling.None? && nodes[k].depth == Some(d) && k in order ==>
            exists i :: 0 <= i < |names| && names[i] == k)
  {
    var peers := Peers(nodes, order, d);
    var s := SortedSet(peers);
    var names := Names(s);
    SortedSetEnumerates(peers);
    forall i | 0 <= i < |s|
      ensures var k := DecimalString(s[i]);
        k in order && k in nodes && nodes[k].sibling.None? && nodes[k].depth == Some(d) && nodes[k].key == Some(s[i])
    {
      PeerIsStoredUnderItsKey(nodes, order, d, s[i]);
    }
    forall i, j | 0 <= i < j < |s|
      ensures names[i] != names[j]
    {
      assert s[i] < s[j];
    }
    forall k | k in nodes && nodes[k].sibling.None? && nodes[k].depth == Some(d) && k in order
      ensures exists i :: 0 <= i < |names| && names[i] == k
    {
      var n := nodes[k].key.value;
      assert n in peers;
      var i :| 0 <= i < |s| && s[i] == n;
      assert names[i] == k;
    }
  }

  /**
   * Numbering the sorted peers of depth `d` in a store that agrees with `nodes` on the
   * unnumbered nodes at depth `d` ranks exactly those nodes.
   */
  lemma RankFromRanksDepth(nodes: Nodes, order: seq<Key>, cur: Nodes, d: int)
    requires WellKeyed(nodes)
    requires cur.Keys == nodes.Keys
    requires forall k :: k in nodes && nodes[k].sibling.None? && nodes[k].depth == Some(d) ==> cur[k] == nodes[k]
    ensures RankFrom(cur, Names(SortedSet(Peers(nodes, order, d)))).failure.None?
    ensures var r := RankFrom(cur, Names(SortedSet(Peers(nodes, order, d)))).nodes;
      && r.Keys == nodes.Keys
      && forall k :: k in nodes ==>
           if nodes[k].sibling.None? && nodes[k].depth == Some(d) && k in order
           then RankedAmongPeers(nodes, order, r, k)
           else r[k] == cur[k]
  {
    var s := SortedSet(Peers(nodes, order, d));
    var names := Names(s);
    PeerNames(nodes, order, d);
    RankFromNumbers(cur, names);
    var r := RankFrom(cur, names).nodes;
    forall k | k in nodes
      ensures if nodes[k].sibling.None? && nodes[k].depth == Some(d) && k in order
        then RankedAmongPeers(nodes, order, r, k)
        else r[k] == cur[k]
    {
      if nodes[k].sibling.None? && nodes[k].depth == Some(d) && k in order {
        var i :| 0 <= i < |names| && names[i] == k;
        assert r[k] == cur[k].(sibling := Some(i));
      } else {
        assert k !in names;
      }
    }
  }

  /** Numbering the depths of `depthOrder` ranks exactly the unnumbered nodes at those depths. */
  lemma {:induction false} AssignFromRanks(nodes: Nodes, order: seq<Key>, depthOrder: seq<int>, groups: map<int, set<int>>)
    requires WellKeyed(nodes)
    requires Distinct(depthOrder)
    requires forall d :: d in depthOrder ==> d in groups && groups[d] == Peers(nodes, order, d)
    ensures AssignFrom(nodes, depthOrder, groups).failure.None?
    ensures var r := AssignFrom(nodes, depthOrder, groups).nodes;
      && r.Keys == nodes.Keys
      && forall k :: k in nodes ==>
           if nodes[k].sibling.None? && nodes[k].depth.Some? && nodes[k].depth.value in depthOrder && k in order
           then RankedAmongPeers(nodes, order, r, k)
           else r[k] == nodes[k]
    decreases |depthOrder|
  {
    if depthOrder != [] {
      var front := depthOrder[..|depthOrder| - 1];
      var d := depthOrder[|depthOrder| - 1];
      assert forall x :: x in depthOrder <==> x in front || x == d;
      assert d !in front;
      AssignFromRanks(nodes, order, front, groups);
      var cur := AssignFrom(nodes, front, groups).nodes;
      RankFromRanksDepth(nodes, order, cur, d);
      assert AssignFrom(nodes, depthOrder, groups) == RankFrom(cur, Names(SortedSet(Peers(nodes, order, d))));
    }
  }

  /**
   * On a well-keyed store the layout pass succeeds, keeps every node that already has
   * "Sibling", and gives each other node, changing nothing else, the position of its
   * "Key" in the ascending list of the keys at its depth.
   */
  lemma SiblingPassRanksPeers(nodes: Nodes, order: seq<Key>)
    requires forall k :: k in order <==> k in nodes
    requires WellKeyed(nodes)
    ensures SiblingPass(nodes, order).failure.None?
    ensures var r := SiblingPass(nodes, order).nodes;
      && r.Keys == nodes.Keys
      && forall k :: k in nodes ==>
           if nodes[k].sibling.None? then RankedAmongPeers(nodes, order, r, k) else r[k] == nodes[k]
  {
    GroupingFailsOnMissingField(nodes, order);
    GroupingCollectsPeers(nodes, order);
    var gr := GroupFrom(nodes, order).value;
    AssignFromRanks(nodes, order, gr.depthOrder, gr.groups);
    forall k | k in nodes && nodes[k].sibling.None?
      ensures nodes[k].depth.value in gr.depthOrder
    {
      assert nodes[k].key.value in Peers(nodes, order, nodes[k].depth.value);
    }
  }

  lemma {:induction false} GroupingSkipsNumbered(nodes: Nodes, order: seq<Key>)
    requires forall k :: k in order ==> k in nodes && nodes[k].sibling.Some?
    ensures GroupFrom(nodes, order) == Success(Grouping([], map[]))
    decreases |order|
  {
    if order != [] {
      GroupingSkipsNumbered(nodes, order[..|order| - 1]);
    }
  }

  /** A store in which every node has "Sibling" passes through the layout pass unchanged. */
  lemma SiblingPassSkipsNumbered(nodes: Nodes, order: seq<Key>)
    requires forall k :: k in order ==> k in nodes
    requires forall k :: k in nodes ==> nodes[k].sibling.Some?
    ensures SiblingPass(nodes, order) == Annotated(nodes, None)
  {
    GroupingSkipsNumbered(nodes, order);
  }

  /** Running the layout pass on its own output changes nothing. */
  lemma SiblingPassIdempotent(nodes: Nodes, order: seq<Key>)
    requires forall k :: k in order <==> k in nodes
    requires WellKeyed(nodes)
    ensures var r := SiblingPass(nodes, order).nodes;
      r.Keys == nodes.Keys && SiblingPass(r, order) == Annotated(r, None)
  {
    SiblingPassRanksPeers(nodes, order);
    var r := SiblingPass(nodes, order).nodes;
    SiblingPassSkipsNumbered(r, order);
  }

  lemma {:induction false} RankFromKeepsKeys(nodes: Nodes, names: seq<Key>)
    ensures RankFrom(nodes, names).nodes.Keys == nodes.Keys
    ensures RankFrom(nodes, names).failure.Some? ==>
      RankFrom(nodes, names).failure.value !in nodes && RankFrom(nodes, names).failure.value in names
    decreases |names|
  {
    if names != [] {
      var front := names[..|names| - 1];
      RankFromKeepsKeys(nodes, front);
      assert forall k :: k in front ==> k in names;
    }
  }

  lemma {:induction false} AssignFromKeepsKeys(nodes: Nodes, depthOrder: seq<int>, groups: map<int, set<int>>)
    ensures AssignFrom(nodes, depthOrder, groups).nodes.Keys == nodes.Keys
    ensures AssignFrom(nodes, depthOrder, groups).failure.Some? ==>
      var e := AssignFrom(nodes, depthOrder, groups).failure.value;
      e !in nodes && e != "Depth" && e != "Key"
    decreases |depthOrder|
  {
    if depthOrder != [] {
      var front := depthOrder[..|depthOrder| - 1];
      var d := depthOrder[|depthOrder| - 1];
      AssignFromKeepsKeys(nodes, front, groups);
      RankFromKeepsKeys(AssignFrom(nodes, front, groups).nodes, Names(SortedSet(if d in groups then groups[d] else {})));
    }
  }

  /**
   * The layout pass keeps the node keys. It stops with KeyError "Depth" or "Key" exactly
   * when an unnumbered node lacks that field, leaving the store untouched; any other
   * KeyError names a string that is not a node key.
   */
  lemma SiblingPassFailures(nodes: Nodes, order: seq<Key>)
    requires forall k :: k in order <==> k in nodes
    ensures SiblingPass(nodes, order).nodes.Keys == nodes.Keys
    ensures (exists k :: Unranked(nodes, order, k) && (nodes[k].depth.None? || nodes[k].key.None?)) <==>
      SiblingPass(nodes, order).failure.Some? && SiblingPass(nodes, order).failure.value in ["Depth", "Key"] &&
      SiblingPass(nodes, order).nodes == nodes
    ensures SiblingPass(nodes, order).failure.Some? ==>
      SiblingPass(nodes, order).failure.value in ["Depth", "Key"] || SiblingPass(nodes, order).failure.value !in nodes
  {
    GroupingFailsOnMissingField(nodes, order);
    if GroupFrom(nodes, order).Success? {
      var gr := GroupFrom(nodes, order).value;
      AssignFromKeepsKeys(nodes, gr.depthOrder, gr.groups);
    }
  }

  // ---------------------------------------------------------------------------
  // analyze(graph)

  /**
   * `analyze` of the layout script as a function of the input store: the depth pass from
   * `starts` and, if it empties its queue, the layout pass. The edges are the recorded
   * pairs in insertion order, as `[edges[e] for e in edges]` lists them.
   */
  ghost function Layout(nodes: Nodes, order: seq<Key>, starts: seq<Key>, fuel: nat): Outcome
    requires forall k :: k in order <==> k in nodes
  {
    var out := Run(nodes, starts, [], fuel);
    if !out.status.Finished? then out
    else
      RunOnlyAddsDepths(nodes, starts, [], fuel);
      var pass := SiblingPass(out.nodes, order);
      Outcome(pass.nodes, out.edges, if pass.failure.Some? then LookupFailed(pass.failure.value) else Finished)
  }

  /** `analyze(graph)`: start states, the depth pass with edge recording, then the layout pass. */
  method AnalyzeLayout(g: Graph, fuel: nat) returns (startStates: seq<Key>, edges: seq<Edge>, status: Status)
    requires g.Valid()
    modifies g`nodes
    ensures Distinct(startStates)
    ensures forall k :: k in startStates <==> k in StartSet(old(g.nodes))
    ensures Layout(old(g.nodes), g.order, startStates, fuel) == Outcome(g.nodes, edges, status)
  {
    var starts := FindStartStates(g.nodes);
    startStates := ListOf(starts);
    edges, status := Worklist(g, startStates, fuel);
    if status != Finished {
      return;
    }
    RunOnlyAddsDepths(old(g.nodes), startStates, [], fuel);
    assert g.Valid();
    var grouping := GroupByDepth(g);
    match grouping {
      case Failure(e) =>
        status := LookupFailed(e);
      case Success(gr) =>
        GroupingCollectsPeers(g.nodes, g.order);
        var failure := AssignSiblings(g, gr);
        if failure.Some? {
          status := LookupFailed(failure.value);
        }
    }
  }
}
