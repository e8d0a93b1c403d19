/**
 * scripts/analyze_graph.py: find the start nodes of a state graph, then run a FIFO worklist
 * from them. A node without "Prev" gets depth 0; any other node gets one more than the least
 * depth among its predecessors that already have one, or no depth if none has one. The loop
 * need not terminate.
 */
module AnalyzeGraph {
  import opened Common
  import opened GraphNodes

  /**
   * `analyze(graph)`: the start states, as `list(start_states)` returns them, and the node
   * store annotated in place. `status` is `Finished` when the script returns, `LookupFailed`
   * when it raises KeyError, and `OutOfFuel` when `fuel` dequeues did not empty the queue.
   * Python's order for `list(set)` is not specified, so any order of the start set is accepted.
   */
  method Analyze(g: Graph, fuel: nat) returns (startStates: seq<Key>, status: Status)
    modifies g`nodes
    ensures Distinct(startStates)
    ensures forall k :: k in startStates <==> k in StartSet(old(g.nodes))
    ensures var out := Run(old(g.nodes), startStates, [], fuel);
      g.nodes == out.nodes && status == out.status
  {
    var starts := FindStartStates(g.nodes);
    startStates := ListOf(starts);
    var edges;
    edges, status := Worklist(g, startStates, fuel);
  }

  /**
   * What a depth pass started from the start nodes delivers: the keys and every field but
   * "Depth" are kept, no depth is overwritten, each new depth is 0 for a node without "Prev"
   * and otherwise one more than a predecessor's, and when the pass finishes every node without
   * "Prev" has a depth.
   */
  lemma DepthPassFromStarts(nodes: Nodes, starts: seq<Key>, fuel: nat)
    requires forall k :: k in starts <==> k in StartSet(nodes)
    ensures var out := Run(nodes, starts, [], fuel);
      && Extends(nodes, out.nodes)
      && Justified(nodes, out.nodes)
      && (out.status.Finished? ==> forall k :: k in nodes && nodes[k].prev.None? ==> out.nodes[k].depth.Some?)
  {
    RunOnlyAddsDepths(nodes, starts, [], fuel);
    RunJustifiesDepths(nodes, starts, [], fuel);
    if Run(nodes, starts, [], fuel).status.Finished? {
      RunFinishedDequeuesAll(nodes, starts, [], fuel);
      forall k | k in nodes && nodes[k].prev.None?
        ensures k in starts
      {
        assert k in StartSet(nodes);
      }
    }
  }
}
