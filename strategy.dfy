/**
 * strategy.go: how the fuzzer picks the next node to step, either uniformly at random or
 * round-robin over the node ids 0 .. NumNodes-1.
 */
module Strategies {
  import opened Common

  function Abs(x: int): int {
    if x < 0 then -x else x
  }

  /** Go's `%`: the remainder of truncating division, with the sign of the dividend. */
  function GoRem(a: int, b: int): (r: int)
    requires b != 0
    ensures -Abs(b) < r < Abs(b)
    ensures a >= 0 ==> r >= 0
    ensures a <= 0 ==> r <= 0
  {
    var m := Abs(b);
    if a >= 0 then a % m else -((-a) % m)
  }

  /** Advancing a node id below `n` by one, modulo `n`, wraps to 0 only past the last id. */
  lemma GoRemStep(c: nat, n: int)
    requires 0 <= c < n
    ensures GoRem(c + 1, n) == if c + 1 == n then 0 else c + 1
  {
    if c + 1 == n {
      assert (c + 1) % n == 0;
    } else {
      assert (c + 1) % n == c + 1;
    }
  }

  /**
   * `RandomStrategy.GetNextNode`: the element at the index `rand.Intn` drew. `Intn` panics,
   * here `None`, when `available` is empty.
   */
  function RandomPick(available: seq<nat>, draw: nat): (r: Option<nat>)
    requires available != [] ==> draw < |available|
    ensures r.Some? <==> available != []
    ensures r.Some? ==> r.value in available
  {
    if available == [] then None else Some(available[draw])
  }

  /** The elements of `available`, as the map `m` built at the start of `GetNextNode`. */
  method AvailableSet(available: seq<nat>) returns (m: set<nat>)
    ensures forall n :: n in m <==> n in available
  {
    m := {};
    for i := 0 to |available|
      invariant forall n :: n in m <==> n in available[..i]
    {
      assert available[..i + 1] == available[..i] + [available[i]];
      m := m + {available[i]};
    }
    assert available[..|available|] == available;
  }

  class RoundRobinStrategy {
    const numNodes: int
    var curNode: int

    /** `curNode` is a node id: never negative, and below `NumNodes` when that is not zero. */
    ghost predicate Valid()
      reads this
    {
      0 <= curNode && (numNodes != 0 ==> curNode < Abs(numNodes))
    }

    constructor (numNodes: int)
      ensures Valid() && this.numNodes == numNodes && curNode == 0
    {
      this.numNodes := numNodes;
      curNode := 0;
    }

    /**
     * Returns `curNode` and advances it modulo `NumNodes`. The search loop tests membership
     * only once, in its init statement, so when `curNode` is not available it never exits;
     * callers must therefore offer `curNode`. With `NumNodes` zero the `%` panics, and
     * `ok` is false with `curNode` unchanged.
     */
    method GetNextNode(available: seq<nat>) returns (next: nat, ok: bool)
      requires Valid()
      requires numNodes != 0 ==> curNode in available
      modifies this`curNode
      ensures Valid()
      ensures ok <==> numNodes != 0
      ensures ok ==> next == old(curNode) && next in available && curNode == GoRem(old(curNode) + 1, numNodes)
      ensures !ok ==> curNode == old(curNode)
    {
      var m := AvailableSet(available);
      var n := curNode;
      if n !in m {
        if numNodes == 0 {
          return 0, false;
        }
        assert false;
      }
      if numNodes == 0 {
        return 0, false;
      }
      curNode := GoRem(n + 1, numNodes);
      return n, true;
    }
  }

  /** The ids a round-robin scheduler returns over `k` calls from `cur` when every node is available. */
  function Turns(cur: nat, numNodes: int, k: nat): (r: seq<nat>)
    requires numNodes > 0 && cur < numNodes
    ensures |r| == k
    ensures forall i :: 0 <= i < k ==> r[i] < numNodes
    decreases k
  {
    if k == 0 then [] else [cur] + Turns(GoRem(cur + 1, numNodes), numNodes, k - 1)
  }

  /** Within one round the `i`-th turn is `cur + i`, wrapped past the last id. */
  lemma {:induction false} TurnsAdvance(cur: nat, numNodes: int, k: nat)
    requires numNodes > 0 && cur < numNodes && k <= numNodes
    ensures forall i :: 0 <= i < k ==>
      Turns(cur, numNodes, k)[i] == if cur + i < numNodes then cur + i else cur + i - numNodes
    decreases k
  {
    if k > 0 {
      var c' := GoRem(cur + 1, numNodes);
      GoRemStep(cur, numNodes);
      TurnsAdvance(c', numNodes, k - 1);
      forall i | 0 < i < k
        ensures Turns(cur, numNodes, k)[i] == if cur + i < numNodes then cur + i else cur + i - numNodes
      {
        assert Turns(cur, numNodes, k)[i] == Turns(c', numNodes, k - 1)[i - 1];
      }
    }
  }

  /** Over `NumNodes` consecutive calls with every node available, every node gets exactly one turn. */
  lemma RoundRobinIsFair(cur: nat, numNodes: int)
    requires numNodes > 0 && cur < numNodes
    ensures forall x :: 0 <= x < numNodes ==> x in Turns(cur, numNodes, numNodes)
    ensures forall i, j :: 0 <= i < j < numNodes ==> Turns(cur, numNodes, numNodes)[i] != Turns(cur, numNodes, numNodes)[j]
  {
    var t := Turns(cur, numNodes, numNodes);
    TurnsAdvance(cur, numNodes, numNodes);
    forall x | 0 <= x < numNodes
      ensures x in t
    {
      var i := if x >= cur then x - cur else x + numNodes - cur;
      assert t[i] == x;
    }
  }
}
