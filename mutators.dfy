/**
 * mutator.go: the rewrites the fuzzer applies to a recorded scheduling trace. Every
 * random draw (`rand.Intn`) is a parameter: the set or sequence the selection loop has
 * built when it exits, constrained by a precondition that says what that loop guarantees.
 * A `List` of choices is represented by its contents.
 */
module Mutators {
  import opened Common
  import opened Types

  type Trace = seq<SchedulingChoice>

  // ---------------------------------------------------------------------------
  // Index collection and copying

  /** The positions of `trace` whose choice has type `t`, in ascending order. */
  function PositionsOf(trace: Trace, t: SchedulingChoiceType): (r: seq<int>)
    ensures forall i :: 0 <= i < |r| ==> 0 <= r[i] < |trace| && trace[r[i]].choiceType == t
    ensures forall k :: 0 <= k < |trace| && trace[k].choiceType == t ==> k in r
    ensures forall i, j :: 0 <= i < j < |r| ==> r[i] < r[j]
    decreases |trace|
  {
    if trace == [] then []
    else
      var front := PositionsOf(trace[..|trace| - 1], t);
      if trace[|trace| - 1].choiceType == t then front + [|trace| - 1] else front
  }

  /** The loop that opens every `Mutate`: the indices of the choices of type `t`. */
  method IndicesOfType(trace: Trace, t: SchedulingChoiceType) returns (r: seq<int>)
    ensures r == PositionsOf(trace, t)
  {
    r := [];
    for i := 0 to |trace|
      invariant r == PositionsOf(trace[..i], t)
    {
      assert trace[..i + 1][..i] == trace[..i];
      if trace[i].choiceType == t {
        r := r + [i];
      }
    }
    assert trace[..|trace|] == trace;
  }

  /** The elements of a sequence of indices, as a set. */
  ghost function Elems(s: seq<int>): set<int> {
    set x | x in s
  }

  /** The choices of `t` that `filter` accepts, in their order. */
  function Filtered(t: Trace, filter: SchedulingChoice -> bool): Trace
    decreases |t|
  {
    if t == [] then []
    else Filtered(t[..|t| - 1], filter) + (if filter(t[|t| - 1]) then [t[|t| - 1]] else [])
  }

  /** `copyTrace`: a new list holding copies of the accepted choices, in order. */
  method CopyTrace(t: Trace, filter: SchedulingChoice -> bool) returns (r: Trace)
    ensures r == Filtered(t, filter)
  {
    r := [];
    for i := 0 to |t|
      invariant r == Filtered(t[..i], filter)
    {
      assert t[..i + 1][..i] == t[..i];
      if filter(t[i]) {
        r := r + [t[i]];
      }
    }
    assert t[..|t|] == t;
  }

  /** `defaultCopyFilter`: accepts every choice. */
  function DefaultCopyFilter(): (f: SchedulingChoice -> bool)
    ensures forall c :: f(c)
  {
    (c: SchedulingChoice) => true
  }

  /** `typeCopyFilter(t)`: accepts exactly the choices of type `t`. */
  function TypeCopyFilter(t: SchedulingChoiceType): (f: SchedulingChoice -> bool)
    ensures forall c :: f(c) <==> c.choiceType == t
  {
    (c: SchedulingChoice) => c.choiceType == t
  }

  /**
   * A copy keeps exactly the accepted choices, never grows, and under a filter that accepts
   * everything (such as `defaultCopyFilter`) is the trace itself.
   */
  lemma {:induction false} FilteredKeepsAccepted(t: Trace, filter: SchedulingChoice -> bool)
    ensures forall c :: c in Filtered(t, filter) <==> c in t && filter(c)
    ensures |Filtered(t, filter)| <= |t|
    ensures (forall c :: filter(c)) ==> Filtered(t, filter) == t
    decreases |t|
  {
    if t != [] {
      var front := t[..|t| - 1];
      FilteredKeepsAccepted(front, filter);
      assert t == front + [t[|t| - 1]];
    }
  }

  /** A copy by type holds exactly as many choices as there are positions of that type. */
  lemma {:induction false} TypeCopyCountsPositions(t: Trace, ty: SchedulingChoiceType)
    ensures |Filtered(t, TypeCopyFilter(ty))| == |PositionsOf(t, ty)|
    ensures forall i :: 0 <= i < |PositionsOf(t, ty)| ==> Filtered(t, TypeCopyFilter(ty))[i] == t[PositionsOf(t, ty)[i]]
    decreases |t|
  {
    if t != [] {
      TypeCopyCountsPositions(t[..|t| - 1], ty);
    }
  }

  // ---------------------------------------------------------------------------
  // Selection loops

  /**
   * What a selection loop `for len(chosen) < count { chosen[pick] = true }` over the
   * indices `eligible` has built when it exits: a subset of exactly max(count, 0) of them.
   */
  ghost predicate Selected(chosen: set<int>, eligible: set<int>, count: int) {
    chosen <= eligible && |chosen| == Max(count, 0)
  }

  lemma SubsetSize(a: set<int>, b: set<int>)
    requires a <= b
    ensures |a| <= |b|
  {
    assert b == a + (b - a);
  }

  lemma {:induction false} SubsetOfSize(s: set<int>, n: nat) returns (sub: set<int>)
    requires n <= |s|
    ensures sub <= s && |sub| == n
    decreases n
  {
    if n == 0 {
      sub := {};
    } else {
      assert exists x :: x in s by { if forall x :: x !in s { assert false; } }
      var x :| x in s;
      var rest := SubsetOfSize(s - {x}, n - 1);
      sub := rest + {x};
    }
  }

  /**
   * The selection loops that do not cap their count exit only if the count is at most the
   * number of eligible indices: a set they can exit with exists exactly then.
   */
  lemma SelectionExists(eligible: set<int>, count: int)
    ensures (exists chosen :: Selected(chosen, eligible, count)) <==> count <= |eligible|
  {
    if count <= |eligible| {
      var sub := SubsetOfSize(eligible, Max(count, 0));
      assert Selected(sub, eligible, count);
    } else {
      forall chosen | chosen <= eligible
        ensures !Selected(chosen, eligible, count)
      {
        SubsetSize(chosen, eligible);
      }
    }
  }

  /** A `Mutate` finds no index of type `t` exactly when the trace has no choice of that type. */
  lemma NoPositions(trace: Trace, t: SchedulingChoiceType)
    ensures PositionsOf(trace, t) == [] <==> forall k :: 0 <= k < |trace| ==> trace[k].choiceType != t
  {
    if PositionsOf(trace, t) != [] {
      assert 0 <= PositionsOf(trace, t)[0] < |trace|;
    }
  }

  /** Every index a selection loop draws is a position of the drawn type. */
  lemma DrawnArePositions(trace: Trace, t: SchedulingChoiceType, chosen: set<int>)
    requires chosen <= Elems(PositionsOf(trace, t))
    ensures forall k :: k in chosen ==> 0 <= k < |trace| && trace[k].choiceType == t
  {
    forall k | k in chosen
      ensures 0 <= k < |trace| && trace[k].choiceType == t
    {
      assert k in Elems(PositionsOf(trace, t));
    }
  }

  // ---------------------------------------------------------------------------
  // ChoiceMutator

  /** The choice `ChoiceMutator` appends for a flipped position: type kept, other fields zeroed. */
  function Flip(c: SchedulingChoice): SchedulingChoice {
    SchedulingChoice(c.choiceType, 0, !c.booleanChoice, 0)
  }

  /** What `ChoiceMutator.Mutate` returns once `toFlip` has been drawn. */
  function Flipped(trace: Trace, toFlip: set<int>): Option<Trace> {
    if PositionsOf(trace, RandomBoolean) == [] then None
    else Some(FlipAt(trace, toFlip))
  }

  function FlipAt(trace: Trace, toFlip: set<int>): Trace {
    seq(|trace|, k requires 0 <= k < |trace| => if k in toFlip then Flip(trace[k]) else trace[k])
  }

  /** The exit state of the flip selection loop (it is entered only when a boolean choice exists). */
  ghost predicate FlipsDrawn(trace: Trace, numFlips: int, toFlip: set<int>) {
    PositionsOf(trace, RandomBoolean) != [] ==> Selected(toFlip, Elems(PositionsOf(trace, RandomBoolean)), numFlips)
  }

  method ChoiceMutate(numFlips: int, trace: Trace, toFlip: set<int>) returns (r: Option<Trace>)
    requires FlipsDrawn(trace, numFlips, toFlip)
    ensures r == Flipped(trace, toFlip)
  {
    var indices := IndicesOfType(trace, RandomBoolean);
    if |indices| == 0 {
      return None;
    }
    var newTrace: Trace := [];
    for i := 0 to |trace|
      invariant |newTrace| == i
      invariant forall k :: 0 <= k < i ==> newTrace[k] == if k in toFlip then Flip(trace[k]) else trace[k]
    {
      if i in toFlip {
        newTrace := newTrace + [Flip(trace[i])];
      } else {
        newTrace := newTrace + [trace[i]];
      }
    }
    assert newTrace == FlipAt(trace, toFlip);
    return Some(newTrace);
  }

  /**
   * `ChoiceMutator` fails exactly when the trace has no boolean choice; otherwise the result
   * has the same length and the positions whose `BooleanChoice` changed are exactly the
   * drawn ones, max(NumFlips, 0) of them, each still a `RandomBoolean` choice.
   */
  lemma ChoiceMutatorFlips(trace: Trace, numFlips: int, toFlip: set<int>)
    requires FlipsDrawn(trace, numFlips, toFlip)
    ensures Flipped(trace, toFlip).None? <==> forall k :: 0 <= k < |trace| ==> trace[k].choiceType != RandomBoolean
    ensures Flipped(trace, toFlip).Some? ==>
      var t := Flipped(trace, toFlip).value;
      && |t| == |trace|
      && (forall k :: 0 <= k < |t| && k !in toFlip ==> t[k] == trace[k])
      && (forall k :: 0 <= k < |t| && k in toFlip ==>
            t[k] == SchedulingChoice(RandomBoolean, 0, !trace[k].booleanChoice, 0))
      && (set k | 0 <= k < |t| && t[k].booleanChoice != trace[k].booleanChoice) == toFlip
      && |toFlip| == Max(numFlips, 0)
  {
    NoPositions(trace, RandomBoolean);
    if PositionsOf(trace, RandomBoolean) != [] {
      DrawnArePositions(trace, RandomBoolean, toFlip);
    }
  }

  // ---------------------------------------------------------------------------
  // SkipNodeMutator

  /** The choices of `trace` at positions outside `toSkip`, in order. */
  function Survivors(trace: Trace, toSkip: set<int>): Trace
    decreases |trace|
  {
    if trace == [] then []
    else
      Survivors(trace[..|trace| - 1], toSkip)
      + (if |trace| - 1 in toSkip then [] else [trace[|trace| - 1]])
  }

  /** What `SkipNodeMutator.Mutate` returns once `toSkip` has been drawn. */
  function Skipped(trace: Trace, toSkip: set<int>): Option<Trace> {
    if PositionsOf(trace, Node) == [] then None else Some(Survivors(trace, toSkip))
  }

  /** The exit state of the skip selection loop. */
  ghost predicate SkipsDrawn(trace: Trace, numSkips: int, toSkip: set<int>) {
    PositionsOf(trace, Node) != [] ==> Selected(toSkip, Elems(PositionsOf(trace, Node)), numSkips)
  }

  method SkipNodeMutate(numSkips: int, trace: Trace, toSkip: set<int>) returns (r: Option<Trace>)
    requires SkipsDrawn(trace, numSkips, toSkip)
    ensures r == Skipped(trace, toSkip)
  {
    var indices := IndicesOfType(trace, Node);
    if |indices| == 0 {
      return None;
    }
    var newTrace: Trace := [];
    for i := 0 to |trace|
      invariant newTrace == Survivors(trace[..i], toSkip)
    {
      assert trace[..i + 1][..i] == trace[..i];
      if i !in toSkip {
        newTrace := newTrace + [trace[i]];
      }
    }
    assert trace[..|trace|] == trace;
    return Some(newTrace);
  }

  /** How many of the positions below `k` are in `s`. */
  function CountBelow(s: set<int>, k: nat): nat {
    if k == 0 then 0 else CountBelow(s, k - 1) + (if k - 1 in s then 1 else 0)
  }

  /** Where the choice at kept position `k` lands once the positions in `toSkip` are dropped. */
  function Landing(toSkip: set<int>, k: nat): int {
    k - CountBelow(toSkip, k)
  }

  lemma {:induction false} CountBelowAgrees(s: set<int>, s': set<int>, k: nat)
    requires forall j :: 0 <= j < k ==> (j in s <==> j in s')
    ensures CountBelow(s, k) == CountBelow(s', k)
  {
    if k > 0 {
      CountBelowAgrees(s, s', k - 1);
    }
  }

  lemma {:induction false} CountBelowAll(s: set<int>, k: nat)
    requires forall j :: j in s ==> 0 <= j < k
    ensures CountBelow(s, k) == |s|
  {
    if k > 0 {
      var s' := s - {k - 1};
      CountBelowAgrees(s, s', k - 1);
      CountBelowAll(s', k - 1);
      if k - 1 !in s {
        assert s' == s;
      }
    } else {
      assert forall j :: j !in s;
    }
  }

  lemma {:induction false} SurvivorsLength(trace: Trace, toSkip: set<int>)
    ensures |Survivors(trace, toSkip)| == |trace| - CountBelow(toSkip, |trace|)
    decreases |trace|
  {
    if trace != [] {
      SurvivorsLength(trace[..|trace| - 1], toSkip);
    }
  }

  /** The choice at a kept position `k` lands at `k` minus the dropped positions before it. */
  lemma {:induction false} SurvivorAt(trace: Trace, toSkip: set<int>, k: int)
    requires 0 <= k < |trace| && k !in toSkip
    ensures 0 <= Landing(toSkip, k) < |Survivors(trace, toSkip)|
    ensures Survivors(trace, toSkip)[Landing(toSkip, k)] == trace[k]
    decreases |trace|
  {
    var n := |trace| - 1;
    var front := trace[..n];
    var sf := Survivors(front, toSkip);
    var st := Survivors(trace, toSkip);
    assert st == sf + (if n in toSkip then [] else [trace[n]]);
    SurvivorsLength(front, toSkip);
    if k < n {
      SurvivorAt(front, toSkip, k);
      assert front[k] == trace[k];
    } else {
      assert Landing(toSkip, k) == |sf|;
    }
  }

  /**
   * `Survivors` drops exactly the positions in `toSkip` and keeps the others in order: the
   * choice at a kept position `k` lands at `k` minus the number of dropped positions before it.
   */
  lemma {:induction false} SurvivorsKeepOrder(trace: Trace, toSkip: set<int>)
    ensures |Survivors(trace, toSkip)| == |trace| - CountBelow(toSkip, |trace|)
    ensures forall k :: 0 <= k < |trace| && k !in toSkip ==>
      0 <= Landing(toSkip, k) < |Survivors(trace, toSkip)|
      && Survivors(trace, toSkip)[Landing(toSkip, k)] == trace[k]
  {
    SurvivorsLength(trace, toSkip);
    forall k | 0 <= k < |trace| && k !in toSkip
      ensures 0 <= Landing(toSkip, k) < |Survivors(trace, toSkip)|
      ensures Survivors(trace, toSkip)[Landing(toSkip, k)] == trace[k]
    {
      SurvivorAt(trace, toSkip, k);
    }
  }

  /**
   * `SkipNodeMutator` fails exactly when the trace has no `Node` choice; otherwise it removes
   * max(NumSkips, 0) choices, all of them `Node` choices, keeping the rest in order.
   */
  lemma SkipNodeMutatorRemoves(trace: Trace, numSkips: int, toSkip: set<int>)
    requires SkipsDrawn(trace, numSkips, toSkip)
    ensures Skipped(trace, toSkip).None? <==> forall k :: 0 <= k < |trace| ==> trace[k].choiceType != Node
    ensures Skipped(trace, toSkip).Some? ==>
      var t := Skipped(trace, toSkip).value;
      && |t| == |trace| - Max(numSkips, 0)
      && (forall k :: k in toSkip ==> 0 <= k < |trace| && trace[k].choiceType == Node)
      && (forall k :: 0 <= k < |trace| && k !in toSkip ==>
            0 <= Landing(toSkip, k) < |t| && t[Landing(toSkip, k)] == trace[k])
  {
    NoPositions(trace, Node);
    if PositionsOf(trace, Node) != [] {
      var t := Survivors(trace, toSkip);
      assert Skipped(trace, toSkip) == Some(t);
      DrawnArePositions(trace, Node, toSkip);
      SurvivorsKeepOrder(trace, toSkip);
      CountBelowAll(toSkip, |trace|);
      assert |t| == |trace| - Max(numSkips, 0);
    }
  }

  // ---------------------------------------------------------------------------
  // SwapNodeMutator and SwapIntegerChoiceMutator

  /** Every index in `pairs` is a position of `trace`. */
  ghost predicate PairsWithin(pairs: seq<(int, int)>, n: int) {
    forall k :: 0 <= k < |pairs| ==> 0 <= pairs[k].0 < n && 0 <= pairs[k].1 < n
  }

  /** The two `Set` calls of one swap, applied one after the other. */
  function SwapAt(t: Trace, i: int, j: int): Trace
    requires 0 <= i < |t| && 0 <= j < |t|
  {
    t[i := t[j]][j := t[i]]
  }

  /** The swap loop: the pairs applied in the map's iteration order. */
  function ApplySwaps(t: Trace, pairs: seq<(int, int)>): Trace
    requires PairsWithin(pairs, |t|)
    decreases |pairs|
  {
    if pairs == [] then t
    else
      var u := ApplySwaps(t, pairs[..|pairs| - 1]);
      var (i, j) := pairs[|pairs| - 1];
      if 0 <= i < |u| && 0 <= j < |u| then SwapAt(u, i, j) else u
  }

  /** The indices named in `pairs`. */
  ghost function Touched(pairs: seq<(int, int)>): set<int> {
    (set k | 0 <= k < |pairs| :: pairs[k].0) + (set k | 0 <= k < |pairs| :: pairs[k].1)
  }

  lemma SwapAtPermutes(u: Trace, i: int, j: int)
    requires 0 <= i < |u| && 0 <= j < |u|
    ensures |SwapAt(u, i, j)| == |u|
    ensures multiset(SwapAt(u, i, j)) == multiset(u)
  {
    var v := u[i := u[j]];
    assert multiset(v) == multiset(u) - multiset{u[i]} + multiset{u[j]};
    assert multiset(v[j := u[i]]) == multiset(v) - multiset{v[j]} + multiset{u[i]};
  }

  /** A run of swaps yields a permutation of the trace of the same length. */
  lemma {:induction false} ApplySwapsPermutes(t: Trace, pairs: seq<(int, int)>)
    requires PairsWithin(pairs, |t|)
    ensures |ApplySwaps(t, pairs)| == |t|
    ensures multiset(ApplySwaps(t, pairs)) == multiset(t)
    decreases |pairs|
  {
    if pairs != [] {
      var front := pairs[..|pairs| - 1];
      assert PairsWithin(front, |t|);
      ApplySwapsPermutes(t, front);
      var (i, j) := pairs[|pairs| - 1];
      SwapAtPermutes(ApplySwaps(t, front), i, j);
    }
  }

  /** A position named by no pair keeps its choice. */
  lemma {:induction false} ApplySwapsUntouched(t: Trace, pairs: seq<(int, int)>)
    requires PairsWithin(pairs, |t|)
    ensures |ApplySwaps(t, pairs)| == |t|
    ensures forall k :: 0 <= k < |t| && k !in Touched(pairs) ==> ApplySwaps(t, pairs)[k] == t[k]
    decreases |pairs|
  {
    ApplySwapsPermutes(t, pairs);
    if pairs != [] {
      var front := pairs[..|pairs| - 1];
      assert PairsWithin(front, |t|);
      ApplySwapsUntouched(t, front);
      ApplySwapsPermutes(t, front);
      var (i, j) := pairs[|pairs| - 1];
      assert Touched(pairs) == Touched(front) + {i, j} by {
        assert forall k :: 0 <= k < |front| ==> front[k] == pairs[k];
      }
    }
  }

  /** When each pair names two positions of the same type, every position keeps its type. */
  lemma {:induction false} ApplySwapsKeepTypes(t: Trace, pairs: seq<(int, int)>)
    requires PairsWithin(pairs, |t|)
    requires forall k :: 0 <= k < |pairs| ==> t[pairs[k].0].choiceType == t[pairs[k].1].choiceType
    ensures |ApplySwaps(t, pairs)| == |t|
    ensures forall k :: 0 <= k < |t| ==> ApplySwaps(t, pairs)[k].choiceType == t[k].choiceType
    decreases |pairs|
  {
    ApplySwapsPermutes(t, pairs);
    if pairs != [] {
      var front := pairs[..|pairs| - 1];
      assert PairsWithin(front, |t|);
      ApplySwapsKeepTypes(t, front);
    }
  }

  /** What both swap mutators return once the pairs have been drawn. */
  function Swapped(trace: Trace, t: SchedulingChoiceType, pairs: seq<(int, int)>): Option<Trace>
    requires PositionsOf(trace, t) != [] ==> PairsWithin(pairs, |trace|)
  {
    if PositionsOf(trace, t) == [] then None else Some(ApplySwaps(trace, pairs))
  }

  /**
   * The exit state of `SwapNodeMutator`'s selection loop, listed in the map's iteration order:
   * distinct pairs of `Node` positions, as many as NumSwaps capped at the number of positions.
   */
  ghost predicate NodeSwapsDrawn(trace: Trace, numSwaps: int, pairs: seq<(int, int)>) {
    var indices := PositionsOf(trace, Node);
    indices != [] ==>
      && Distinct(pairs)
      && |pairs| == Max(if numSwaps < |indices| then numSwaps else |indices|, 0)
      && (forall k :: 0 <= k < |pairs| ==> pairs[k].0 in indices && pairs[k].1 in indices)
  }

  /**
   * The exit state of `SwapIntegerChoiceMutator`'s selection loop: pairs of `RandomInteger`
   * positions keyed by their first index, so the first indices are distinct and there are
   * max(NumSwaps, 0) of them (the loop is not capped).
   */
  ghost predicate IntegerSwapsDrawn(trace: Trace, numSwaps: int, pairs: seq<(int, int)>) {
    var indices := PositionsOf(trace, RandomInteger);
    indices != [] ==>
      && (forall a, b :: 0 <= a < b < |pairs| ==> pairs[a].0 != pairs[b].0)
      && |pairs| == Max(numSwaps, 0)
      && (forall k :: 0 <= k < |pairs| ==> pairs[k].0 in indices && pairs[k].1 in indices)
  }

  /** Drawn pairs name positions of the drawn type only. */
  lemma PairsArePositions(trace: Trace, t: SchedulingChoiceType, pairs: seq<(int, int)>)
    requires forall k :: 0 <= k < |pairs| ==> pairs[k].0 in PositionsOf(trace, t) && pairs[k].1 in PositionsOf(trace, t)
    ensures PairsWithin(pairs, |trace|)
    ensures forall k :: k in Touched(pairs) ==> 0 <= k < |trace| && trace[k].choiceType == t
  {
  }

  /** `SwapNodeMutator.Mutate`: copy the trace, then swap each drawn pair with `Get`/`Set`. */
  method SwapNodeMutate(numSwaps: int, trace: Trace, pairs: seq<(int, int)>) returns (r: Option<Trace>)
    requires NodeSwapsDrawn(trace, numSwaps, pairs)
    ensures r == Swapped(trace, Node, pairs)
  {
    var indices := IndicesOfType(trace, Node);
    if |indices| == 0 {
      return None;
    }
    PairsArePositions(trace, Node, pairs);
    var newTrace := SwapLoop(trace, pairs);
    return Some(newTrace);
  }

  /** `SwapIntegerChoiceMutator.Mutate`: the same copy-and-swap over `RandomInteger` positions. */
  method SwapIntegerChoiceMutate(numSwaps: int, trace: Trace, pairs: seq<(int, int)>) returns (r: Option<Trace>)
    requires IntegerSwapsDrawn(trace, numSwaps, pairs)
    ensures r == Swapped(trace, RandomInteger, pairs)
  {
    var indices := IndicesOfType(trace, RandomInteger);
    if |indices| == 0 {
      return None;
    }
    PairsArePositions(trace, RandomInteger, pairs);
    var newTrace := SwapLoop(trace, pairs);
    return Some(newTrace);
  }

  /** The copy and the swap loop shared by both swap mutators. */
  method SwapLoop(trace: Trace, pairs: seq<(int, int)>) returns (newTrace: Trace)
    requires PairsWithin(pairs, |trace|)
    ensures newTrace == ApplySwaps(trace, pairs)
  {
    newTrace := CopyTrace(trace, DefaultCopyFilter());
    FilteredKeepsAccepted(trace, DefaultCopyFilter());
    for p := 0 to |pairs|
      invariant PairsWithin(pairs[..p], |trace|)
      invariant newTrace == ApplySwaps(trace, pairs[..p])
    {
      assert pairs[..p + 1][..p] == pairs[..p];
      ApplySwapsPermutes(trace, pairs[..p]);
      var (i, j) := pairs[p];
      var first := newTrace[i];
      var second := newTrace[j];
      newTrace := newTrace[i := second];
      newTrace := newTrace[j := first];
    }
    assert pairs[..|pairs|] == pairs;
  }

  /**
   * Both swap mutators fail exactly when the trace has no choice of their type; otherwise they
   * return a permutation of the trace of the same length in which every position keeps its
   * type, so every choice of another type stays where it was.
   */
  lemma SwapMutatorsPermute(trace: Trace, t: SchedulingChoiceType, pairs: seq<(int, int)>)
    requires forall k :: 0 <= k < |pairs| ==> pairs[k].0 in PositionsOf(trace, t) && pairs[k].1 in PositionsOf(trace, t)
    ensures PairsWithin(pairs, |trace|)
    ensures Swapped(trace, t, pairs).None? <==> forall k :: 0 <= k < |trace| ==> trace[k].choiceType != t
    ensures Swapped(trace, t, pairs).Some? ==>
      var r := Swapped(trace, t, pairs).value;
      && |r| == |trace|
      && multiset(r) == multiset(trace)
      && (forall k :: 0 <= k < |trace| ==> r[k].choiceType == trace[k].choiceType)
      && (forall k :: 0 <= k < |trace| && trace[k].choiceType != t ==> r[k] == trace[k])
  {
    PairsArePositions(trace, t, pairs);
    NoPositions(trace, t);
    ApplySwapsPermutes(trace, pairs);
    ApplySwapsUntouched(trace, pairs);
    ApplySwapsKeepTypes(trace, pairs);
  }

  /** `SwapNodeMutator`'s selection loop always exits: enough distinct pairs exist. */
  lemma NodeSwapsExist(trace: Trace, numSwaps: int)
    ensures exists pairs :: NodeSwapsDrawn(trace, numSwaps, pairs)
  {
    var indices := PositionsOf(trace, Node);
    var n := Max(if numSwaps < |indices| then numSwaps else |indices|, 0);
    var pairs := seq(n, k requires 0 <= k < n => (indices[k], indices[k]));
    assert NodeSwapsDrawn(trace, numSwaps, pairs);
  }

  /**
   * `SwapIntegerChoiceMutator`'s selection loop exits exactly when NumSwaps is at most the
   * number of `RandomInteger` positions (when there is at least one).
   */
  lemma IntegerSwapsExist(trace: Trace, numSwaps: int)
    requires PositionsOf(trace, RandomInteger) != []
    ensures (exists pairs :: IntegerSwapsDrawn(trace, numSwaps, pairs)) <==> numSwaps <= |PositionsOf(trace, RandomInteger)|
  {
    var indices := PositionsOf(trace, RandomInteger);
    if numSwaps <= |indices| {
      var n := Max(numSwaps, 0);
      var pairs := seq(n, k requires 0 <= k < n => (indices[k], indices[k]));
      assert IntegerSwapsDrawn(trace, numSwaps, pairs);
    } else {
      forall pairs: seq<(int, int)> | IntegerSwapsDrawn(trace, numSwaps, pairs)
        ensures false
      {
        var firsts := set k | 0 <= k < |pairs| :: pairs[k].0;
        DistinctFirsts(pairs);
        assert firsts <= Elems(indices);
        SubsetSize(firsts, Elems(indices));
        ElemsSize(indices);
      }
    }
  }

  lemma {:induction false} DistinctFirsts(pairs: seq<(int, int)>)
    requires forall a, b :: 0 <= a < b < |pairs| ==> pairs[a].0 != pairs[b].0
    ensures |set k | 0 <= k < |pairs| :: pairs[k].0| == |pairs|
    decreases |pairs|
  {
    if pairs != [] {
      var front := pairs[..|pairs| - 1];
      DistinctFirsts(front);
      var last := pairs[|pairs| - 1].0;
      assert (set k | 0 <= k < |pairs| :: pairs[k].0) == (set k | 0 <= k < |front| :: front[k].0) + {last};
      assert last !in (set k | 0 <= k < |front| :: front[k].0);
    }
  }

  /** A strictly increasing sequence has as many elements as its set. */
  lemma {:induction false} ElemsSize(s: seq<int>)
    requires forall i, j :: 0 <= i < j < |s| ==> s[i] < s[j]
    ensures |Elems(s)| == |s|
    decreases |s|
  {
    if s != [] {
      var front := s[..|s| - 1];
      ElemsSize(front);
      assert Elems(s) == Elems(front) + {s[|s| - 1]};
      assert s[|s| - 1] !in Elems(front);
    }
  }

  // ---------------------------------------------------------------------------
  // ScaleDownIntChoiceMutator and ScaleUpIntChoiceMutator

  /** The offsets 0..n-1 into a list of indices. */
  ghost function Below(n: int): set<int>
    ensures forall k :: k in Below(n) <==> 0 <= k < n
    ensures |Below(n)| == Max(n, 0)
  {
    if n <= 0 then {} else Below(n - 1) + {n - 1}
  }

  /** The trace positions that drawn offsets into `indices` name. */
  function PointPositions(indices: seq<int>, points: set<int>): set<int> {
    set p | p in points && 0 <= p < |indices| :: indices[p]
  }

  /** The choice `ScaleDownIntChoiceMutator` stores for a positive value: `draw` replaces it. */
  function Lowered(draw: int): SchedulingChoice {
    SchedulingChoice(RandomInteger, 0, false, draw)
  }

  /**
   * The trace with each chosen positive value replaced by its draw; `draws(k)` is the value
   * `Intn(old)` returns for position `k`.
   */
  function ScaleDownAt(trace: Trace, chosen: set<int>, draws: int -> int): Trace {
    seq(|trace|, k requires 0 <= k < |trace| =>
      if k in chosen && trace[k].integerChoice > 0 then Lowered(draws(k)) else trace[k])
  }

  /** What `ScaleDownIntChoiceMutator.Mutate` returns once the points and values are drawn. */
  function ScaledDown(trace: Trace, points: set<int>, draws: int -> int): Option<Trace> {
    var indices := PositionsOf(trace, RandomInteger);
    if indices == [] then None else Some(ScaleDownAt(trace, PointPositions(indices, points), draws))
  }

  /**
   * The exit state of the scale-down selection loop (max(NumPoints, 0) distinct offsets into
   * the index list, uncapped) and the values `Intn(old)` draws, each in [0, old).
   */
  ghost predicate ScaleDownDrawn(trace: Trace, numPoints: int, points: set<int>, draws: int -> int) {
    var indices := PositionsOf(trace, RandomInteger);
    indices != [] ==>
      && Selected(points, Below(|indices|), numPoints)
      && forall k :: k in PointPositions(indices, points) && 0 <= k < |trace| && trace[k].integerChoice > 0 ==>
           0 <= draws(k) < trace[k].integerChoice
  }

  /** `indices` is strictly increasing and lists positions below `n`, as `PositionsOf` does. */
  ghost predicate IndexList(indices: seq<int>, n: int) {
    && (forall a, b :: 0 <= a < b < |indices| ==> indices[a] < indices[b])
    && (forall a :: 0 <= a < |indices| ==> 0 <= indices[a] < n)
  }

  /** Adding one more offset to the processed ones names one new position. */
  lemma PointPositionsStep(indices: seq<int>, done: set<int>, i: int)
    requires forall a, b :: 0 <= a < b < |indices| ==> indices[a] < indices[b]
    requires 0 <= i < |indices| && i !in done
    ensures PointPositions(indices, done + {i}) == PointPositions(indices, done) + {indices[i]}
    ensures indices[i] !in PointPositions(indices, done)
  {
    forall p | p in done && 0 <= p < |indices|
      ensures indices[p] != indices[i]
    {
      assert p < i || i < p;
    }
  }

  /** One pass of the scale-down loop, processing offset `i`. */
  lemma ScaleDownStep(trace: Trace, indices: seq<int>, done: set<int>, i: int, draws: int -> int, cur: Trace)
    requires IndexList(indices, |trace|)
    requires 0 <= i < |indices| && i !in done
    requires cur == ScaleDownAt(trace, PointPositions(indices, done), draws)
    ensures var index := indices[i];
      ScaleDownAt(trace, PointPositions(indices, done + {i}), draws)
      == if cur[index].integerChoice > 0 then cur[index := Lowered(draws(index))] else cur
  {
    PointPositionsStep(indices, done, i);
  }

  method ScaleDownIntChoiceMutate(numPoints: int, trace: Trace, points: set<int>, draws: int -> int)
    returns (r: Option<Trace>)
    requires ScaleDownDrawn(trace, numPoints, points, draws)
    ensures r == ScaledDown(trace, points, draws)
  {
    var indices := IndicesOfType(trace, RandomInteger);
    if |indices| == 0 {
      return None;
    }
    assert IndexList(indices, |trace|);
    var newTrace := ScaleDownLoop(trace, indices, points, draws);
    return Some(newTrace);
  }

  /** The copy and the loop over the drawn offsets, in the map's (arbitrary) iteration order. */
  method ScaleDownLoop(trace: Trace, indices: seq<int>, points: set<int>, draws: int -> int)
    returns (newTrace: Trace)
    requires IndexList(indices, |trace|)
    requires points <= Below(|indices|)
    ensures newTrace == ScaleDownAt(trace, PointPositions(indices, points), draws)
  {
    newTrace := CopyTrace(trace, DefaultCopyFilter());
    FilteredKeepsAccepted(trace, DefaultCopyFilter());
    var rest := points;
    assert newTrace == ScaleDownAt(trace, PointPositions(indices, points - rest), draws);
    while rest != {}
      invariant rest <= points
      invariant newTrace == ScaleDownAt(trace, PointPositions(indices, points - rest), draws)
      decreases |rest|
    {
      var i :| i in rest;
      newTrace := ScaleDownOne(trace, indices, points, rest, i, draws, newTrace);
      rest := rest - {i};
    }
    assert points - rest == points;
  }

  /** One iteration of the scale-down loop: the drawn offset `i` lowers its position if positive. */
  method ScaleDownOne(trace: Trace, indices: seq<int>, points: set<int>, rest: set<int>, i: int, draws: int -> int, cur: Trace)
    returns (next: Trace)
    requires IndexList(indices, |trace|)
    requires points <= Below(|indices|) && rest <= points && i in rest
    requires cur == ScaleDownAt(trace, PointPositions(indices, points - rest), draws)
    ensures next == ScaleDownAt(trace, PointPositions(indices, points - (rest - {i})), draws)
  {
    var done := points - rest;
    ScaleDownStep(trace, indices, done, i, draws, cur);
    var index := indices[i];
    next := cur;
    if cur[index].integerChoice > 0 {
      next := cur[index := Lowered(draws(index))];
    }
    assert points - (rest - {i}) == done + {i};
  }

  /** The choice `ScaleUpIntChoiceMutator` stores: twice the old value, capped at `max`. */
  function Raised(c: SchedulingChoice, max: int): SchedulingChoice {
    SchedulingChoice(RandomInteger, 0, false, Min(max, c.integerChoice * 2))
  }

  /** A raised value never exceeds `max`, and one that was between 0 and `max` does not shrink. */
  lemma RaisedBounds(c: SchedulingChoice, max: int)
    ensures Raised(c, max).integerChoice <= max
    ensures 0 <= c.integerChoice <= max ==> Raised(c, max).integerChoice >= c.integerChoice
  {
  }

  function ScaleUpAt(trace: Trace, chosen: set<int>, max: int): Trace {
    seq(|trace|, k requires 0 <= k < |trace| => if k in chosen then Raised(trace[k], max) else trace[k])
  }

  /** What `ScaleUpIntChoiceMutator.Mutate` returns once the points are drawn. */
  function ScaledUp(trace: Trace, max: int, points: set<int>): Option<Trace> {
    var indices := PositionsOf(trace, RandomInteger);
    if indices == [] then None else Some(ScaleUpAt(trace, PointPositions(indices, points), max))
  }

  /** The exit state of the scale-up selection loop, whose count is capped at the number of indices. */
  ghost predicate ScaleUpDrawn(trace: Trace, numPoints: int, points: set<int>) {
    var n := |PositionsOf(trace, RandomInteger)|;
    n != 0 ==> Selected(points, Below(n), if numPoints < n then numPoints else n)
  }

  /** One pass of the scale-up loop, processing offset `i`. */
  lemma ScaleUpStep(trace: Trace, indices: seq<int>, done: set<int>, i: int, max: int, cur: Trace)
    requires IndexList(indices, |trace|)
    requires 0 <= i < |indices| && i !in done
    requires cur == ScaleUpAt(trace, PointPositions(indices, done), max)
    ensures var index := indices[i];
      ScaleUpAt(trace, PointPositions(indices, done + {i}), max) == cur[index := Raised(cur[index], max)]
  {
    PointPositionsStep(indices, done, i);
  }

  method ScaleUpIntChoiceMutate(numPoints: int, max: int, trace: Trace, points: set<int>)
    returns (r: Option<Trace>)
    requires ScaleUpDrawn(trace, numPoints, points)
    ensures r == ScaledUp(trace, max, points)
  {
    var indices := IndicesOfType(trace, RandomInteger);
    if |indices| == 0 {
      return None;
    }
    assert IndexList(indices, |trace|);
    var newTrace := ScaleUpLoop(trace, indices, points, max);
    return Some(newTrace);
  }

  /** The copy and the loop over the drawn offsets, in the map's (arbitrary) iteration order. */
  method ScaleUpLoop(trace: Trace, indices: seq<int>, points: set<int>, max: int) returns (newTrace: Trace)
    requires IndexList(indices, |trace|)
    requires points <= Below(|indices|)
    ensures newTrace == ScaleUpAt(trace, PointPositions(indices, points), max)
  {
    newTrace := CopyTrace(trace, DefaultCopyFilter());
    FilteredKeepsAccepted(trace, DefaultCopyFilter());
    var rest := points;
    assert newTrace == ScaleUpAt(trace, PointPositions(indices, points - rest), max);
    while rest != {}
      invariant rest <= points
      invariant newTrace == ScaleUpAt(trace, PointPositions(indices, points - rest), max)
      decreases |rest|
    {
      var i :| i in rest;
      newTrace := ScaleUpOne(trace, indices, points, rest, i, max, newTrace);
      rest := rest - {i};
    }
    assert points - rest == points;
  }

  /** One iteration of the scale-up loop: the drawn offset `i` doubles its position, capped at `max`. */
  method ScaleUpOne(trace: Trace, indices: seq<int>, points: set<int>, rest: set<int>, i: int, max: int, cur: Trace)
    returns (next: Trace)
    requires IndexList(indices, |trace|)
    requires points <= Below(|indices|) && rest <= points && i in rest
    requires cur == ScaleUpAt(trace, PointPositions(indices, points - rest), max)
    ensures next == ScaleUpAt(trace, PointPositions(indices, points - (rest - {i})), max)
  {
    var done := points - rest;
    ScaleUpStep(trace, indices, done, i, max, cur);
    var index := indices[i];
    next := cur[index := Raised(cur[index], max)];
    assert points - (rest - {i}) == done + {i};
  }

  /**
   * The offsets drawn into the index list name as many trace positions as there are offsets,
   * all of them `RandomInteger` positions.
   */
  lemma {:induction false} PointPositionsSize(trace: Trace, points: set<int>)
    requires points <= Below(|PositionsOf(trace, RandomInteger)|)
    ensures |PointPositions(PositionsOf(trace, RandomInteger), points)| == |points|
    ensures forall k :: k in PointPositions(PositionsOf(trace, RandomInteger), points) ==>
      0 <= k < |trace| && trace[k].choiceType == RandomInteger
  {
    var indices := PositionsOf(trace, RandomInteger);
    PointPositionsCount(indices, points);
  }

  /** Distinct offsets into a strictly increasing index list name as many distinct indices. */
  lemma {:induction false} PointPositionsCount(indices: seq<int>, points: set<int>)
    requires forall a, b :: 0 <= a < b < |indices| ==> indices[a] < indices[b]
    requires forall p :: p in points ==> 0 <= p < |indices|
    ensures |PointPositions(indices, points)| == |points|
    decreases |points|
  {
    if points != {} {
      assert exists x :: x in points by { if forall x :: x !in points { assert false; } }
      var i :| i in points;
      var rest := points - {i};
      PointPositionsCount(indices, rest);
      PointPositionsStep(indices, rest, i);
      assert rest + {i} == points;
    } else {
      assert PointPositions(indices, points) == {};
    }
  }

  /**
   * `ScaleDownIntChoiceMutator` fails exactly when the trace has no `RandomInteger` choice;
   * otherwise it draws max(NumPoints, 0) of them, replaces each drawn positive value with a
   * value in [0, old) and leaves every other choice, including drawn zero or negative values,
   * unchanged; so no integer choice grows.
   */
  lemma ScaleDownIntChoiceMutatorLowers(trace: Trace, numPoints: int, points: set<int>, draws: int -> int)
    requires ScaleDownDrawn(trace, numPoints, points, draws)
    ensures ScaledDown(trace, points, draws).None? <==> forall k :: 0 <= k < |trace| ==> trace[k].choiceType != RandomInteger
    ensures ScaledDown(trace, points, draws).Some? ==>
      var r := ScaledDown(trace, points, draws).value;
      var chosen := PointPositions(PositionsOf(trace, RandomInteger), points);
      && |r| == |trace|
      && |chosen| == Max(numPoints, 0)
      && (forall k :: k in chosen ==> 0 <= k < |trace| && trace[k].choiceType == RandomInteger)
      && (forall k :: 0 <= k < |trace| && k in chosen && trace[k].integerChoice > 0 ==>
            r[k].choiceType == RandomInteger && 0 <= r[k].integerChoice < trace[k].integerChoice)
      && (forall k :: 0 <= k < |trace| && (k !in chosen || trace[k].integerChoice <= 0) ==> r[k] == trace[k])
      && (forall k :: 0 <= k < |trace| ==> r[k].integerChoice <= trace[k].integerChoice)
  {
    NoPositions(trace, RandomInteger);
    if PositionsOf(trace, RandomInteger) != [] {
      PointPositionsSize(trace, points);
    }
  }

  /**
   * `ScaleUpIntChoiceMutator` fails exactly when the trace has no `RandomInteger` choice;
   * otherwise it draws min(NumPoints, number of integer choices) of them (at least 0), sets
   * each to min(Max, 2 * old) and leaves every other choice unchanged; a drawn value that was
   * between 0 and Max does not shrink.
   */
  lemma ScaleUpIntChoiceMutatorRaises(trace: Trace, numPoints: int, max: int, points: set<int>)
    requires ScaleUpDrawn(trace, numPoints, points)
    ensures ScaledUp(trace, max, points).None? <==> forall k :: 0 <= k < |trace| ==> trace[k].choiceType != RandomInteger
    ensures ScaledUp(trace, max, points).Some? ==>
      var r := ScaledUp(trace, max, points).value;
      var n := |PositionsOf(trace, RandomInteger)|;
      var chosen := PointPositions(PositionsOf(trace, RandomInteger), points);
      && |r| == |trace|
      && |chosen| == Max(if numPoints < n then numPoints else n, 0)
      && (forall k :: k in chosen ==> 0 <= k < |trace| && trace[k].choiceType == RandomInteger)
      && (forall k :: 0 <= k < |trace| && k in chosen ==>
            && r[k] == SchedulingChoice(RandomInteger, 0, false, Min(max, 2 * trace[k].integerChoice))
            && r[k].integerChoice <= max
            && (0 <= trace[k].integerChoice <= max ==> r[k].integerChoice >= trace[k].integerChoice))
      && (forall k :: 0 <= k < |trace| && k !in chosen ==> r[k] == trace[k])
  {
    NoPositions(trace, RandomInteger);
    var indices := PositionsOf(trace, RandomInteger);
    if indices != [] {
      var chosen := PointPositions(indices, points);
      PointPositionsSize(trace, points);
      var r := ScaleUpAt(trace, chosen, max);
      assert ScaledUp(trace, max, points) == Some(r);
      assert |r| == |trace|;
      forall k | 0 <= k < |trace| && k in chosen
        ensures r[k] == Raised(trace[k], max)
        ensures r[k].integerChoice <= max
        ensures 0 <= trace[k].integerChoice <= max ==> r[k].integerChoice >= trace[k].integerChoice
      {
        RaisedBounds(trace[k], max);
      }
    }
  }

  /**
   * The scale-down selection loop is not capped: it exits exactly when NumPoints is at most
   * the number of `RandomInteger` choices.
   */
  lemma ScaleDownSelectionExists(trace: Trace, numPoints: int)
    ensures (exists points :: Selected(points, Below(|PositionsOf(trace, RandomInteger)|), numPoints))
      <==> numPoints <= |PositionsOf(trace, RandomInteger)|
  {
    var n := |PositionsOf(trace, RandomInteger)|;
    assert |Below(n)| == n;
    SelectionExists(Below(n), numPoints);
  }

  /** The scale-up selection loop is capped, so it always exits. */
  lemma ScaleUpSelectionExists(trace: Trace, numPoints: int)
    ensures exists points :: ScaleUpDrawn(trace, numPoints, points)
  {
    var n := |PositionsOf(trace, RandomInteger)|;
    SelectionExists(Below(n), if numPoints < n then numPoints else n);
    var points :| Selected(points, Below(n), if numPoints < n then numPoints else n);
    assert ScaleUpDrawn(trace, numPoints, points);
  }
}
