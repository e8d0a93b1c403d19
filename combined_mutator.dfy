/**
 * The `Mutator` interface of mutator.go as a closed set of variants, and `combinedMutator`,
 * which runs a list of them one after the other.
 */
module CombinedMutators {
  import opened Common
  import opened Types
  import opened Mutators

  /** The mutators of mutator.go, each with its configuration field(s). */
  datatype Mutator =
    | EmptyMutator
    | ChoiceMutator(numFlips: int)
    | SkipNodeMutator(numSkips: int)
    | SwapNodeMutator(numSwaps: int)
    | SwapIntegerChoiceMutator(numSwaps: int)
    | ScaleDownIntChoiceMutator(numPoints: int)
    | ScaleUpIntChoiceMutator(numPoints: int, max: int)

  /** The random draws of one `Mutate` call; each mutator reads the fields it draws. */
  datatype Draws = Draws(chosen: set<int>, pairs: seq<(int, int)>, values: int -> int)

  /** The draws are an exit state of the mutator's selection loop on `trace`. */
  ghost predicate Drawn(m: Mutator, trace: Trace, d: Draws) {
    match m
    case EmptyMutator => true
    case ChoiceMutator(n) => FlipsDrawn(trace, n, d.chosen)
    case SkipNodeMutator(n) => SkipsDrawn(trace, n, d.chosen)
    case SwapNodeMutator(n) => NodeSwapsDrawn(trace, n, d.pairs)
    case SwapIntegerChoiceMutator(n) => IntegerSwapsDrawn(trace, n, d.pairs)
    case ScaleDownIntChoiceMutator(n) => ScaleDownDrawn(trace, n, d.chosen, d.values)
    case ScaleUpIntChoiceMutator(n, _) => ScaleUpDrawn(trace, n, d.chosen)
  }

  /** What `m.Mutate(trace)` returns with draws `d`; `EmptyMutator` always fails. */
  function Mutation(m: Mutator, trace: Trace, d: Draws): Option<Trace>
    requires Drawn(m, trace, d)
  {
    match m
    case EmptyMutator => None
    case ChoiceMutator(_) => Flipped(trace, d.chosen)
    case SkipNodeMutator(_) => Skipped(trace, d.chosen)
    case SwapNodeMutator(_) => Swapped(trace, Node, d.pairs)
    case SwapIntegerChoiceMutator(_) => Swapped(trace, RandomInteger, d.pairs)
    case ScaleDownIntChoiceMutator(_) => ScaledDown(trace, d.chosen, d.values)
    case ScaleUpIntChoiceMutator(_, max) => ScaledUp(trace, max, d.chosen)
  }

  /** A call through the `Mutator` interface. */
  method Mutate(m: Mutator, trace: Trace, d: Draws) returns (r: Option<Trace>)
    requires Drawn(m, trace, d)
    ensures r == Mutation(m, trace, d)
  {
    match m
    case EmptyMutator =>
      r := None;
    case ChoiceMutator(n) =>
      r := ChoiceMutate(n, trace, d.chosen);
    case SkipNodeMutator(n) =>
      r := SkipNodeMutate(n, trace, d.chosen);
    case SwapNodeMutator(n) =>
      r := SwapNodeMutate(n, trace, d.pairs);
    case SwapIntegerChoiceMutator(n) =>
      r := SwapIntegerChoiceMutate(n, trace, d.pairs);
    case ScaleDownIntChoiceMutator(n) =>
      r := ScaleDownIntChoiceMutate(n, trace, d.chosen, d.values);
    case ScaleUpIntChoiceMutator(n, max) =>
      r := ScaleUpIntChoiceMutate(n, max, trace, d.chosen);
  }

  type Stage = (Mutator, Draws)

  /** Every stage's draws fit the trace that stage receives, as long as no earlier stage failed. */
  ghost predicate StagesDrawn(stages: seq<Stage>, trace: Trace)
    decreases |stages|
  {
    stages == [] ||
    (Drawn(stages[0].0, trace, stages[0].1) &&
      match Mutation(stages[0].0, trace, stages[0].1)
      case None => true
      case Some(next) => StagesDrawn(stages[1..], next))
  }

  /** The stages applied left to right; the first failure fails the whole. */
  function Composed(stages: seq<Stage>, trace: Trace): Option<Trace>
    requires StagesDrawn(stages, trace)
    decreases |stages|
  {
    if stages == [] then Some(trace)
    else
      match Mutation(stages[0].0, trace, stages[0].1)
      case None => None
      case Some(next) => Composed(stages[1..], next)
  }

  /** `combinedMutator.Mutate`: copy the trace, then feed it through each mutator in turn. */
  method CombinedMutate(stages: seq<Stage>, trace: Trace) returns (r: Option<Trace>)
    requires StagesDrawn(stages, trace)
    ensures r == Composed(stages, trace)
  {
    var cur := CopyTrace(trace, DefaultCopyFilter());
    FilteredKeepsAccepted(trace, DefaultCopyFilter());
    assert stages[0..] == stages;
    for i := 0 to |stages|
      invariant StagesDrawn(stages[i..], cur)
      invariant Composed(stages, trace) == Composed(stages[i..], cur)
    {
      assert stages[i..][0] == stages[i] && stages[i..][1..] == stages[i + 1..];
      var next := Mutate(stages[i].0, cur, stages[i].1);
      if next.None? {
        return None;
      }
      cur := next.value;
    }
    return Some(cur);
  }

  /**
   * Splitting the stages anywhere: the combined run is the run of the first part followed,
   * if that succeeded, by the run of the rest on its result.
   */
  lemma {:induction false} ComposedSplits(a: seq<Stage>, b: seq<Stage>, trace: Trace)
    requires StagesDrawn(a + b, trace)
    ensures StagesDrawn(a, trace)
    ensures Composed(a, trace).Some? ==> StagesDrawn(b, Composed(a, trace).value)
    ensures Composed(a + b, trace) == if Composed(a, trace).None? then None else Composed(b, Composed(a, trace).value)
    decreases |a|
  {
    if a == [] {
      assert a + b == b;
    } else {
      assert (a + b)[0] == a[0] && (a + b)[1..] == a[1..] + b;
      match Mutation(a[0].0, trace, a[0].1)
      case None =>
      case Some(next) =>
        ComposedSplits(a[1..], b, next);
    }
  }

  /** Stage `i` fails on the trace the stages before it produced. */
  ghost predicate StageFails(stages: seq<Stage>, trace: Trace, i: int) {
    && 0 <= i < |stages|
    && StagesDrawn(stages[..i], trace)
    && Composed(stages[..i], trace).Some?
    && Drawn(stages[i].0, Composed(stages[..i], trace).value, stages[i].1)
    && Mutation(stages[i].0, Composed(stages[..i], trace).value, stages[i].1).None?
  }

  /** The combined mutator fails exactly when one of its mutators fails on the trace it receives. */
  lemma {:induction false} CombinedFailsIffStageFails(stages: seq<Stage>, trace: Trace)
    requires StagesDrawn(stages, trace)
    ensures Composed(stages, trace).None? <==> exists i :: StageFails(stages, trace, i)
    decreases |stages|
  {
    if stages != [] {
      assert stages[..0] == [];
      match Mutation(stages[0].0, trace, stages[0].1)
      case None =>
        assert StageFails(stages, trace, 0);
      case Some(next) =>
        var rest := stages[1..];
        CombinedFailsIffStageFails(rest, next);
        if i :| StageFails(rest, next, i) {
          ShiftStage(stages, trace, next, i);
          assert StageFails(stages, trace, i + 1);
        }
        forall i | StageFails(stages, trace, i)
          ensures StageFails(rest, next, i - 1)
        {
          if i == 0 {
            assert false;
          }
          ShiftStage(stages, trace, next, i - 1);
        }
    }
  }

  /** Running the first stage and then `i` more is running the first `i + 1` stages. */
  lemma ShiftStage(stages: seq<Stage>, trace: Trace, next: Trace, i: int)
    requires stages != [] && 0 <= i < |stages| - 1
    requires Drawn(stages[0].0, trace, stages[0].1)
    requires Mutation(stages[0].0, trace, stages[0].1) == Some(next)
    ensures StagesDrawn(stages[..i + 1], trace) <==> StagesDrawn(stages[1..][..i], next)
    ensures StagesDrawn(stages[..i + 1], trace) ==> Composed(stages[..i + 1], trace) == Composed(stages[1..][..i], next)
  {
    assert stages[..i + 1][0] == stages[0];
    assert stages[..i + 1][1..] == stages[1..][..i];
  }

  /** An `EmptyMutator` anywhere in the list makes the combined mutator fail. */
  lemma EmptyStageFails(stages: seq<Stage>, trace: Trace, i: int)
    requires StagesDrawn(stages, trace)
    requires 0 <= i < |stages| && stages[i].0 == EmptyMutator
    ensures Composed(stages, trace) == None
  {
    assert stages == stages[..i] + stages[i..];
    ComposedSplits(stages[..i], stages[i..], trace);
    assert stages[i..][0] == stages[i];
  }
}
