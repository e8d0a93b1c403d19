/**
 * guider.go: the TLC state-string normaliser and the coverage bookkeeping of the two guiders.
 * Hashes (SHA-256 of the JSON encoding) and the TLC server's answer are inputs.
 */
module Guiders {
  import opened Common
  import opened Types

  // ---------------------------------------------------------------------------
  // State-string normalisation

  /**
   * Go's `strings.ReplaceAll` for a non-empty pattern: one left-to-right pass replacing
   * non-overlapping occurrences; replaced text is not scanned again.
   */
  function ReplaceAll(s: string, pattern: string, replacement: string): string
    requires pattern != []
    decreases |s|
  {
    if |s| < |pattern| then s
    else if s[..|pattern|] == pattern then replacement + ReplaceAll(s[|pattern|..], pattern, replacement)
    else [s[0]] + ReplaceAll(s[1..], pattern, replacement)
  }

  /** Replacing a pattern by itself changes nothing. */
  lemma {:induction false} ReplaceAllSelf(s: string, p: string)
    requires p != []
    ensures ReplaceAll(s, p, p) == s
    decreases |s|
  {
    if |s| >= |p| {
      if s[..|p|] == p {
        ReplaceAllSelf(s[|p|..], p);
        assert s == s[..|p|] + s[|p|..];
      } else {
        ReplaceAllSelf(s[1..], p);
        assert s == [s[0]] + s[1..];
      }
    }
  }

  /** A character that neither the input nor the replacement holds does not appear. */
  lemma {:induction false} ReplaceAllKeepsOut(s: string, pattern: string, replacement: string, c: char)
    requires pattern != []
    requires c !in s && c !in replacement
    ensures c !in ReplaceAll(s, pattern, replacement)
    decreases |s|
  {
    if |s| >= |pattern| {
      if s[..|pattern|] == pattern {
        assert forall x :: x in s[|pattern|..] ==> x in s;
        ReplaceAllKeepsOut(s[|pattern|..], pattern, replacement, c);
      } else {
        assert forall x :: x in s[1..] ==> x in s;
        ReplaceAllKeepsOut(s[1..], pattern, replacement, c);
      }
    }
  }

  /** Replacing a single character by text without it removes every occurrence of it. */
  lemma {:induction false} ReplaceAllRemoves(s: string, c: char, replacement: string)
    requires c !in replacement
    ensures c !in ReplaceAll(s, [c], replacement)
    decreases |s|
  {
    if |s| >= 1 {
      if s[..1] == [c] {
        ReplaceAllRemoves(s[1..], c, replacement);
      } else {
        assert s[0] != c by {
          assert s[..1] == [s[0]];
        }
        ReplaceAllRemoves(s[1..], c, replacement);
      }
    }
  }

  /** The rewriting `parseTLCStateTrace` applies to each state's `Repr`. */
  function Normalize(repr: string): (r: string)
    ensures '\n' !in r
  {
    var lines := ReplaceAll(repr, "\n", ",");
    ReplaceAllRemoves(repr, '\n', ",");
    var conj := ReplaceAll(lines, "/\\", "");
    ReplaceAllKeepsOut(lines, "/\\", "", '\n');
    var close := ReplaceAll(conj, ">>", "]");
    ReplaceAllKeepsOut(conj, ">>", "]", '\n');
    var open := ReplaceAll(close, "<<", "[");
    ReplaceAllKeepsOut(close, "<<", "[", '\n');
    ReplaceAllKeepsOut(open, ">", ">", '\n');
    ReplaceAll(open, ">", ">")
  }

  /** The last replacement (`>` by `>`) is the identity: only the first four do anything. */
  lemma LastReplacementIsIdentity(repr: string)
    ensures Normalize(repr) ==
      ReplaceAll(ReplaceAll(ReplaceAll(ReplaceAll(repr, "\n", ","), "/\\", ""), ">>", "]"), "<<", "[")
  {
    ReplaceAllSelf(ReplaceAll(ReplaceAll(ReplaceAll(ReplaceAll(repr, "\n", ","), "/\\", ""), ">>", "]"), "<<", "["), ">");
  }

  /**
   * The passes do not rescan their output, so removing one `/\` can join the characters
   * around it into a new one, which stays in the normalised text.
   */
  lemma ConjunctionCanSurvive()
    ensures Normalize("//\\\\") == "/\\"
  {
    var s := "//\\\\";
    ReplaceAllUnmatched(s, "\n", ",");
    assert s[..2] != "/\\" && s[1..][..2] == "/\\";
    assert ReplaceAll(s[1..][2..], "/\\", "") == "\\";
    assert ReplaceAll(s, "/\\", "") == "/\\";
    ReplaceAllUnmatched("/\\", ">>", "]");
    ReplaceAllUnmatched("/\\", "<<", "[");
    ReplaceAllUnmatched("/\\", ">", ">");
  }

  /** Text without the pattern's first character is left as it is. */
  lemma {:induction false} ReplaceAllUnmatched(s: string, pattern: string, replacement: string)
    requires pattern != [] && pattern[0] !in s
    ensures ReplaceAll(s, pattern, replacement) == s
    decreases |s|
  {
    if |s| >= |pattern| {
      assert s[..|pattern|][0] == s[0];
      ReplaceAllUnmatched(s[1..], pattern, replacement);
      assert s == [s[0]] + s[1..];
    }
  }

  /**
   * `parseTLCStateTrace`: a list of the same length whose states keep their `Key` at the same
   * index and whose `Repr` holds no newline.
   */
  function ParseTLCStateTrace(states: seq<State>): (r: seq<State>)
    ensures |r| == |states|
    ensures forall i :: 0 <= i < |r| ==> r[i].key == states[i].key && '\n' !in r[i].repr
  {
    seq(|states|, i requires 0 <= i < |states| => State(Normalize(states[i].repr), states[i].key))
  }

  // ---------------------------------------------------------------------------
  // Coverage bookkeeping

  /** The distinct keys of a list of TLC states. */
  ghost function Keys(states: seq<State>): set<int> {
    set s | s in states :: s.key
  }

  /** A list of states has at most as many distinct keys as states. */
  lemma {:induction false} KeysBounded(states: seq<State>)
    ensures |Keys(states)| <= |states|
    decreases |states|
  {
    if states != [] {
      var front := states[..|states| - 1];
      KeysBounded(front);
      assert Keys(states) == Keys(front) + {states[|states| - 1].key} by {
        assert forall s :: s in states <==> s in front || s == states[|states| - 1];
      }
    } else {
      assert Keys(states) == {};
    }
  }

  class TLCStateGuider {
    /** The keys of the TLC states seen so far (`map[int64]bool` whose values are all true). */
    var statesMap: set<int>
    /** The hashes of the scheduling traces seen so far. */
    var tracesMap: set<string>
    /** The hashes of the TLC state traces seen so far. */
    var stateTracesMap: set<string>

    constructor()
      ensures statesMap == {} && tracesMap == {} && stateTracesMap == {}
    {
      statesMap := {};
      tracesMap := {};
      stateTracesMap := {};
    }

    method Reset()
      modifies this
      ensures statesMap == {} && tracesMap == {} && stateTracesMap == {}
    {
      statesMap := {};
      tracesMap := {};
      stateTracesMap := {};
    }

    /** The loop over the TLC states: record each key, counting the ones not seen before. */
    method AddStates(states: seq<State>) returns (numNewStates: int)
      modifies this
      ensures statesMap == old(statesMap) + Keys(states)
      ensures numNewStates == |statesMap| - |old(statesMap)| == |Keys(states) - old(statesMap)|
      ensures tracesMap == old(tracesMap) && stateTracesMap == old(stateTracesMap)
    {
      numNewStates := 0;
      for i := 0 to |states|
        invariant statesMap == old(statesMap) + Keys(states[..i])
        invariant numNewStates == |statesMap| - |old(statesMap)|
        invariant tracesMap == old(tracesMap) && stateTracesMap == old(stateTracesMap)
      {
        assert Keys(states[..i + 1]) == Keys(states[..i]) + {states[i].key} by {
          assert states[..i + 1] == states[..i] + [states[i]];
        }
        if states[i].key !in statesMap {
          numNewStates := numNewStates + 1;
          statesMap := statesMap + {states[i].key};
        }
      }
      assert states[..|states|] == states;
      assert statesMap == old(statesMap) + (Keys(states) - old(statesMap));
    }

    /**
     * `Check` with the hash of the scheduling trace, the TLC server's answer (`None` for a
     * connection error) and the hash of that answer as inputs. `ok == false` is the panic on
     * a connection error, raised after the trace hash was recorded. Otherwise the state set
     * gains the answer's keys, `numNewStates` is its growth (a key repeated in one answer
     * counts once, so it is at most the answer's length) and the state-trace set gains the
     * answer's hash.
     */
    method Check(traceHash: string, tlcResponse: Option<seq<State>>, stateTraceHash: string)
      returns (numNewStates: int, ok: bool)
      modifies this
      ensures tracesMap == old(tracesMap) + {traceHash}
      ensures |tracesMap| <= |old(tracesMap)| + 1
      ensures ok <==> tlcResponse.Some?
      ensures !ok ==> statesMap == old(statesMap) && stateTracesMap == old(stateTracesMap)
      ensures ok ==>
        && statesMap == old(statesMap) + Keys(tlcResponse.value)
        && numNewStates == |statesMap| - |old(statesMap)|
        && 0 <= numNewStates <= |tlcResponse.value|
        && stateTracesMap == old(stateTracesMap) + {stateTraceHash}
        && |stateTracesMap| <= |old(stateTracesMap)| + 1
    {
      if traceHash !in tracesMap {
        tracesMap := tracesMap + {traceHash};
      }
      numNewStates := 0;
      match tlcResponse {
        case None =>
          return 0, false;
        case Some(tlcStates) =>
          numNewStates := AddStates(tlcStates);
          KeysBounded(tlcStates);
          assert |Keys(tlcStates) - old(statesMap)| <= |Keys(tlcStates)|;
          if stateTraceHash !in stateTracesMap {
            stateTracesMap := stateTracesMap + {stateTraceHash};
          }
          ok := true;
      }
    }
  }

  class TraceCoverageGuider {
    /** The hashes of the event traces seen so far. */
    var traces: set<string>
    /** The embedded `TLCStateGuider`. */
    const tlc: TLCStateGuider

    constructor()
      ensures traces == {} && fresh(tlc)
      ensures tlc.statesMap == {} && tlc.tracesMap == {} && tlc.stateTracesMap == {}
    {
      traces := {};
      tlc := new TLCStateGuider();
    }

    /**
     * `Check`: the embedded guider's `Check` first (its panic ends the call), then the event
     * trace's hash `eventTraceKey` is recorded; the result is 1 exactly when it is new.
     */
    method Check(traceHash: string, tlcResponse: Option<seq<State>>, stateTraceHash: string, eventTraceKey: string)
      returns (isNew: int, ok: bool)
      modifies this, tlc
      ensures ok <==> tlcResponse.Some?
      ensures tlc.tracesMap == old(tlc.tracesMap) + {traceHash}
      ensures ok ==> tlc.statesMap == old(tlc.statesMap) + Keys(tlcResponse.value)
      ensures ok ==> tlc.stateTracesMap == old(tlc.stateTracesMap) + {stateTraceHash}
      ensures !ok ==> tlc.statesMap == old(tlc.statesMap) && tlc.stateTracesMap == old(tlc.stateTracesMap)
      ensures !ok ==> traces == old(traces)
      ensures ok ==>
        && (isNew == 1 <==> eventTraceKey !in old(traces))
        && (isNew == 0 || isNew == 1)
        && traces == old(traces) + {eventTraceKey}
    {
      var _, tlcOk := tlc.Check(traceHash, tlcResponse, stateTraceHash);
      if !tlcOk {
        return 0, false;
      }
      isNew := 0;
      if eventTraceKey !in traces {
        traces := traces + {eventTraceKey};
        isNew := 1;
      }
      ok := true;
    }

    method Reset()
      modifies this, tlc
      ensures traces == {}
      ensures tlc.statesMap == {} && tlc.tracesMap == {} && tlc.stateTracesMap == {}
    {
      traces := {};
      tlc.Reset();
    }
  }
}
