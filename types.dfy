/**
 * types.go: the scheduling-choice record the mutators rewrite, the generic FIFO queue
 * and list containers, the state record exchanged with TLC, and `max`.
 */
module Types {
  /** The three kinds of scheduling decision a trace records. */
  datatype SchedulingChoiceType = Node | RandomBoolean | RandomInteger

  /** One recorded decision; `nodeId` is a uint64 and so never negative. */
  datatype SchedulingChoice = SchedulingChoice(
    choiceType: SchedulingChoiceType,
    nodeId: nat,
    booleanChoice: bool,
    integerChoice: int)

  /** A protocol state: its printed form and its int64 key. */
  datatype State = State(repr: string, key: int)

  /** A FIFO queue backed by a slice. */
  class Queue<T(0)> {
    var q: seq<T>

    /** `NewQueue`. */
    constructor ()
      ensures q == []
    {
      q := [];
    }

    /** Appends one element at the back. */
    method Push(elem: T)
      modifies this
      ensures q == old(q) + [elem]
    {
      q := q + [elem];
    }

    /** Appends all `elems` at the back, in their order. */
    method PushAll(elems: seq<T>)
      modifies this
      ensures q == old(q) + elems
    {
      q := q + elems;
    }

    /**
     * Removes and returns the front element; on an empty queue `ok` is false, the queue is
     * unchanged and `elem` is the zero value, which the model leaves unspecified.
     */
    method Pop() returns (elem: T, ok: bool)
      modifies this
      ensures ok <==> old(q) != []
      ensures ok ==> elem == old(q)[0] && q == old(q)[1..]
      ensures !ok ==> q == old(q)
    {
      if |q| < 1 {
        elem := *;
        ok := false;
        return;
      }
      elem := q[0];
      q := q[1..];
      ok := true;
    }

    function Size(): int
      reads this
    {
      |q|
    }

    /** Empties the queue. */
    method Reset()
      modifies this
      ensures q == [] && Size() == 0
    {
      q := [];
    }
  }

  /** A growable list backed by a slice. */
  class List<T(0)> {
    var l: seq<T>

    /** `NewList`. */
    constructor ()
      ensures l == []
    {
      l := [];
    }

    /** Adds `elem` as the new last element: the size grows by one and nothing else moves. */
    method Append(elem: T)
      modifies this
      ensures l == old(l) + [elem] && Size() == old(Size()) + 1
    {
      l := l + [elem];
    }

    function Size(): int
      reads this
    {
      |l|
    }

    /**
     * The element at `index`, with `ok` false exactly when `index` is at or past the end.
     * A negative index makes the slice access panic, so callers must not pass one.
     */
    method Get(index: int) returns (elem: T, ok: bool)
      requires index >= 0
      ensures ok <==> index < |l|
      ensures ok ==> elem == l[index]
    {
      if |l| <= index {
        elem := *;
        ok := false;
        return;
      }
      elem := l[index];
      ok := true;
    }

    /**
     * Replaces the element at `index`; at or past the end it returns false and changes
     * nothing. A negative index panics, as for `Get`.
     */
    method Set(index: int, elem: T) returns (ok: bool)
      requires index >= 0
      modifies this
      ensures ok <==> index < old(|l|)
      ensures ok ==> l == old(l)[index := elem]
      ensures !ok ==> l == old(l)
    {
      if |l| <= index {
        return false;
      }
      l := l[index := elem];
      return true;
    }

    function Iter(): seq<T>
      reads this
    {
      l
    }

    /** Empties the list. */
    method Reset()
      modifies this
      ensures l == [] && Size() == 0
    {
      l := [];
    }

    /** A new list with the same elements. */
    method Copy() returns (c: List<T>)
      ensures fresh(c) && c.l == l
    {
      c := new List<T>();
      c.l := l;
    }
  }

  /** The larger of two integers. */
  function Max(a: int, b: int): (m: int)
    ensures m >= a && m >= b
    ensures m == a || m == b
  {
    if a > b then a else b
  }

  /** Go's built-in `min` on two integers. */
  function Min(a: int, b: int): (m: int)
    ensures m <= a && m <= b
    ensures m == a || m == b
  {
    if a <= b then a else b
  }
}
