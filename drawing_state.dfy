/**
 * One room's operation log with linear undo and redo (drawing-state.js).
 *
 * The log is first described as a value (`Log`) with one function per operation;
 * the class `DrawingState` then implements the same operations in place, and each
 * of its methods is proved to leave the object in the state the function computes.
 */
module OperationLog {
  import opened Wrappers

  /** Capacity of the replayable history. */
  const MaxHistorySize: nat := 10000

  /**
   * The value of a log. `operations` is the replayable history, oldest first; its
   * tail is also what undo takes. `undoStack` holds undone operations, the most
   * recently undone one last.
   */
  datatype Log<T> = Log(operations: seq<T>, undoStack: seq<T>)

  /** The outcome of undo or redo: the new log and the operation that moved, or None. */
  datatype Step<T> = Step(log: Log<T>, moved: Option<T>)

  /** What `getState` reports about a log. */
  datatype Snapshot<T> = Snapshot(operations: seq<T>, canUndo: bool, canRedo: bool, operationCount: nat)

  /** The capacity invariant: both stacks together never hold more than the capacity. */
  ghost predicate Bounded<T>(log: Log<T>) {
    |log.operations| + |log.undoStack| <= MaxHistorySize
  }

  function EmptyLog<T>(): Log<T> {
    Log([], [])
  }

  function Last<T>(s: seq<T>): T
    requires s != []
  {
    s[|s| - 1]
  }

  function Reverse<T>(s: seq<T>): (r: seq<T>)
    ensures |r| == |s|
  {
    if s == [] then [] else Reverse(s[1..]) + [s[0]]
  }

  /**
   * Everything the log has committed, in the order it was done: the history followed
   * by the undone operations, most recently undone last-but-first. Undo and redo only
   * move the boundary inside this sequence.
   */
  function Timeline<T>(log: Log<T>): seq<T> {
    log.operations + Reverse(log.undoStack)
  }

  /** addOperation: invalidates redo, appends, and evicts the oldest entry past capacity. */
  function LogAppend<T>(log: Log<T>, op: T): Log<T> {
    var ops := log.operations + [op];
    Log(if |ops| > MaxHistorySize then ops[1..] else ops, [])
  }

  /** undo: moves the tail of the history onto the undo stack; None on an empty history. */
  function LogUndo<T>(log: Log<T>): Step<T> {
    if |log.operations| == 0 then Step(log, None)
    else
      var op := Last(log.operations);
      Step(Log(log.operations[..|log.operations| - 1], log.undoStack + [op]), Some(op))
  }

  /** redo: moves the top of the undo stack back onto the history, with no capacity check. */
  function LogRedo<T>(log: Log<T>): Step<T> {
    if |log.undoStack| == 0 then Step(log, None)
    else
      var op := Last(log.undoStack);
      Step(Log(log.operations + [op], log.undoStack[..|log.undoStack| - 1]), Some(op))
  }

  /** clear: both stacks become empty. */
  function LogClear<T>(log: Log<T>): Log<T> {
    EmptyLog()
  }

  /** getState: a copy of the history with the two flags and the count. */
  function LogSnapshot<T>(log: Log<T>): Snapshot<T> {
    Snapshot(log.operations, |log.operations| > 0, |log.undoStack| > 0, |log.operations|)
  }

  /** Applies addOperation to each of `ops` in turn. */
  function LogAppendAll<T>(log: Log<T>, ops: seq<T>): Log<T>
    decreases |ops|
  {
    if ops == [] then log else LogAppendAll(LogAppend(log, ops[0]), ops[1..])
  }

  /** The last `n` elements of `s`, or all of `s` when it is not longer than `n`. */
  function Newest<T>(s: seq<T>, n: nat): (w: seq<T>)
    ensures |w| == if |s| <= n then |s| else n
  {
    if |s| <= n then s else s[|s| - n..]
  }

  // ---------------------------------------------------------------------------
  // Properties of the log operations
  // ---------------------------------------------------------------------------

  /**
   * Append empties the undo stack and puts the operation last. Below capacity the
   * history grows by exactly that operation; at capacity the oldest entry goes first.
   */
  lemma AppendEvictsOldest<T>(log: Log<T>, op: T)
    ensures LogAppend(log, op).undoStack == []
    ensures LogAppend(log, op).operations != [] && Last(LogAppend(log, op).operations) == op
    ensures |log.operations| < MaxHistorySize ==> LogAppend(log, op).operations == log.operations + [op]
    ensures |log.operations| == MaxHistorySize ==> LogAppend(log, op).operations == log.operations[1..] + [op]
  {
  }

  /** Every operation keeps the capacity invariant, so the history never exceeds the capacity. */
  lemma OperationsKeepBounded<T>(log: Log<T>)
    requires Bounded(log)
    ensures forall op :: Bounded(LogAppend(log, op)) && |LogAppend(log, op).operations| <= MaxHistorySize
    ensures Bounded(LogUndo(log).log) && |LogUndo(log).log.operations| <= MaxHistorySize
    ensures Bounded(LogRedo(log).log) && |LogRedo(log).log.operations| <= MaxHistorySize
    ensures Bounded(LogClear(log))
  {
  }

  /** Without the invariant redo can push the history past the capacity. */
  lemma RedoNeedsBounded(op: int)
    ensures var full := Log(seq(MaxHistorySize, i => op), [op]);
            |LogRedo(full).log.operations| == MaxHistorySize + 1
  {
  }

  /** Undo on an empty history returns None and changes nothing; otherwise it returns the tail. */
  lemma UndoTakesTail<T>(log: Log<T>)
    ensures log.operations == [] <==> LogUndo(log).moved == None
    ensures log.operations == [] ==> LogUndo(log).log == log
    ensures log.operations != [] ==>
      && LogUndo(log).moved == Some(Last(log.operations))
      && LogUndo(log).log.operations + [Last(log.operations)] == log.operations
      && LogUndo(log).log.undoStack == log.undoStack + [Last(log.operations)]
  {
  }

  /** Redo on an empty undo stack returns None and changes nothing; otherwise it returns its top. */
  lemma RedoTakesTop<T>(log: Log<T>)
    ensures log.undoStack == [] <==> LogRedo(log).moved == None
    ensures log.undoStack == [] ==> LogRedo(log).log == log
    ensures log.undoStack != [] ==>
      && LogRedo(log).moved == Some(Last(log.undoStack))
      && LogRedo(log).log.operations == log.operations + [Last(log.undoStack)]
      && LogRedo(log).log.undoStack + [Last(log.undoStack)] == log.undoStack
  {
  }

  /** Redo undoes undo: both stacks come back exactly, and the same operation moves both ways. */
  lemma UndoThenRedo<T>(log: Log<T>)
    requires log.operations != []
    ensures LogRedo(LogUndo(log).log) == Step(log, LogUndo(log).moved)
  {
    var ops := log.operations;
    assert ops[..|ops| - 1] + [Last(ops)] == ops;
  }

  /** Undo undoes redo. */
  lemma RedoThenUndo<T>(log: Log<T>)
    requires log.undoStack != []
    ensures LogUndo(LogRedo(log).log) == Step(log, LogRedo(log).moved)
  {
    var u := log.undoStack;
    assert u[..|u| - 1] + [Last(u)] == u;
  }

  lemma {:induction false} ReverseSnoc<T>(s: seq<T>, x: T)
    ensures Reverse(s + [x]) == [x] + Reverse(s)
  {
    if s != [] {
      assert (s + [x])[1..] == s[1..] + [x];
      ReverseSnoc(s[1..], x);
    }
  }

  /**
   * Undo only moves the boundary between the two stacks: the committed timeline,
   * hence its multiset and the total count, is unchanged.
   */
  lemma {:induction false} UndoKeepsTimeline<T>(log: Log<T>)
    ensures Timeline(LogUndo(log).log) == Timeline(log)
    ensures multiset(Timeline(LogUndo(log).log)) == multiset(Timeline(log))
    ensures |LogUndo(log).log.operations| + |LogUndo(log).log.undoStack| == |log.operations| + |log.undoStack|
  {
    if log.operations != [] {
      var ops, x := log.operations, Last(log.operations);
      var after := LogUndo(log).log;
      assert after == Log(ops[..|ops| - 1], log.undoStack + [x]);
      ReverseSnoc(log.undoStack, x);
      calc {
        Timeline(after);
        ops[..|ops| - 1] + Reverse(log.undoStack + [x]);
        ops[..|ops| - 1] + ([x] + Reverse(log.undoStack));
        { assert ops[..|ops| - 1] + [x] == ops; }
        ops + Reverse(log.undoStack);
      }
    }
  }

  /** Redo only moves the boundary back: the timeline, its multiset and the total count are unchanged. */
  lemma {:induction false} RedoKeepsTimeline<T>(log: Log<T>)
    ensures Timeline(LogRedo(log).log) == Timeline(log)
    ensures multiset(Timeline(LogRedo(log).log)) == multiset(Timeline(log))
    ensures |LogRedo(log).log.operations| + |LogRedo(log).log.undoStack| == |log.operations| + |log.undoStack|
  {
    if log.undoStack != [] {
      var u, y := log.undoStack, Last(log.undoStack);
      var rest := u[..|u| - 1];
      var after := LogRedo(log).log;
      assert after == Log(log.operations + [y], rest);
      assert rest + [y] == u;
      ReverseSnoc(rest, y);
      calc {
        Timeline(log);
        log.operations + Reverse(rest + [y]);
        log.operations + ([y] + Reverse(rest));
        (log.operations + [y]) + Reverse(rest);
      }
    }
  }

  /** Appending invalidates redo, and the appended operation is the next one undo returns. */
  lemma AppendInvalidatesRedo<T>(log: Log<T>, op: T)
    ensures LogRedo(LogAppend(log, op)).moved == None
    ensures LogUndo(LogAppend(log, op)).moved == Some(op)
  {
  }

  /** The snapshot's flags say exactly whether undo and redo would move something. */
  lemma SnapshotPredictsUndoRedo<T>(log: Log<T>)
    ensures LogSnapshot(log).canUndo <==> LogUndo(log).moved.Some?
    ensures LogSnapshot(log).canRedo <==> LogRedo(log).moved.Some?
    ensures LogSnapshot(log).operations == log.operations
    ensures LogSnapshot(log).operationCount == |LogSnapshot(log).operations|
  {
  }

  /** Clear empties both stacks whatever the prior state. */
  lemma ClearEmpties<T>(log: Log<T>)
    ensures LogClear(log).operations == [] && LogClear(log).undoStack == []
    ensures LogSnapshot(LogClear(log)) == Snapshot([], false, false, 0)
  {
  }

  lemma {:induction false} NewestOfNewest<T>(s: seq<T>, t: seq<T>, n: nat)
    ensures Newest(Newest(s, n) + t, n) == Newest(s + t, n)
  {
    if |s| > n {
      var w := s[|s| - n..];
      assert |w| == n;
      if |t| == 0 {
        assert w + t == w;
        assert s + t == s;
      } else {
        var lhs, rhs := (w + t)[|t|..], (s + t)[|s| + |t| - n..];
        assert |lhs| == n == |rhs|;
        forall i | 0 <= i < n ensures lhs[i] == rhs[i] {
          if i + |t| < n {
            assert lhs[i] == w[i + |t|] == s[|s| - n + i + |t|];
            assert rhs[i] == s[|s| + |t| - n + i];
          } else {
            assert lhs[i] == t[i + |t| - n];
            assert rhs[i] == t[i + |t| - n];
          }
        }
        assert lhs == rhs;
      }
    }
  }

  lemma AppendKeepsNewest<T>(log: Log<T>, op: T)
    requires |log.operations| <= MaxHistorySize
    ensures LogAppend(log, op).operations == Newest(log.operations + [op], MaxHistorySize)
    ensures |LogAppend(log, op).operations| <= MaxHistorySize
  {
  }

  /**
   * A run of appends keeps exactly the newest `MaxHistorySize` operations of the
   * history followed by the appended ones, in order, and leaves nothing to redo.
   */
  lemma {:induction false} AppendAllKeepsNewest<T>(log: Log<T>, ops: seq<T>)
    requires |log.operations| <= MaxHistorySize
    ensures LogAppendAll(log, ops).operations == Newest(log.operations + ops, MaxHistorySize)
    ensures ops != [] ==> LogAppendAll(log, ops).undoStack == []
    decreases |ops|
  {
    if ops == [] {
      assert log.operations + ops == log.operations;
    } else {
      var first, rest := [ops[0]], ops[1..];
      var next := LogAppend(log, ops[0]);
      AppendKeepsNewest(log, ops[0]);
      AppendAllKeepsNewest(next, rest);
      NewestOfNewest(log.operations + first, rest, MaxHistorySize);
      assert log.operations + first + rest == log.operations + ops;
      calc {
        LogAppendAll(log, ops).operations;
        LogAppendAll(next, rest).operations;
        Newest(next.operations + rest, MaxHistorySize);
        Newest(Newest(log.operations + first, MaxHistorySize) + rest, MaxHistorySize);
        Newest(log.operations + first + rest, MaxHistorySize);
        Newest(log.operations + ops, MaxHistorySize);
      }
    }
  }

  /**
   * From a fresh log: appends within capacity are kept in exactly the order made;
   * past capacity the history is exactly the newest `MaxHistorySize` of them.
   */
  lemma AppendsFromEmpty<T>(ops: seq<T>)
    ensures |ops| <= MaxHistorySize ==> LogAppendAll(EmptyLog(), ops).operations == ops
    ensures |ops| > MaxHistorySize ==>
      LogAppendAll(EmptyLog(), ops).operations == ops[|ops| - MaxHistorySize..]
  {
    AppendAllKeepsNewest(EmptyLog(), ops);
    assert EmptyLog<T>().operations + ops == ops;
  }

  /** The worked example: A, B, undo (gives B), C, then redo gives nothing and the history is [A, C]. */
  lemma UndoThenAppendScenario<T>(a: T, b: T, c: T)
    ensures var l1 := LogAppend(LogAppend(EmptyLog(), a), b);
            var u := LogUndo(l1);
            var l2 := LogAppend(u.log, c);
            && u.moved == Some(b)
            && LogRedo(l2).moved == None
            && LogSnapshot(LogRedo(l2).log).operations == [a, c]
  {
  }

  // ---------------------------------------------------------------------------
  // The class, updated in place
  // ---------------------------------------------------------------------------

  class DrawingState<T> {
    var operations: seq<T>
    var undoStack: seq<T>
    const maxHistorySize: nat

    ghost predicate Valid()
      reads this
    {
      maxHistorySize == MaxHistorySize && Bounded(State())
    }

    /** The object's current value as a log. */
    function State(): Log<T>
      reads this
    {
      Log(operations, undoStack)
    }

    constructor ()
      ensures Valid()
      ensures operations == [] && undoStack == []
    {
      operations := [];
      undoStack := [];
      maxHistorySize := MaxHistorySize;
    }

    method AddOperation(operation: T) returns (r: T)
      requires Valid()
      modifies this
      ensures Valid()
      ensures r == operation
      ensures State() == LogAppend(old(State()), operation)
    {
      undoStack := [];
      operations := operations + [operation];
      if |operations| > maxHistorySize {
        operations := operations[1..];
      }
      r := operation;
    }

    method Undo() returns (r: Option<T>)
      requires Valid()
      modifies this
      ensures Valid()
      ensures Step(State(), r) == LogUndo(old(State()))
    {
      if |operations| == 0 {
        return None;
      }
      var operation := operations[|operations| - 1];
      operations := operations[..|operations| - 1];
      undoStack := undoStack + [operation];
      r := Some(operation);
    }

    method Redo() returns (r: Option<T>)
      requires Valid()
      modifies this
      ensures Valid()
      ensures Step(State(), r) == LogRedo(old(State()))
    {
      if |undoStack| == 0 {
        return None;
      }
      var operation := undoStack[|undoStack| - 1];
      undoStack := undoStack[..|undoStack| - 1];
      operations := operations + [operation];
      r := Some(operation);
    }

    method Clear()
      requires Valid()
      modifies this
      ensures Valid()
      ensures State() == LogClear(old(State()))
    {
      operations := [];
      undoStack := [];
    }

    /** A read-only report; the copied history is a value, so later updates cannot reach it. */
    method GetState() returns (s: Snapshot<T>)
      ensures s == LogSnapshot(State())
      ensures s.canUndo <==> operations != []
      ensures s.canRedo <==> undoStack != []
      ensures s.operations == operations && s.operationCount == |operations|
    {
      s := Snapshot(operations, |operations| > 0, |undoStack| > 0, |operations|);
    }
  }
}
