/**
  The QML list model that turns an old list into a new one in place, telling
  its views about every block of rows it removes, inserts, moves or replaces.
  What is announced and what is edited are two things, shown to agree.
 */
module ScriptModel {
  import opened RowOps
  import opened ListDiff
  import KeyedDiff

  class ScriptModel<V(==)> {
    var mValues: seq<V>
    var comparison: Comparison<V>
    var announced: seq<RowOp<V>>

    constructor ()
      ensures mValues == [] && comparison == ByValue && announced == []
    {
      mValues, comparison, announced := [], ByValue, [];
    }

    /** Announces the rows past the new list's length, and erases from the iterator on. */
    method RemoveTail(iter: nat, newValues: seq<V>)
      requires iter == |newValues| < |mValues|
      modifies this`mValues, this`announced
      ensures announced == old(announced) + [Remove(iter, |old(mValues)| - 1)]
      ensures mValues == Apply(old(mValues), Remove(iter, |old(mValues)| - 1)) && |mValues| == iter
    {
      var startIndex, endIndex := |newValues|, |mValues| - 1;
      announced := announced + [Remove(startIndex, endIndex)];
      mValues := mValues[..iter];
    }

    /** Appends everything in the new list past the rows there are, and announces the rows that appear. */
    method AppendTail(newValues: seq<V>)
      requires |mValues| < |newValues|
      modifies this`mValues, this`announced
      ensures announced == old(announced) + [Insert(|old(mValues)|, newValues[|old(mValues)|..])]
      ensures mValues == Apply(old(mValues), Insert(|old(mValues)|, newValues[|old(mValues)|..]))
      ensures |mValues| == |newValues|
    {
      var startIndex, endIndex := |mValues|, |newValues| - 1;
      mValues := mValues + newValues[startIndex..];
      announced := announced + [Insert(startIndex, mValues[startIndex..endIndex + 1])];
      assert mValues[startIndex..endIndex + 1] == newValues[startIndex..];
    }

    /** Removes the longest run from `at` on of rows that compare to nothing still to come. */
    method RemoveRun(at: nat, newValues: seq<V>)
      requires at < |mValues| && at <= |newValues|
      requires FindFrom(newValues, at, comparison, mValues[at]) == |newValues|
      modifies this`mValues, this`announced
      ensures var end := old(UnwantedEnd(comparison, mValues, newValues, at, at));
              && at < end <= |old(mValues)|
              && announced == old(announced) + [Remove(at, end - 1)]
              && mValues == Apply(old(mValues), Remove(at, end - 1))
    {
      hide FindFrom;
      var iter := at + 1;
      while iter != |mValues| && FindFrom(newValues, at, comparison, mValues[iter]) == |newValues|
        invariant at < iter <= |mValues|
        invariant UnwantedEnd(comparison, mValues, newValues, at, at)
               == UnwantedEnd(comparison, mValues, newValues, at, iter)
        decreases |mValues| - iter
      {
        iter := iter + 1;
      }
      announced := announced + [Remove(at, iter - 1)];
      mValues := mValues[..at] + mValues[iter..];
    }

    /** Moves the longest run that continues the new list, found further down, in front of `at`. */
    method MoveRun(at: nat, newValues: seq<V>, from: nat) returns (n: nat)
      requires at < from < |mValues| && at < |newValues|
      requires Same(comparison, mValues[from], newValues[at])
      modifies this`mValues, this`announced
      ensures n == old(CommonLength(comparison, mValues, from, newValues, at)) > 0
      ensures from + n <= |old(mValues)| && at + n <= |newValues|
      ensures announced == old(announced) + [Move(from, from + n - 1, at)]
      ensures mValues == Apply(old(mValues), Move(from, from + n - 1, at))
    {
      hide Same, Apply;
      n := 1;
      while from + n != |mValues| && at + n != |newValues|
            && Same(comparison, mValues[from + n], newValues[at + n])
        invariant 0 < n && from + n <= |mValues| && at + n <= |newValues|
        invariant CommonLength(comparison, mValues, from, newValues, at)
               == n + CommonLength(comparison, mValues, from + n, newValues, at + n)
        decreases |mValues| - n
      {
        n := n + 1;
      }
      announced := announced + [Move(from, from + n - 1, at)];
      MoveBlock(at, from, n);
    }

    /** Moves a block row by row. */
    method MoveBlock(at: nat, from: nat, n: nat)
      requires at < from && 0 < n && from + n <= |mValues|
      modifies this`mValues
      ensures mValues == Apply(old(mValues), Move(from, from + n - 1, at))
    {
      var i := 0;
      while i != n
        invariant 0 <= i <= n && mValues == Moved(old(mValues), at, from, i)
        decreases n - i
      {
        mValues := MoveOne(mValues, from + i, at + i);
        MovedStep(old(mValues), at, from, i);
        i := i + 1;
      }
    }

    /** Makes room for some rows: the list grows, and its end is copied backwards, row by row. */
    method OpenGap(at: nat, len: nat, filler: V)
      requires at <= |mValues|
      modifies this`mValues
      ensures |mValues| == |old(mValues)| + len
      ensures mValues[..at] == old(mValues)[..at] && mValues[at + len..] == old(mValues)[at..]
    {
      mValues := mValues + seq(len, _ => filler);
      var i := |mValues|;
      while i != at + len
        invariant at + len <= i <= |mValues| == |old(mValues)| + len
        invariant forall k :: i <= k < |mValues| ==> mValues[k] == old(mValues)[k - len]
        invariant forall k :: 0 <= k < i && k < |old(mValues)| ==> mValues[k] == old(mValues)[k]
        decreases i
      {
        i := i - 1;
        mValues := mValues[i := mValues[i - len]];
      }
    }

    /** Inserts the longest run of new values that compare to no remaining row. */
    method InsertRun(at: nat, newValues: seq<V>) returns (end: nat)
      requires at <= |mValues| && at < |newValues|
      requires FindFrom(mValues, at, comparison, newValues[at]) == |mValues|
      modifies this`mValues, this`announced
      ensures end == old(NewEnd(comparison, mValues, newValues, at, at)) && at < end <= |newValues|
      ensures announced == old(announced) + [Insert(at, newValues[at..end])]
      ensures mValues == Apply(old(mValues), Insert(at, newValues[at..end]))
    {
      hide FindFrom;
      end := at + 1;
      while end != |newValues| && FindFrom(mValues, at, comparison, newValues[end]) == |mValues|
        invariant at < end <= |newValues|
        invariant NewEnd(comparison, mValues, newValues, at, at)
               == NewEnd(comparison, mValues, newValues, at, end)
        decreases |newValues| - end
      {
        end := end + 1;
      }
      var len := end - at;
      OpenGap(at, len, newValues[at]);
      CopyIn(at, len, newValues);
      announced := announced + [Insert(at, mValues[at..at + len])];
    }

    method CopyIn(at: nat, len: nat, newValues: seq<V>)
      requires at + len <= |mValues| && at + len <= |newValues|
      modifies this`mValues
      ensures mValues == old(mValues)[..at] + newValues[at..at + len] + old(mValues)[at + len..]
    {
      var j := 0;
      while j != len
        invariant 0 <= j <= len && |mValues| == |old(mValues)|
        invariant forall k :: 0 <= k < |mValues| ==>
                    mValues[k] == if at <= k < at + j then newValues[k] else old(mValues)[k]
        decreases len - j
      {
        mValues := mValues[at + j := newValues[at + j]];
        j := j + 1;
      }
    }

    /** Overwrites the longest run of rows whose values differ; keys are not looked at again. */
    method ReplaceRun(at: nat, newValues: seq<V>) returns (n: nat)
      requires at < |mValues| && at < |newValues| && newValues[at] != mValues[at]
      modifies this`mValues, this`announced
      ensures n == DifferingLength(old(mValues), newValues, at) > 0
      ensures at + n <= |newValues| && at + n <= |old(mValues)|
      ensures announced == old(announced) + [Change(at, newValues[at..at + n])]
      ensures mValues == Apply(old(mValues), Change(at, newValues[at..at + n]))
    {
      hide Overwritten, Apply, DifferingLength;
      DifferingStep(mValues, newValues, at);
      OverwriteStep(mValues, newValues, at, 0);
      mValues := mValues[at := newValues[at]];
      n := 1;
      while at + n != |mValues| && at + n != |newValues| && newValues[at + n] != mValues[at + n]
        invariant 0 < n && at + n <= |newValues| && at + n <= |mValues| == |old(mValues)|
        invariant mValues == Overwritten(old(mValues), newValues, at, n)
        invariant at + n < |mValues| ==> mValues[at + n] == old(mValues)[at + n]
        invariant announced == old(announced)
        invariant DifferingLength(old(mValues), newValues, at)
               == n + DifferingLength(old(mValues), newValues, at + n)
        decreases |newValues| - n
      {
        OverwriteStep(old(mValues), newValues, at, n);
        DifferingStep(old(mValues), newValues, at + n);
        mValues := mValues[at + n := newValues[at + n]];
        n := n + 1;
      }
      OverwriteEnds(old(mValues), newValues, at, n);
      DifferingStep(old(mValues), newValues, at + n);
      announced := announced + [Change(at, mValues[at..at + n])];
    }

    /** Removes, moves or inserts a run where the row does not compare to the new value. */
    method Mismatch(at: nat, newValues: seq<V>) returns (n: nat)
      requires at < |mValues| && at < |newValues| && !Same(comparison, newValues[at], mValues[at])
      modifies this`mValues, this`announced
      ensures var step := old(NextStep(comparison, mValues, newValues, at));
              && step.Announce? && n == step.placed
              && announced == old(announced) + [step.op] && mValues == Apply(old(mValues), step.op)
    {
      hide Apply, FindFrom, UnwantedEnd, NewEnd, CommonLength, Same;
      n := 0;
      var oldIter := FindFrom(mValues, at, comparison, newValues[at]);
      if oldIter != |mValues| {
        if FindFrom(newValues, at, comparison, mValues[at]) == |newValues| {
          RemoveRun(at, newValues);
        } else {
          SameSymmetric(comparison, newValues[at], mValues[at]);
          n := MoveRun(at, newValues, oldIter);
        }
      } else {
        var end := InsertRun(at, newValues);
        n := end - at;
      }
    }

    /** Brings at least one row into place, or removes a run of rows, as the plan says. */
    method Advance(at: nat, newValues: seq<V>) returns (n: nat)
      requires at < |mValues| && at < |newValues|
      modifies this`mValues, this`announced
      ensures var step := old(NextStep(comparison, mValues, newValues, at));
              && !step.Done?
              && (step.Keep? ==> n == 1 && announced == old(announced) && mValues == old(mValues))
              && (step.Announce? ==>
                    n == step.placed && announced == old(announced) + [step.op]
                    && mValues == Apply(old(mValues), step.op))
    {
      hide Apply, FindFrom, UnwantedEnd, NewEnd, CommonLength, DifferingLength, Same;
      if !Same(comparison, newValues[at], mValues[at]) {
        n := Mismatch(at, newValues);
      } else if newValues[at] != mValues[at] {
        n := ReplaceRun(at, newValues);
      } else {
        n := 1;
      }
    }

    /** The model and what is still to come add up to the whole plan. */
    ghost predicate OnPlan(start: seq<V>, newValues: seq<V>, ops: seq<RowOp<V>>, at: nat)
      reads this
      requires at <= |mValues| && at <= |newValues|
    {
      && Plan(comparison, start, newValues, 0) == ops + Plan(comparison, mValues, newValues, at)
      && Result(comparison, start, newValues, 0) == Result(comparison, mValues, newValues, at)
    }

    lemma PlanStep(start: seq<V>, newValues: seq<V>, ops: seq<RowOp<V>>, rows: seq<V>, at: nat)
      requires at <= |rows| && at <= |newValues| && NextStep(comparison, rows, newValues, at).Announce?
      requires Plan(comparison, start, newValues, 0) == ops + Plan(comparison, rows, newValues, at)
      ensures var Announce(op, placed) := NextStep(comparison, rows, newValues, at);
              && Plan(comparison, start, newValues, 0)
                 == (ops + [op]) + Plan(comparison, Apply(rows, op), newValues, at + placed)
              && Result(comparison, rows, newValues, at)
                 == Result(comparison, Apply(rows, op), newValues, at + placed)
    {
      hide NextStep, Apply;
      var Announce(op, placed) := NextStep(comparison, rows, newValues, at);
      var rest := Plan(comparison, Apply(rows, op), newValues, at + placed);
      assert ops + ([op] + rest) == (ops + [op]) + rest;
    }

    /**
      Turns the model into the new list, row by row, announcing the plan for it.  The
      announced operations replay to the model; rows are final in the order of the new
      list; the model is the new list exactly if every moved block holds new values.
     */
    method UpdateValuesUnique(newValues: seq<V>) returns (ghost ops: seq<RowOp<V>>)
      modifies this`mValues, this`announced
      ensures ops == old(Plan(comparison, mValues, newValues, 0))
      ensures mValues == old(Result(comparison, mValues, newValues, 0))
      ensures announced == old(announced) + ops && Replay(old(mValues), ops) == Rows(mValues)
      ensures |mValues| == |newValues|
      ensures forall k :: 0 <= k < |mValues| ==> RowMatches(comparison, old(mValues), newValues, mValues, ops, k)
      ensures mValues == newValues <==> old(KeyedDiff.Fresh(comparison, mValues, newValues, 0))
      ensures (comparison.ByValue? || Sharp(comparison, old(mValues), newValues)) ==> mValues == newValues
      ensures newValues == old(mValues) ==> ops == []
      ensures (comparison.ByValue? || Sharp(comparison, old(mValues), newValues)) ==>
                Unique(old(mValues)) && Unique(newValues) ==> Economical(old(mValues), newValues, ops)
    {
      hide Unique, RowMatches, Economical, Apply, Plan, Result, Replay, Sharp, KeyedDiff.Fresh;
      hide FindFrom, UnwantedEnd, NewEnd, CommonLength, DifferingLength, Same;
      ghost var start := mValues;
      var iter, newIter := 0, 0;
      ops := [];
      assert [] + Plan(comparison, start, newValues, 0) == Plan(comparison, start, newValues, 0);
      while true
        invariant iter == newIter <= |mValues| && newIter <= |newValues|
        invariant OnPlan(start, newValues, ops, iter)
        invariant announced == old(announced) + ops
        decreases |newValues| - newIter, |mValues|
      {
        ghost var rows, step := mValues, NextStep(comparison, mValues, newValues, iter);
        if step.Announce? {
          PlanStep(start, newValues, ops, rows, iter);
          ops := ops + [step.op];
        }
        if newIter == |newValues| {
          if iter == |mValues| { break; }
          RemoveTail(iter, newValues);
          break;
        } else if iter == |mValues| {
          AppendTail(newValues);
          iter, newIter := |newValues|, |newValues|;
          break;
        } else {
          if step.Keep? {
            KeepsPlan(newValues, iter);
          }
          var n := Advance(iter, newValues);
          iter, newIter := iter + n, newIter + n;
        }
      }
      EndsPlan(newValues, |newValues|);
      assert ops + [] == ops;
      PlanConcludes(start, newValues);
    }

    lemma PlanConcludes(start: seq<V>, newValues: seq<V>)
      ensures var ops, rows := Plan(comparison, start, newValues, 0), Result(comparison, start, newValues, 0);
              && Replay(start, ops) == Rows(rows) && |rows| == |newValues|
              && (forall k :: 0 <= k < |rows| ==> RowMatches(comparison, start, newValues, rows, ops, k))
              && (rows == newValues <==> KeyedDiff.Fresh(comparison, start, newValues, 0))
              && (newValues == start ==> ops == [])
              && (comparison.ByValue? || Sharp(comparison, start, newValues) ==>
                    && rows == newValues
                    && (Unique(start) && Unique(newValues) ==> Economical(start, newValues, ops)))
    {
      hide Unique, RowMatches, Economical, Plan, Result, Replay, Sharp, KeyedDiff.Fresh;
      PlanIsRight(comparison, start, newValues);
      KeyedDiff.FreshExactly(comparison, start, newValues, 0);
      ByValueIsSharp(start, newValues);
    }

    lemma KeepsPlan(newValues: seq<V>, at: nat)
      requires at <= |mValues| && at <= |newValues| && NextStep(comparison, mValues, newValues, at).Keep?
      ensures Plan(comparison, mValues, newValues, at) == Plan(comparison, mValues, newValues, at + 1)
      ensures Result(comparison, mValues, newValues, at) == Result(comparison, mValues, newValues, at + 1)
    {
      hide NextStep;
    }

    lemma EndsPlan(newValues: seq<V>, at: nat)
      requires at == |mValues| == |newValues|
      ensures Plan(comparison, mValues, newValues, at) == [] && Result(comparison, mValues, newValues, at) == mValues
    {}

    lemma ByValueIsSharp(start: seq<V>, newValues: seq<V>)
      ensures comparison.ByValue? ==> Sharp(comparison, start, newValues)
    {}

    /** An equal list changes nothing; any other one is diffed in. */
    method SetValues(newValues: seq<V>) returns (ghost ops: seq<RowOp<V>>)
      modifies this`mValues, this`announced
      ensures ops == old(Plan(comparison, mValues, newValues, 0))
      ensures mValues == old(Result(comparison, mValues, newValues, 0))
      ensures announced == old(announced) + ops && Replay(old(mValues), ops) == Rows(mValues)
      ensures |mValues| == |newValues|
      ensures forall k :: 0 <= k < |mValues| ==> RowMatches(comparison, old(mValues), newValues, mValues, ops, k)
      ensures mValues == newValues <==> old(KeyedDiff.Fresh(comparison, mValues, newValues, 0))
      ensures (comparison.ByValue? || Sharp(comparison, old(mValues), newValues)) ==> mValues == newValues
      ensures newValues == old(mValues) ==> ops == []
      ensures (comparison.ByValue? || Sharp(comparison, old(mValues), newValues)) ==>
                Unique(old(mValues)) && Unique(newValues) ==> Economical(old(mValues), newValues, ops)
    {
      hide Unique, RowMatches, Economical, Plan, Result, Replay, Sharp, KeyedDiff.Fresh;
      ops := [];
      if newValues != mValues {
        ops := UpdateValuesUnique(newValues);
      } else {
        PlanConcludes(mValues, newValues);
        assert announced + [] == announced;
        KeepsEqual(newValues, 0);
      }
    }

    lemma {:induction false} KeepsEqual(newValues: seq<V>, at: nat)
      requires mValues == newValues && at <= |newValues|
      ensures Plan(comparison, mValues, newValues, at) == [] && Result(comparison, mValues, newValues, at) == mValues
      decreases |newValues| - at
    {
      if at < |newValues| {
        KeepsEqual(newValues, at + 1);
      }
    }

    /** Changing what rows are compared by diffs the model against itself, which announces nothing. */
    method SetComparison(c: Comparison<V>)
      modifies this`mValues, this`announced, this`comparison
      ensures comparison == c && mValues == old(mValues) && announced == old(announced)
    {
      comparison := c;
      ghost var ops := UpdateValuesUnique(mValues);
      KeepsEqual(mValues, 0);
    }
  }

  /** After overwriting n rows one by one. */
  function Overwritten<V>(s: seq<V>, values: seq<V>, at: nat, n: nat): seq<V>
    requires at + n <= |s| && at + n <= |values|
  {
    s[..at] + values[at..at + n] + s[at + n..]
  }

  lemma OverwriteStep<V>(s: seq<V>, values: seq<V>, at: nat, n: nat)
    requires at + n < |s| && at + n < |values|
    ensures Overwritten(s, values, at, 0) == s
    ensures |Overwritten(s, values, at, n)| == |s|
    ensures Overwritten(s, values, at, n)[at + n := values[at + n]] == Overwritten(s, values, at, n + 1)
    ensures at + n + 1 < |s| ==> Overwritten(s, values, at, n + 1)[at + n + 1] == s[at + n + 1]
  {
    var a, b, c := s[..at], values[at..at + n], s[at + n..];
    assert values[at..at + n + 1] == b + [values[at + n]];
    assert (a + b + c)[at + n := values[at + n]] == a + b + c[0 := values[at + n]];
    assert c[0 := values[at + n]] == [values[at + n]] + s[at + n + 1..];
  }

  lemma DifferingStep<V>(rows: seq<V>, target: seq<V>, at: nat)
    requires at <= |rows| && at <= |target|
    ensures DifferingLength(rows, target, at)
         == if at == |rows| || at == |target| || target[at] == rows[at] then 0
            else 1 + DifferingLength(rows, target, at + 1)
  {}

  lemma OverwriteEnds<V>(s: seq<V>, values: seq<V>, at: nat, n: nat)
    requires 0 < n && at + n <= |s| && at + n <= |values|
    ensures var rows := Overwritten(s, values, at, n);
            && |rows| == |s| && rows[at..at + n] == values[at..at + n]
            && rows == Apply(s, Change(at, values[at..at + n]))
  {}

  /** QList::move: takes one element out and puts it back at another position. */
  function MoveOne<V>(s: seq<V>, from: nat, to: nat): seq<V>
    requires to <= from < |s|
  {
    s[..to] + [s[from]] + s[to..from] + s[from + 1..]
  }

  /** After moving the first n elements of a run one by one. */
  function Moved<V>(s: seq<V>, to: nat, from: nat, n: nat): seq<V>
    requires to <= from && from + n <= |s|
  {
    s[..to] + s[from..from + n] + s[to..from] + s[from + n..]
  }

  lemma MovedStep<V>(s: seq<V>, to: nat, from: nat, n: nat)
    requires to <= from && from + n < |s|
    ensures MoveOne(Moved(s, to, from, n), from + n, to + n) == Moved(s, to, from, n + 1)
  {
    var a, b, c, d := s[..to], s[from..from + n], s[to..from], s[from + n..];
    var m := a + b + c + d;
    assert m[..to + n] == a + b;
    assert m[to + n..from + n] == c;
    assert m[from + n + 1..] == d[1..];
    assert s[from..from + n + 1] == b + [s[from + n]];
  }
}
