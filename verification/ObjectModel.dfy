/**
  The object list model: rows are objects, and an update removes, reinserts and
  inserts single rows until the list is the new one.
 */
module ObjectModel {
  import opened Basics
  import opened RowOps

  /** The old values that are wanted again, in their old order. */
  function Kept<T(==)>(values: seq<T>, wanted: seq<T>): seq<T> {
    if values == [] then []
    else Kept(values[..|values| - 1], wanted)
         + (if values[|values| - 1] in wanted then [values[|values| - 1]] else [])
  }

  lemma KeptStep<T>(values: seq<T>, wanted: seq<T>, seen: nat)
    requires seen < |values|
    ensures Kept(values[..seen + 1], wanted)
         == Kept(values[..seen], wanted) + (if values[seen] in wanted then [values[seen]] else [])
  {
    assert values[..seen + 1][..seen] == values[..seen];
  }

  /** First position from `from` on that holds the value, -1 if there is none. */
  function IndexOf<T(==)>(values: seq<T>, x: T, from: nat): (i: int)
    requires from <= |values|
    ensures i == -1 || (from <= i < |values| && values[i] == x)
    ensures i == -1 ==> x !in values[from..]
  {
    var i := FirstWhere(values[from..], v => v == x);
    if i == -1 then -1 else from + i
  }

  /** Every list a view goes through while replaying is duplicate-free. */
  ghost predicate AlwaysUnique<T>(start: seq<T>, ops: seq<RowOp<T>>) {
    forall k :: 0 <= k <= |ops| ==> Replay(start, ops[..k]).Rows? && Unique(Replay(start, ops[..k]).rows)
  }

  lemma AlwaysUniqueStep<T>(start: seq<T>, ops: seq<RowOp<T>>, op: RowOp<T>)
    requires AlwaysUnique(start, ops) && Replay(start, ops).Rows? && InBounds(Replay(start, ops).rows, op)
    requires Unique(Apply(Replay(start, ops).rows, op))
    ensures AlwaysUnique(start, ops + [op])
  {
    hide Replay, Apply;
    ReplayStep(start, ops, op);
    forall k | 0 <= k <= |ops + [op]|
      ensures Replay(start, (ops + [op])[..k]).Rows? && Unique(Replay(start, (ops + [op])[..k]).rows)
    {
      assert (ops + [op])[..k] == if k <= |ops| then ops[..k] else ops + [op];
    }
  }

  lemma {:induction false} KeptIsWanted<T>(values: seq<T>, wanted: seq<T>)
    ensures forall v :: v in Kept(values, wanted) ==> v in values && v in wanted
    ensures Unique(values) ==> Unique(Kept(values, wanted))
  {
    if values != [] {
      var init, last := values[..|values| - 1], values[|values| - 1];
      KeptIsWanted(init, wanted);
      assert values == init + [last];
    }
  }

  /** The mirror is the model, and no view has seen a duplicate if the lists had none. */
  ghost predicate Mirrored<T>(start: seq<T>, target: seq<T>, rows: seq<T>, ops: seq<RowOp<T>>) {
    && Replay(start, ops) == Rows(rows)
    && (Unique(start) && Unique(target) ==> AlwaysUnique(start, ops))
  }

  lemma MirroredStep<T>(start: seq<T>, target: seq<T>, rows: seq<T>, ops: seq<RowOp<T>>, op: RowOp<T>)
    requires Mirrored(start, target, rows, ops) && InBounds(rows, op)
    requires Unique(start) && Unique(target) && Unique(rows) ==> Unique(Apply(rows, op))
    ensures Mirrored(start, target, Apply(rows, op), ops + [op])
  {
    hide Replay, Apply, Unique;
    ReplayStep(start, ops, op);
    if Unique(start) && Unique(target) {
      assert ops[..|ops|] == ops;
      AlwaysUniqueStep(start, ops, op);
    }
  }

  /** No wanted value is taken out and no value that was there is put in. */
  ghost predicate Wasteless<T>(start: seq<T>, target: seq<T>, ops: seq<RowOp<T>>) {
    && Replay(start, ops).Rows?
    && (forall v :: v in Removed(start, ops) ==> v !in target)
    && (forall v :: v in Inserted(ops) ==> v !in start)
  }

  lemma WastelessStep<T>(start: seq<T>, target: seq<T>, rows: seq<T>, ops: seq<RowOp<T>>, op: RowOp<T>)
    requires Wasteless(start, target, ops) && Replay(start, ops) == Rows(rows) && InBounds(rows, op)
    requires op.Remove? || op.Insert?
    requires op.Remove? ==> op.first == op.last && rows[op.first] !in target
    requires op.Insert? ==> |op.values| == 1 && op.values[0] !in start
    ensures Wasteless(start, target, ops + [op])
  {
    hide Removed, Inserted, Replay;
    TrafficStep(start, ops, op);
  }

  /** What both lists hold comes in the same order in both. */
  predicate SameOrder<T(==)>(start: seq<T>, target: seq<T>) {
    Kept(start, target) == Kept(target, start)
  }

  /** The rows from `done` on are what is still to come of the values both lists hold. */
  ghost predicate InStep<T>(start: seq<T>, target: seq<T>, rows: seq<T>, done: nat)
    requires done <= |target| && done <= |rows|
  {
    Kept(target[..done], start) + rows[done..] == Kept(target, start)
  }

  lemma {:induction false} KeptPrefix<T>(target: seq<T>, start: seq<T>, done: nat)
    requires done <= |target|
    ensures Kept(target[..done], start) <= Kept(target, start)
    decreases |target|
  {
    if done == |target| {
      assert target[..done] == target;
    } else {
      KeptPrefix(target[..|target| - 1], start, done);
      assert target[..|target| - 1][..done] == target[..done];
    }
  }

  /** In step, the next value is the next row, or new. */
  lemma NextInStep<T>(start: seq<T>, target: seq<T>, rows: seq<T>, done: nat)
    requires done < |target| && done <= |rows| && InStep(start, target, rows, done)
    ensures var x := target[done];
            if x in start then done < |rows| && rows[done] == x && InStep(start, target, rows, done + 1)
            else x !in rows[done..]
                 && forall rows' :: done < |rows'| && rows'[done + 1..] == rows[done..] ==>
                      InStep(start, target, rows', done + 1)
  {
    hide Kept, Unique;
    var x, all := target[done], Kept(target, start);
    var before := Kept(target[..done], start);
    KeptStep(target, start, done);
    KeptPrefix(target, start, done + 1);
    KeptIsWanted(target, start);
    if x in start {
      assert all[|before|] == x && all == before + rows[done..];
      assert rows[done..] == [x] + rows[done + 1..];
    } else {
      assert forall v :: v in rows[done..] ==> v in all;
    }
  }

  lemma UniqueWithout<T>(rows: seq<T>, i: nat)
    requires Unique(rows) && i < |rows|
    ensures Unique(rows[..i] + rows[i + 1..])
    ensures rows[i] !in rows[..i] + rows[i + 1..]
  {}

  lemma CountOff<T>(k: multiset<T>, done: seq<T>, x: T)
    ensures k - multiset(done) - multiset{x} == k - multiset(done + [x])
  {}

  lemma Longer<T>(a: seq<T>, b: seq<T>, c: seq<T>)
    ensures (a + b) + c == a + (b + c)
  {}

  /** So many rows are right, and the others are what the placed values leave of all. */
  ghost predicate Placed<T>(all: multiset<T>, target: seq<T>, rows: seq<T>, oi: nat) {
    && oi <= |target| && oi <= |rows| && rows[..oi] == target[..oi]
    && multiset(rows[oi..]) == all - multiset(target[..oi])
  }

  lemma NonePlaced<T>(target: seq<T>, rows: seq<T>)
    ensures Placed(multiset(rows), target, rows, 0)
  {
    assert rows[0..] == rows;
  }

  lemma PlacedIsPrefix<T>(all: multiset<T>, target: seq<T>, rows: seq<T>, oi: nat)
    requires Placed(all, target, rows, oi)
    ensures oi <= |target| && oi <= |rows| && rows[..oi] == target[..oi]
  {}

  lemma AllPlaced<T>(all: multiset<T>, target: seq<T>, rows: seq<T>)
    requires Placed(all, target, rows, |target|)
    ensures target <= rows && multiset(rows[|target|..]) == all - multiset(target)
  {
    assert target[..|target|] == target;
  }

  /** Once a value is at its row, one more row is right, and one value less is left behind. */
  lemma OneMorePlaced<T>(all: multiset<T>, target: seq<T>, oi: nat, rows: seq<T>, rows': seq<T>, rest: seq<T>)
    requires oi < |target| && Placed(all, target, rows, oi)
    requires rows' == rows[..oi] + [target[oi]] + rest
    requires multiset(rest) == multiset(rows[oi..]) - multiset{target[oi]}
    ensures Placed(all, target, rows', oi + 1)
  {
    CountOff(all, target[..oi], target[oi]);
    assert target[..oi + 1] == target[..oi] + [target[oi]];
    assert rows'[oi + 1..] == rest;
  }

  lemma CountOne<T>(before: seq<T>, x: T, after: seq<T>)
    ensures multiset(before + [x] + after) - multiset{x} == multiset(before + after)
  {}

  lemma CountNone<T>(s: seq<T>, x: T)
    requires x !in s
    ensures multiset(s) - multiset{x} == multiset(s)
  {}

  class ObjectModel<T(==)> {
    var mValuesList: seq<T>
    var announced: seq<RowOp<T>>

    constructor ()
      ensures mValuesList == [] && announced == []
    {
      mValuesList, announced := [], [];
    }

    /** An index of -1 appends. */
    method InsertObject(object_: T, index: int)
      requires -1 <= index <= |mValuesList|
      modifies this
      ensures var i := if index == -1 then |old(mValuesList)| else index;
              && announced == old(announced) + [Insert(i, [object_])]
              && mValuesList == Apply(old(mValuesList), Insert(i, [object_]))
    {
      var iindex := if index == -1 then |mValuesList| else index;
      announced := announced + [Insert(iindex, [object_])];
      mValuesList := mValuesList[..iindex] + [object_] + mValuesList[iindex..];
    }

    method RemoveAt(index: nat)
      requires index < |mValuesList|
      modifies this
      ensures announced == old(announced) + [Remove(index, index)]
      ensures mValuesList == Apply(old(mValuesList), Remove(index, index))
    {
      announced := announced + [Remove(index, index)];
      mValuesList := mValuesList[..index] + mValuesList[index + 1..];
    }

    /** Drops the rows that are not wanted any more. */
    method RemoveUnwanted(newValues: seq<T>) returns (ghost ops: seq<RowOp<T>>)
      modifies this
      ensures announced == old(announced) + ops
      ensures mValuesList == Kept(old(mValuesList), newValues)
      ensures Mirrored(old(mValuesList), newValues, mValuesList, ops)
      ensures Wasteless(old(mValuesList), newValues, ops)
    {
      hide Apply, Kept, Mirrored, Wasteless, Replay, Unique;
      ghost var start, seen, kept := mValuesList, 0, [];
      var i := 0;
      ops := [];
      KeptOfNothing(start, newValues);
      while i < |mValuesList|
        invariant seen <= |start| && kept == Kept(start[..seen], newValues) && i == |kept|
        invariant mValuesList == kept + start[seen..]
        invariant announced == old(announced) + ops
        invariant Mirrored(start, newValues, mValuesList, ops) && Wasteless(start, newValues, ops)
        decreases |start| - seen
      {
        KeptStep(start, newValues, seen);
        KeptOrDropped(kept, start, seen);
        if mValuesList[i] in newValues {
          kept := kept + [mValuesList[i]];
          i := i + 1;
        } else {
          MirrorReplays(start, newValues, mValuesList, ops);
          WastelessStep(start, newValues, mValuesList, ops, Remove(i, i));
          DropStep(start, newValues, mValuesList, ops, i);
          ops := ops + [Remove(i, i)];
          RemoveAt(i);
        }
        seen := seen + 1;
      }
      assert start[..seen] == start;
    }

    lemma KeptOrDropped(kept: seq<T>, start: seq<T>, seen: nat)
      requires seen < |start|
      ensures var rows, i := kept + start[seen..], |kept|;
              && rows[i] == start[seen]
              && rows == (kept + [start[seen]]) + start[seen + 1..]
              && rows[..i] + rows[i + 1..] == kept + start[seen + 1..]
    {}

    lemma KeptOfNothing(start: seq<T>, target: seq<T>)
      ensures Kept(start[..0], target) == []
      ensures Mirrored(start, target, start, []) && Wasteless(start, target, [])
    {}

    lemma MirrorReplays(start: seq<T>, target: seq<T>, rows: seq<T>, ops: seq<RowOp<T>>)
      requires Mirrored(start, target, rows, ops)
      ensures Replay(start, ops) == Rows(rows)
    {}

    lemma DropStep(start: seq<T>, target: seq<T>, rows: seq<T>, ops: seq<RowOp<T>>, i: nat)
      requires Mirrored(start, target, rows, ops) && i < |rows|
      ensures Mirrored(start, target, rows[..i] + rows[i + 1..], ops + [Remove(i, i)])
      ensures Apply(rows, Remove(i, i)) == rows[..i] + rows[i + 1..]
    {
      if Unique(rows) {
        UniqueWithout(rows, i);
      }
      MirroredStep(start, target, rows, ops, Remove(i, i));
    }

    lemma PutStep(start: seq<T>, target: seq<T>, rows: seq<T>, ops: seq<RowOp<T>>, i: nat, x: T)
      requires Mirrored(start, target, rows, ops) && i <= |rows|
      requires Unique(start) && Unique(target) ==> x !in rows
      ensures Mirrored(start, target, rows[..i] + [x] + rows[i..], ops + [Insert(i, [x])])
      ensures Apply(rows, Insert(i, [x])) == rows[..i] + [x] + rows[i..]
    {
      MirroredStep(start, target, rows, ops, Insert(i, [x]));
    }

    lemma TakenOut(rows: seq<T>, oi: nat, at: nat)
      requires oi <= at < |rows|
      ensures rows[..at] + rows[at + 1..] == rows[..oi] + (rows[oi..at] + rows[at + 1..])
      ensures multiset(rows[oi..at] + rows[at + 1..]) == multiset(rows[oi..]) - multiset{rows[at]}
      ensures rows[at] in rows[oi..]
    {
      assert rows[oi..] == rows[oi..at] + [rows[at]] + rows[at + 1..];
      CountOne(rows[oi..at], rows[at], rows[at + 1..]);
      assert rows[oi..][at - oi] == rows[at];
    }

    /** Takes the value out from further down if it is there. */
    method TakeOut(oi: nat, newValues: seq<T>, ghost start: seq<T>, ghost before: seq<RowOp<T>>)
      returns (ghost ops: seq<RowOp<T>>, ghost rest: seq<T>)
      requires oi < |newValues| && oi <= |mValuesList| && mValuesList[..oi] == newValues[..oi]
      requires Mirrored(start, newValues, mValuesList, before)
      modifies this
      ensures announced == old(announced) + ops && Mirrored(start, newValues, mValuesList, before + ops)
      ensures mValuesList == old(mValuesList)[..oi] + rest
      ensures multiset(rest) == multiset(old(mValuesList)[oi..]) - multiset{newValues[oi]}
      ensures newValues[oi] !in old(mValuesList)[oi..] ==> ops == [] && rest == old(mValuesList)[oi..]
      ensures Unique(start) && Unique(newValues) ==> newValues[oi] !in mValuesList
    {
      hide Mirrored, Apply, Unique;
      var object_ := newValues[oi];
      ghost var rows := mValuesList;
      var at := IndexOf(mValuesList, object_, oi);
      AbsentOnceDropped(start, newValues, rows, before, oi, at);
      if at != -1 {
        DropStep(start, newValues, rows, before, at);
        RemoveAt(at);
        ops, rest := [Remove(at, at)], rows[oi..at] + rows[at + 1..];
        TakenOut(rows, oi, at);
      } else {
        ops, rest := [], rows[oi..];
        assert before + ops == before;
        CountNone(rest, object_);
      }
    }

    /** Puts the value at its row, taking it from further down if it is there. */
    method Place(oi: nat, newValues: seq<T>, ghost start: seq<T>, ghost before: seq<RowOp<T>>)
      returns (ghost ops: seq<RowOp<T>>, ghost rest: seq<T>)
      requires oi < |newValues| && oi <= |mValuesList| && mValuesList[..oi] == newValues[..oi]
      requires Mirrored(start, newValues, mValuesList, before)
      modifies this
      ensures announced == old(announced) + ops && Mirrored(start, newValues, mValuesList, before + ops)
      ensures mValuesList == old(mValuesList)[..oi] + [newValues[oi]] + rest
      ensures multiset(rest) == multiset(old(mValuesList)[oi..]) - multiset{newValues[oi]}
      ensures oi < |old(mValuesList)| && old(mValuesList)[oi] == newValues[oi] ==>
                ops == [] && mValuesList == old(mValuesList)
      ensures newValues[oi] !in old(mValuesList)[oi..] ==>
                ops == [Insert(oi, [newValues[oi]])] && rest == old(mValuesList)[oi..]
    {
      hide Mirrored, Apply, Unique;
      var object_ := newValues[oi];
      ghost var rows := mValuesList;
      if |mValuesList| == oi || mValuesList[oi] != object_ {
        ops, rest := TakeOut(oi, newValues, start, before);
        PutStep(start, newValues, mValuesList, before + ops, oi, object_);
        InsertObject(object_, oi);
        assert (before + ops) + [Insert(oi, [object_])] == before + (ops + [Insert(oi, [object_])]);
        ops := ops + [Insert(oi, [object_])];
      } else {
        ops, rest := [], rows[oi + 1..];
        assert rows[oi..] == [] + [object_] + rest && [] + rest == rest;
        CountOne([], object_, rest);
        assert before + ops == before;
      }
    }

    method ArrangeNext(oi: nat, newValues: seq<T>, ghost start: seq<T>, ghost before: seq<RowOp<T>>,
                       ghost all: multiset<T>) returns (ghost step: seq<RowOp<T>>)
      requires oi < |newValues| && oi <= |mValuesList| && Placed(all, newValues, mValuesList, oi)
      requires Mirrored(start, newValues, mValuesList, before)
      requires SameOrder(start, newValues) ==>
                 InStep(start, newValues, mValuesList, oi) && Wasteless(start, newValues, before)
      modifies this
      ensures announced == old(announced) + step && Mirrored(start, newValues, mValuesList, before + step)
      ensures oi < |mValuesList| && Placed(all, newValues, mValuesList, oi + 1)
      ensures SameOrder(start, newValues) ==>
                InStep(start, newValues, mValuesList, oi + 1) && Wasteless(start, newValues, before + step)
    {
      hide Mirrored, Kept, Wasteless, InStep, Replay, SameOrder, Apply, Placed;
      ghost var rows, rest := mValuesList, [];
      MirrorReplays(start, newValues, rows, before);
      PlacedIsPrefix(all, newValues, rows, oi);
      step, rest := Place(oi, newValues, start, before);
      OneMorePlaced(all, newValues, oi, rows, mValuesList, rest);
      if SameOrder(start, newValues) {
        assert mValuesList[oi + 1..] == rest;
        OrderlyStep(start, newValues, rows, mValuesList, before, step, oi);
      }
    }

    /** Brings the wanted rows into the new order; what is left behind them was never asked for again. */
    method Arrange(newValues: seq<T>, ghost start: seq<T>, ghost before: seq<RowOp<T>>)
      returns (ghost ops: seq<RowOp<T>>)
      requires Mirrored(start, newValues, mValuesList, before) && Wasteless(start, newValues, before)
      requires mValuesList == Kept(start, newValues)
      modifies this
      ensures announced == old(announced) + ops && Mirrored(start, newValues, mValuesList, before + ops)
      ensures SameOrder(start, newValues) ==> Wasteless(start, newValues, before + ops)
      ensures newValues <= mValuesList
      ensures multiset(mValuesList[|newValues|..]) == multiset(old(mValuesList)) - multiset(newValues)
    {
      hide Mirrored, Kept, Wasteless, InStep, Replay, SameOrder, Apply, Placed;
      var oi := 0;
      ops := [];
      assert before + ops == before;
      NonePlaced(newValues, mValuesList);
      BeginsInStep(start, newValues, mValuesList);
      while oi < |newValues|
        invariant oi <= |newValues| && oi <= |mValuesList|
        invariant Placed(multiset(old(mValuesList)), newValues, mValuesList, oi)
        invariant announced == old(announced) + ops
        invariant Mirrored(start, newValues, mValuesList, before + ops)
        invariant SameOrder(start, newValues) ==>
                    InStep(start, newValues, mValuesList, oi) && Wasteless(start, newValues, before + ops)
      {
        ghost var step := ArrangeNext(oi, newValues, start, before + ops, multiset(old(mValuesList)));
        Longer(before, ops, step);
        ops := ops + step;
        oi := oi + 1;
      }
      AllPlaced(multiset(old(mValuesList)), newValues, mValuesList);
    }

    /** In step, placing a value leaves it alone or inserts a new one. */
    lemma OrderlyStep(start: seq<T>, target: seq<T>, rows: seq<T>, rows': seq<T>,
                      ops: seq<RowOp<T>>, step: seq<RowOp<T>>, oi: nat)
      requires oi < |target| && oi <= |rows| && oi < |rows'|
      requires InStep(start, target, rows, oi) && Wasteless(start, target, ops) && Replay(start, ops) == Rows(rows)
      requires oi < |rows| && rows[oi] == target[oi] ==> step == [] && rows' == rows
      requires target[oi] !in rows[oi..] ==> step == [Insert(oi, [target[oi]])] && rows'[oi + 1..] == rows[oi..]
      ensures InStep(start, target, rows', oi + 1) && Wasteless(start, target, ops + step)
    {
      hide InStep, Wasteless, Replay;
      NextInStep(start, target, rows, oi);
      if target[oi] in start {
        assert ops + step == ops;
      } else {
        WastelessStep(start, target, rows, ops, Insert(oi, [target[oi]]));
      }
    }

    lemma BeginsInStep(start: seq<T>, target: seq<T>, rows: seq<T>)
      requires rows == Kept(start, target)
      ensures SameOrder(start, target) ==> InStep(start, target, rows, 0)
    {
      assert Kept(target[..0], start) == [];
    }

    lemma AbsentOnceDropped(start: seq<T>, target: seq<T>, rows: seq<T>, ops: seq<RowOp<T>>, oi: nat, at: int)
      requires Mirrored(start, target, rows, ops) && oi < |target| && oi <= |rows| && rows[..oi] == target[..oi]
      requires at == IndexOf(rows, target[oi], oi)
      ensures Unique(start) && Unique(target) ==>
                target[oi] !in (if at == -1 then rows else rows[..at] + rows[at + 1..])
    {
      hide Replay;
      if Unique(start) && Unique(target) {
        assert ops[..|ops|] == ops;
        if at == -1 {
          assert target[oi] !in target[..oi] && rows == rows[..oi] + rows[oi..];
        } else {
          UniqueWithout(rows, at);
        }
      }
    }

    /**
      The list ends as the new one followed by the old rows it had too many of, so it
      is the new list exactly when no wanted value occurred more often before.  Rows
      that keep their order are not touched.
    */
    method DiffUpdate(newValues: seq<T>) returns (ghost ops: seq<RowOp<T>>)
      modifies this
      ensures announced == old(announced) + ops && Replay(old(mValuesList), ops) == Rows(mValuesList)
      ensures newValues <= mValuesList
      ensures multiset(mValuesList[|newValues|..])
           == multiset(Kept(old(mValuesList), newValues)) - multiset(newValues)
      ensures mValuesList == newValues <==> multiset(Kept(old(mValuesList), newValues)) <= multiset(newValues)
      ensures Unique(old(mValuesList)) && Unique(newValues) ==>
                mValuesList == newValues && AlwaysUnique(old(mValuesList), ops)
      ensures SameOrder(old(mValuesList), newValues) ==> Wasteless(old(mValuesList), newValues, ops)
    {
      hide AlwaysUnique, Replay, Kept, Wasteless, SameOrder;
      ghost var start := mValuesList;
      ghost var dropped := RemoveUnwanted(newValues);
      ghost var kept := mValuesList;
      ghost var arranged := Arrange(newValues, start, dropped);
      ops := dropped + arranged;
      KeptIsWanted(start, newValues);
      Leftover(kept, newValues, mValuesList);
      UniqueIsCounted(kept, newValues);
    }
  }

  lemma Leftover<T>(kept: seq<T>, target: seq<T>, rows: seq<T>)
    requires target <= rows && multiset(rows[|target|..]) == multiset(kept) - multiset(target)
    ensures rows == target <==> multiset(kept) <= multiset(target)
  {
    var rest := rows[|target|..];
    assert rows == target + rest;
    if multiset(kept) <= multiset(target) {
      assert multiset(rest) == multiset{};
      assert |multiset(rest)| == |rest|;
    }
    if rows == target {
      assert rest == [];
      assert multiset(kept) - multiset(target) == multiset{};
      forall v ensures multiset(kept)[v] <= multiset(target)[v] {
        assert (multiset(kept) - multiset(target))[v] == 0;
      }
    }
  }

  lemma {:induction false} UniqueCounts<T>(s: seq<T>, x: T)
    requires Unique(s)
    ensures multiset(s)[x] <= 1
  {
    if s != [] {
      UniqueCounts(s[1..], x);
      assert s == [s[0]] + s[1..];
      assert s[0] !in s[1..];
    }
  }

  lemma UniqueIsCounted<T>(kept: seq<T>, target: seq<T>)
    requires forall v :: v in kept ==> v in target
    ensures Unique(kept) ==> multiset(kept) <= multiset(target)
  {
    if Unique(kept) {
      forall v | v in multiset(kept) ensures multiset(kept)[v] <= multiset(target)[v] {
        UniqueCounts(kept, v);
        assert v in kept && v in target;
      }
    }
  }

  /** An object that is in the old list twice and in the new one once stays twice. */
  lemma SurplusStays<T>(x: T)
    ensures Kept([x, x], [x]) == [x, x] && !(multiset(Kept([x, x], [x])) <= multiset([x]))
  {
    assert [x, x][..1] == [x] && [x][..0] == [];
    assert Kept([x], [x]) == [x];
    assert multiset([x, x])[x] == 2 && multiset([x])[x] == 1;
  }

  /** So it does in the model. */
  method KeepSurplus<T(==)>(x: T) returns (values: seq<T>)
    ensures values == [x, x]
  {
    hide Replay, AlwaysUnique, Wasteless, SameOrder, Kept, Unique;
    var model := new ObjectModel<T>();
    model.InsertObject(x, -1);
    model.InsertObject(x, -1);
    SurplusStays(x);
    assert model.mValuesList == [x, x];
    hide Apply;
    ghost var ops := model.DiffUpdate([x]);
    values := model.mValuesList;
    OneIsLeft(values, x);
  }

  lemma OneIsLeft<T>(values: seq<T>, x: T)
    requires [x] <= values && multiset(values[1..]) == multiset([x, x]) - multiset([x])
    ensures values == [x, x]
  {
    var rest := values[1..];
    assert multiset(rest) == multiset{x};
    assert |rest| == |multiset(rest)| == 1 && rest[0] in multiset(rest);
    assert values == [x] + rest;
  }
}
