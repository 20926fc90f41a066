/**
  Turning one list into another row by row: which operation comes next, and what
  the whole plan of operations is good for.
 */
module ListDiff {
  import opened RowOps

  /** Values are compared whole, or by what the configured property gives for them. */
  datatype Comparison<!V> = ByValue | ByKey(key: V -> V)

  predicate Same<V(==)>(c: Comparison<V>, a: V, b: V) {
    match c
    case ByValue => a == b
    case ByKey(key) => key(a) == key(b)
  }

  lemma SameSymmetric<V>(c: Comparison<V>, a: V, b: V)
    ensures Same(c, a, b) <==> Same(c, b, a)
  {}

  /** First position from `from` on that compares equal to the value, the length if there is none. */
  function FindFrom<V(==)>(values: seq<V>, from: nat, c: Comparison<V>, x: V): (k: nat)
    requires from <= |values|
    ensures from <= k <= |values|
    ensures k < |values| ==> Same(c, values[k], x)
    ensures forall j :: from <= j < k ==> !Same(c, values[j], x)
    decreases |values| - from
  {
    if from == |values| || Same(c, values[from], x) then from else FindFrom(values, from + 1, c, x)
  }

  // ------------------------------------------------------------------ the plan

  /** End of the run of rows that compare to nothing still to come. */
  function UnwantedEnd<V(==)>(c: Comparison<V>, rows: seq<V>, target: seq<V>, at: nat, from: nat): (end: nat)
    requires at <= |target| && from <= |rows|
    ensures from <= end <= |rows|
    ensures forall k :: from <= k < end ==> FindFrom(target, at, c, rows[k]) == |target|
    decreases |rows| - from
  {
    if from == |rows| || FindFrom(target, at, c, rows[from]) != |target| then from
    else UnwantedEnd(c, rows, target, at, from + 1)
  }

  /** End of the run of new values that compare to no remaining row. */
  function NewEnd<V(==)>(c: Comparison<V>, rows: seq<V>, target: seq<V>, at: nat, from: nat): (end: nat)
    requires at <= |rows| && from <= |target|
    ensures from <= end <= |target|
    ensures forall k :: from <= k < end ==> FindFrom(rows, at, c, target[k]) == |rows|
    decreases |target| - from
  {
    if from == |target| || FindFrom(rows, at, c, target[from]) != |rows| then from
    else NewEnd(c, rows, target, at, from + 1)
  }

  /** Length of the run that compares equal from the two positions on. */
  function CommonLength<V(==)>(c: Comparison<V>, rows: seq<V>, from: nat, target: seq<V>, at: nat): (n: nat)
    requires from <= |rows| && at <= |target|
    ensures from + n <= |rows| && at + n <= |target|
    ensures forall k :: at <= k < at + n ==> Same(c, rows[k + (from - at)], target[k])
    decreases |rows| - from
  {
    if from == |rows| || at == |target| || !Same(c, rows[from], target[at]) then 0
    else 1 + CommonLength(c, rows, from + 1, target, at + 1)
  }

  /** Length of the run of rows that are not the new values; keys are not looked at. */
  function DifferingLength<V(==)>(rows: seq<V>, target: seq<V>, at: nat): (n: nat)
    requires at <= |rows| && at <= |target|
    ensures at + n <= |rows| && at + n <= |target|
    decreases |rows| - at
  {
    if at == |rows| || at == |target| || target[at] == rows[at] then 0
    else 1 + DifferingLength(rows, target, at + 1)
  }

  /** Each of the runs goes on as long as it can. */
  lemma {:induction false} UnwantedEndIsLast<V>(c: Comparison<V>, rows: seq<V>, target: seq<V>, at: nat, from: nat)
    requires at <= |target| && from <= |rows|
    ensures var end := UnwantedEnd(c, rows, target, at, from);
            end == |rows| || FindFrom(target, at, c, rows[end]) < |target|
    decreases |rows| - from
  {
    hide FindFrom;
    if from < |rows| && FindFrom(target, at, c, rows[from]) == |target| {
      UnwantedEndIsLast(c, rows, target, at, from + 1);
    }
  }

  lemma {:induction false} NewEndIsLast<V>(c: Comparison<V>, rows: seq<V>, target: seq<V>, at: nat, from: nat)
    requires at <= |rows| && from <= |target|
    ensures var end := NewEnd(c, rows, target, at, from);
            end == |target| || FindFrom(rows, at, c, target[end]) < |rows|
    decreases |target| - from
  {
    hide FindFrom;
    if from < |target| && FindFrom(rows, at, c, target[from]) == |rows| {
      NewEndIsLast(c, rows, target, at, from + 1);
    }
  }

  lemma {:induction false} CommonLengthIsLongest<V>(c: Comparison<V>, rows: seq<V>, from: nat, target: seq<V>, at: nat)
    requires from <= |rows| && at <= |target|
    ensures var n := CommonLength(c, rows, from, target, at);
            from + n == |rows| || at + n == |target| || !Same(c, rows[from + n], target[at + n])
    decreases |rows| - from
  {
    hide Same;
    if from < |rows| && at < |target| && Same(c, rows[from], target[at]) {
      CommonLengthIsLongest(c, rows, from + 1, target, at + 1);
    }
  }

  lemma {:induction false} DifferingLengthIsLongest<V>(rows: seq<V>, target: seq<V>, at: nat)
    requires at <= |rows| && at <= |target|
    ensures var n := DifferingLength(rows, target, at);
            && (forall k :: at <= k < at + n ==> rows[k] != target[k])
            && (at + n == |rows| || at + n == |target| || rows[at + n] == target[at + n])
    decreases |rows| - at
  {
    if at < |rows| && at < |target| && target[at] != rows[at] {
      DifferingLengthIsLongest(rows, target, at + 1);
    }
  }

  /** At a row: the end, a row that is right already, or an operation that makes so many rows final. */
  datatype Step<V> = Done | Keep | Announce(op: RowOp<V>, placed: nat)

  function NextStep<V(==)>(c: Comparison<V>, rows: seq<V>, target: seq<V>, at: nat): (s: Step<V>)
    requires at <= |rows| && at <= |target|
    ensures s.Done? ==> |rows| == at == |target|
    ensures s.Keep? ==> at < |rows| && at < |target| && rows[at] == target[at]
    ensures s.Announce? ==> Advances(rows, target, at, s.op, s.placed)
  {
    if at == |target| then
      if at == |rows| then Done else Announce(Remove(at, |rows| - 1), 0)
    else if at == |rows| then Announce(Insert(at, target[at..]), |target| - at)
    else if !Same(c, target[at], rows[at]) then
      var from := FindFrom(rows, at, c, target[at]);
      if from < |rows| then
        if FindFrom(target, at, c, rows[at]) == |target|
        then Announce(Remove(at, UnwantedEnd(c, rows, target, at, at) - 1), 0)
        else var n := CommonLength(c, rows, from, target, at); Announce(Move(from, from + n - 1, at), n)
      else var end := NewEnd(c, rows, target, at, at); Announce(Insert(at, target[at..end]), end - at)
    else if target[at] != rows[at] then
      var n := DifferingLength(rows, target, at); Announce(Change(at, target[at..at + n]), n)
    else Keep
  }

  /** The operation can be carried out, and brings the end nearer. */
  ghost predicate Advances<V>(rows: seq<V>, target: seq<V>, at: nat, op: RowOp<V>, placed: nat) {
    && InBounds(rows, op)
    && at + placed <= |target| && at + placed <= |Apply(rows, op)|
    && (placed > 0 || |Apply(rows, op)| < |rows|)
  }

  /** All operations from a row on. */
  function Plan<V(==)>(c: Comparison<V>, rows: seq<V>, target: seq<V>, at: nat): seq<RowOp<V>>
    requires at <= |rows| && at <= |target|
    decreases |target| - at, |rows|
  {
    match NextStep(c, rows, target, at)
    case Done => []
    case Keep => Plan(c, rows, target, at + 1)
    case Announce(op, placed) => [op] + Plan(c, Apply(rows, op), target, at + placed)
  }

  /** The rows in the end. */
  function Result<V(==)>(c: Comparison<V>, rows: seq<V>, target: seq<V>, at: nat): seq<V>
    requires at <= |rows| && at <= |target|
    decreases |target| - at, |rows|
  {
    match NextStep(c, rows, target, at)
    case Done => rows
    case Keep => Result(c, rows, target, at + 1)
    case Announce(op, placed) => Result(c, Apply(rows, op), target, at + placed)
  }

  /** Old and new values that compare equal are equal. */
  ghost predicate Sharp<V>(c: Comparison<V>, start: seq<V>, target: seq<V>) {
    forall i, j :: 0 <= i < |start| && 0 <= j < |target| && Same(c, start[i], target[j]) ==> start[i] == target[j]
  }

  /** Sharpness for values known to be in the lists. */
  lemma SharpAt<V>(c: Comparison<V>, start: seq<V>, target: seq<V>, x: V, j: nat)
    requires Sharp(c, start, target) && x in start && j < |target| && Same(c, x, target[j])
    ensures x == target[j]
  {}

  /** A move put its block on the row. */
  predicate LandsOn<V>(op: RowOp<V>, k: nat) {
    op.Move? && op.dest <= k <= op.dest + (op.last - op.first)
  }

  ghost predicate Landed<V>(ops: seq<RowOp<V>>, k: nat) {
    exists i :: 0 <= i < |ops| && LandsOn(ops[i], k)
  }

  lemma LandedStep<V>(ops: seq<RowOp<V>>, op: RowOp<V>, k: nat)
    ensures Landed(ops + [op], k) <==> Landed(ops, k) || LandsOn(op, k)
  {
    if i :| 0 <= i < |ops| && LandsOn(ops[i], k) {
      assert LandsOn((ops + [op])[i], k);
    }
    assert (ops + [op])[|ops|] == op;
  }

  /** Row k of the result is the new value, unless it was moved there: then it is an old row that compares equal. */
  ghost predicate RowMatches<V>(c: Comparison<V>, start: seq<V>, target: seq<V>,
                                rows: seq<V>, ops: seq<RowOp<V>>, k: nat)
    requires k < |rows| && k < |target|
  {
    if Landed(ops, k) then rows[k] in start && Same(c, rows[k], target[k]) else rows[k] == target[k]
  }

  /** The first `done` rows are final and the mirror of everything announced is the model. */
  ghost predicate Progress<V>(c: Comparison<V>, start: seq<V>, target: seq<V>,
                              rows: seq<V>, ops: seq<RowOp<V>>, done: nat)
  {
    && done <= |rows| && done <= |target|
    && (forall k :: 0 <= k < done ==> RowMatches(c, start, target, rows, ops, k))
    && (forall k :: done <= k ==> !Landed(ops, k))
    && Elements(rows[done..]) <= Elements(start)
    && Replay(start, ops) == Rows(rows)
  }

  // --------------------------------------------------------------- minimality

  /** Between two duplicate-free lists compared by value: what has moved in and out so far. */
  ghost predicate Minimal<V>(start: seq<V>, target: seq<V>, rows: seq<V>, ops: seq<RowOp<V>>, done: nat)
    requires Replay(start, ops) == Rows(rows)
  {
    var gone, come := Removed(start, ops), Inserted(ops);
    && Unique(rows) && done <= |rows| && done <= |target| && rows[..done] == target[..done]
    && Changeless(ops)
    && Unique(gone) && Elements(gone) <= Elements(start) - Elements(target)
    && Unique(come) && Elements(come) <= Elements(target) - Elements(start)
    && Elements(rows) == Elements(start) - Elements(gone) + Elements(come)
  }

  lemma MinimalRemove<V>(start: seq<V>, target: seq<V>, rows: seq<V>, ops: seq<RowOp<V>>, done: nat, n: nat)
    requires Replay(start, ops) == Rows(rows) && Minimal(start, target, rows, ops, done)
    requires 0 < n && done + n <= |rows|
    requires Elements(rows[done..done + n]) !! Elements(target[done..])
    ensures var op := Remove(done, done + n - 1);
            && Replay(start, ops + [op]) == Rows(Apply(rows, op))
            && Minimal(start, target, Apply(rows, op), ops + [op], done)
  {
    hide Removed, Inserted, Replay, Unique, Elements, Changeless;
    var op := Remove(done, done + n - 1);
    var a, block, b := rows[..done], rows[done..done + n], rows[done + n..];
    assert rows == a + block + b && Apply(rows, op) == a + b && target == a + target[done..];
    TrafficStep(start, ops, op);
    ReplayStep(start, ops, op);
    ElementsConcat(a + block, b);
    ElementsConcat(a, block);
    ElementsConcat(a, b);
    ElementsConcat(a, target[done..]);
    UniqueConcat(a + block, b);
    UniqueConcat(a, block);
    UniqueConcat(a, b);
    ElementsConcat(Removed(start, ops), block);
    UniqueConcat(Removed(start, ops), block);
    assert (a + b)[..done] == a;
  }

  lemma MinimalInsert<V>(start: seq<V>, target: seq<V>, rows: seq<V>, ops: seq<RowOp<V>>, done: nat, n: nat)
    requires Replay(start, ops) == Rows(rows) && Minimal(start, target, rows, ops, done) && Unique(target)
    requires 0 < n && done + n <= |target|
    requires Elements(target[done..done + n]) !! Elements(rows[done..])
    ensures var op := Insert(done, target[done..done + n]);
            && Replay(start, ops + [op]) == Rows(Apply(rows, op))
            && Minimal(start, target, Apply(rows, op), ops + [op], done + n)
  {
    hide Removed, Inserted, Replay, Unique, Elements, Changeless;
    var a, block, b := rows[..done], target[done..done + n], rows[done..];
    var op, c := Insert(done, block), target[done + n..];
    assert rows == a + b && Apply(rows, op) == a + block + b && target == a + block + c;
    assert (a + block + b)[..done + n] == a + block == target[..done + n];
    TrafficStep(start, ops, op);
    ReplayStep(start, ops, op);
    ElementsConcat(a, b);
    ElementsConcat(a, block);
    ElementsConcat(a + block, b);
    ElementsConcat(a + block, c);
    UniqueConcat(a, b);
    UniqueConcat(a, block);
    UniqueConcat(a + block, b);
    UniqueConcat(a + block, c);
    ElementsConcat(Inserted(ops), block);
    UniqueConcat(Inserted(ops), block);
  }

  lemma MinimalMove<V>(start: seq<V>, target: seq<V>, rows: seq<V>, ops: seq<RowOp<V>>, done: nat, from: nat, n: nat)
    requires Replay(start, ops) == Rows(rows) && Minimal(start, target, rows, ops, done)
    requires 0 < n && done < from && from + n <= |rows| && done + n <= |target|
    requires rows[from..from + n] == target[done..done + n]
    ensures var op := Move(from, from + n - 1, done);
            && Replay(start, ops + [op]) == Rows(Apply(rows, op))
            && Minimal(start, target, Apply(rows, op), ops + [op], done + n)
  {
    hide Removed, Inserted, Replay, Unique, Elements, Changeless;
    var op := Move(from, from + n - 1, done);
    var a, b, block, c := rows[..done], rows[done..from], rows[from..from + n], rows[from + n..];
    assert rows == a + b + block + c && Apply(rows, op) == a + block + b + c;
    assert (a + block + b + c)[..done + n] == a + block == target[..done + n];
    TrafficStep(start, ops, op);
    ReplayStep(start, ops, op);
    Exchange(a, b, block, c);
  }

  lemma MinimalKeep<V>(start: seq<V>, target: seq<V>, rows: seq<V>, ops: seq<RowOp<V>>, done: nat)
    requires Replay(start, ops) == Rows(rows) && Minimal(start, target, rows, ops, done)
    requires done < |rows| && done < |target| && rows[done] == target[done]
    ensures Minimal(start, target, rows, ops, done + 1)
  {
    hide Removed, Inserted, Replay, Unique, Elements, Changeless;
    assert rows[..done + 1] == rows[..done] + [rows[done]] == target[..done + 1];
  }

  /** At the end the values out and in are exactly the two differences. */
  lemma MinimalAtEnd<V>(start: seq<V>, target: seq<V>, ops: seq<RowOp<V>>)
    requires Replay(start, ops) == Rows(target) && Minimal(start, target, target, ops, |target|)
    ensures Elements(Removed(start, ops)) == Elements(start) - Elements(target)
    ensures Elements(Inserted(ops)) == Elements(target) - Elements(start)
  {
    hide Removed, Inserted, Replay, Unique, Elements, Changeless;
  }

  // ------------------------------------------------------- one step of progress

  /** One operation that leaves the final rows alone, makes a run final after them, and keeps old rows behind. */
  lemma ProgressStep<V>(c: Comparison<V>, start: seq<V>, target: seq<V>, rows: seq<V>, ops: seq<RowOp<V>>,
                        done: nat, op: RowOp<V>, run: seq<V>, rest: seq<V>)
    requires Progress(c, start, target, rows, ops, done) && InBounds(rows, op)
    requires Apply(rows, op) == rows[..done] + run + rest
    requires done + |run| <= |target| && Elements(rest) <= Elements(start)
    requires op.Move? ==> op.dest == done && op.last - op.first + 1 == |run|
    requires forall k :: 0 <= k < |run| ==>
               if op.Move? then run[k] in start && Same(c, run[k], target[done + k]) else run[k] == target[done + k]
    ensures Progress(c, start, target, Apply(rows, op), ops + [op], done + |run|)
  {
    hide Apply, Replay, Elements, Same, Landed;
    ReplayStep(start, ops, op);
    var rows' := Apply(rows, op);
    assert rows'[done + |run|..] == rest;
    forall k: nat ensures Landed(ops + [op], k) <==> Landed(ops, k) || LandsOn(op, k) {
      LandedStep(ops, op, k);
    }
    forall k | 0 <= k < done + |run| ensures RowMatches(c, start, target, rows', ops + [op], k) {
      if k < done {
        assert RowMatches(c, start, target, rows, ops, k) && rows'[k] == rows[k];
      } else {
        assert rows'[k] == run[k - done];
      }
    }
  }

  /** What every step keeps: `done` rows are final. */
  ghost predicate Loop<V>(c: Comparison<V>, start: seq<V>, target: seq<V>,
                          rows: seq<V>, ops: seq<RowOp<V>>, done: nat)
  {
    && Progress(c, start, target, rows, ops, done)
    && (Sharp(c, start, target) && Unique(start) && Unique(target) ==> Minimal(start, target, rows, ops, done))
    && (start == target ==> rows == start && ops == [])
  }

  lemma LoopBegins<V>(c: Comparison<V>, start: seq<V>, target: seq<V>)
    ensures Loop(c, start, target, start, [], 0)
  {}

  /** Values of two stretches that never compare equal are not equal either. */
  lemma NothingShared<V>(c: Comparison<V>, xs: seq<V>, ys: seq<V>)
    requires forall i, j :: 0 <= i < |xs| && 0 <= j < |ys| ==> !Same(c, xs[i], ys[j])
    ensures Elements(xs) !! Elements(ys)
  {
    forall v | v in Elements(xs) ensures v !in Elements(ys) {
      var i :| 0 <= i < |xs| && xs[i] == v;
    }
  }

  lemma LoopRemove<V>(c: Comparison<V>, start: seq<V>, target: seq<V>, rows: seq<V>, ops: seq<RowOp<V>>,
                      done: nat, n: nat)
    requires Loop(c, start, target, rows, ops, done) && 0 < n && done + n <= |rows|
    requires forall k :: done <= k < done + n ==> FindFrom(target, done, c, rows[k]) == |target|
    ensures var op := Remove(done, done + n - 1); Loop(c, start, target, Apply(rows, op), ops + [op], done)
  {
    hide Sharp, Landed, Removed, Inserted, Replay, Unique, Changeless, Minimal, FindFrom, Elements, RowMatches;
    var op := Remove(done, done + n - 1);
    var block, rest := rows[done..done + n], rows[done + n..];
    assert FindFrom(target, done, c, rows[done]) == |target|;
    assert rows[done..] == block + rest;
    ElementsConcat(block, rest);
    ProgressStep(c, start, target, rows, ops, done, op, [], rest);
    assert forall i :: 0 <= i < n ==>
      block[i] == rows[done + i] && FindFrom(target, done, c, rows[done + i]) == |target|;
    NothingShared(c, block, target[done..]);
    if Sharp(c, start, target) && Unique(start) && Unique(target) {
      MinimalRemove(start, target, rows, ops, done, n);
    }
  }

  lemma LoopInsert<V>(c: Comparison<V>, start: seq<V>, target: seq<V>, rows: seq<V>, ops: seq<RowOp<V>>,
                      done: nat, n: nat)
    requires Loop(c, start, target, rows, ops, done) && 0 < n && done + n <= |target|
    requires forall k :: done <= k < done + n ==> FindFrom(rows, done, c, target[k]) == |rows|
    ensures var op := Insert(done, target[done..done + n]);
            Loop(c, start, target, Apply(rows, op), ops + [op], done + n)
  {
    hide Sharp, Landed, Removed, Inserted, Replay, Unique, Changeless, Minimal, FindFrom, Elements;
    var op, block := Insert(done, target[done..done + n]), target[done..done + n];
    assert FindFrom(rows, done, c, target[done]) == |rows|;
    ProgressStep(c, start, target, rows, ops, done, op, block, rows[done..]);
    assert forall i :: 0 <= i < n ==>
      block[i] == target[done + i] && FindFrom(rows, done, c, target[done + i]) == |rows|;
    NothingShared(c, block, rows[done..]);
    if Sharp(c, start, target) && Unique(start) && Unique(target) {
      MinimalInsert(start, target, rows, ops, done, n);
    }
  }

  lemma LoopMove<V>(c: Comparison<V>, start: seq<V>, target: seq<V>, rows: seq<V>, ops: seq<RowOp<V>>,
                    done: nat, from: nat, n: nat)
    requires Loop(c, start, target, rows, ops, done)
    requires 0 < n && done < from && from + n <= |rows| && done + n <= |target|
    requires !Same(c, target[done], rows[done])
    requires forall k :: done <= k < done + n ==> Same(c, rows[k + (from - done)], target[k])
    ensures var op := Move(from, from + n - 1, done);
            Loop(c, start, target, Apply(rows, op), ops + [op], done + n)
  {
    hide Landed, Removed, Inserted, Replay, Unique, Elements, Changeless, Minimal, Apply;
    ProgressMove(c, start, target, rows, ops, done, from, n);
    if Sharp(c, start, target) && Unique(start) && Unique(target) {
      MovedIsTarget(c, start, target, rows, done, from, n);
      assert rows[from..from + n] == target[done..done + n];
      MinimalMove(start, target, rows, ops, done, from, n);
    }
  }

  lemma MovedIsTarget<V>(c: Comparison<V>, start: seq<V>, target: seq<V>, rows: seq<V>, done: nat, from: nat, n: nat)
    requires Sharp(c, start, target) && done < from && from + n <= |rows| && done + n <= |target|
    requires Elements(rows[done..]) <= Elements(start)
    requires forall k :: done <= k < done + n ==> Same(c, rows[k + (from - done)], target[k])
    ensures forall k :: done <= k < done + n ==> rows[k + (from - done)] == target[k]
  {
    forall k | done <= k < done + n ensures rows[k + (from - done)] == target[k] {
      assert rows[done..][k + (from - done) - done] in Elements(rows[done..]);
      SharpAt(c, start, target, rows[k + (from - done)], k);
    }
  }

  lemma ProgressMove<V>(c: Comparison<V>, start: seq<V>, target: seq<V>, rows: seq<V>, ops: seq<RowOp<V>>,
                        done: nat, from: nat, n: nat)
    requires Progress(c, start, target, rows, ops, done)
    requires 0 < n && done < from && from + n <= |rows| && done + n <= |target|
    requires forall k :: done <= k < done + n ==> Same(c, rows[k + (from - done)], target[k])
    ensures var op := Move(from, from + n - 1, done);
            Progress(c, start, target, Apply(rows, op), ops + [op], done + n)
  {
    hide Replay, FindFrom, Elements;
    var skipped, run, tail := rows[done..from], rows[from..from + n], rows[from + n..];
    assert rows[done..] == skipped + run + tail;
    ElementsConcat(skipped + run, tail);
    ElementsConcat(skipped, run);
    ElementsConcat(skipped, tail);
    RunIsOld(rows[done..], run, start);
    assert forall k :: 0 <= k < n ==> run[k] == rows[(done + k) + (from - done)];
    var op := Move(from, from + n - 1, done);
    assert Apply(rows, op) == rows[..done] + run + (skipped + tail);
    ProgressStep(c, start, target, rows, ops, done, op, run, skipped + tail);
  }

  lemma RunIsOld<V>(rows: seq<V>, run: seq<V>, start: seq<V>)
    requires Elements(run) <= Elements(rows) <= Elements(start)
    ensures forall k :: 0 <= k < |run| ==> run[k] in start
  {
    assert forall k :: 0 <= k < |run| ==> run[k] in Elements(run);
  }

  lemma LoopChange<V>(c: Comparison<V>, start: seq<V>, target: seq<V>, rows: seq<V>, ops: seq<RowOp<V>>,
                      done: nat, n: nat)
    requires Loop(c, start, target, rows, ops, done) && 0 < n && done + n <= |rows| && done + n <= |target|
    requires Same(c, target[done], rows[done]) && target[done] != rows[done]
    ensures var op := Change(done, target[done..done + n]);
            Loop(c, start, target, Apply(rows, op), ops + [op], done + n)
  {
    hide Landed, Removed, Inserted, Replay, Unique, Changeless, Minimal;
    assert rows[done..] == rows[done..done + n] + rows[done + n..];
    if Sharp(c, start, target) {
      assert rows[done..][0] in Elements(rows[done..]);
      SharpAt(c, start, target, rows[done], done);
    }
    ProgressStep(c, start, target, rows, ops, done, Change(done, target[done..done + n]),
                 target[done..done + n], rows[done + n..]);
  }

  lemma LoopKeep<V>(c: Comparison<V>, start: seq<V>, target: seq<V>, rows: seq<V>, ops: seq<RowOp<V>>, done: nat)
    requires Loop(c, start, target, rows, ops, done) && done < |rows| && done < |target|
    requires target[done] == rows[done]
    ensures Loop(c, start, target, rows, ops, done + 1)
  {
    hide Sharp, Landed, Removed, Inserted, Replay, Unique, Changeless, Minimal;
    assert rows[done..] == [rows[done]] + rows[done + 1..];
    if Sharp(c, start, target) && Unique(start) && Unique(target) {
      MinimalKeep(start, target, rows, ops, done);
    }
  }

  lemma LoopEnds<V>(c: Comparison<V>, start: seq<V>, target: seq<V>, rows: seq<V>, ops: seq<RowOp<V>>)
    requires Loop(c, start, target, rows, ops, |target|) && |rows| == |target|
    ensures Replay(start, ops) == Rows(rows)
    ensures forall k :: 0 <= k < |rows| ==> RowMatches(c, start, target, rows, ops, k)
    ensures Sharp(c, start, target) ==> rows == target
    ensures start == target ==> ops == []
    ensures Sharp(c, start, target) && Unique(start) && Unique(target) ==> Economical(start, target, ops)
  {
    hide Removed, Inserted, Replay, Unique, Elements, Changeless;
    if Sharp(c, start, target) {
      forall k | 0 <= k < |rows| ensures rows[k] == target[k] {
        assert RowMatches(c, start, target, rows, ops, k);
      }
      assert rows == target;
      if Unique(start) && Unique(target) {
        MinimalAtEnd(start, target, ops);
      }
    }
  }

  /** Nothing is replaced; exactly the old-only values leave and exactly the new-only values enter, once each. */
  ghost predicate Economical<V>(start: seq<V>, target: seq<V>, ops: seq<RowOp<V>>) {
    && Replay(start, ops) == Rows(target)
    && Changeless(ops)
    && Unique(Removed(start, ops)) && Elements(Removed(start, ops)) == Elements(start) - Elements(target)
    && Unique(Inserted(ops)) && Elements(Inserted(ops)) == Elements(target) - Elements(start)
  }

  // ------------------------------------------------------------- the whole plan

  // What the next operation's kind says about the rows.

  lemma WhenRemoving<V>(c: Comparison<V>, rows: seq<V>, target: seq<V>, at: nat)
    requires at <= |rows| && at <= |target|
    requires NextStep(c, rows, target, at).Announce? && NextStep(c, rows, target, at).op.Remove?
    ensures var Announce(Remove(first, last), placed) := NextStep(c, rows, target, at);
            && first == at <= last < |rows| && placed == 0
            && forall k :: at <= k < last + 1 ==> FindFrom(target, at, c, rows[k]) == |target|
  {
    hide FindFrom, UnwantedEnd, NewEnd, CommonLength, DifferingLength, Same, Apply;
  }

  lemma WhenInserting<V>(c: Comparison<V>, rows: seq<V>, target: seq<V>, at: nat)
    requires at <= |rows| && at <= |target|
    requires NextStep(c, rows, target, at).Announce? && NextStep(c, rows, target, at).op.Insert?
    ensures var Announce(Insert(first, values), placed) := NextStep(c, rows, target, at);
            && first == at && 0 < placed && at + placed <= |target| && values == target[at..at + placed]
            && forall k :: at <= k < at + placed ==> FindFrom(rows, at, c, target[k]) == |rows|
  {
    hide FindFrom, UnwantedEnd, NewEnd, CommonLength, DifferingLength, Same, Apply;
  }

  lemma MovingShape<V>(c: Comparison<V>, rows: seq<V>, target: seq<V>, at: nat)
    requires at <= |rows| && at <= |target|
    requires NextStep(c, rows, target, at).Announce? && NextStep(c, rows, target, at).op.Move?
    ensures at < |rows| && at < |target|
    ensures !Same(c, target[at], rows[at]) && FindFrom(target, at, c, rows[at]) < |target|
    ensures var from := FindFrom(rows, at, c, target[at]);
            && from < |rows|
            && NextStep(c, rows, target, at).placed == CommonLength(c, rows, from, target, at)
            && NextStep(c, rows, target, at).op.first == from && NextStep(c, rows, target, at).op.dest == at
            && NextStep(c, rows, target, at).op.last == from + NextStep(c, rows, target, at).placed - 1
  {
    hide FindFrom, UnwantedEnd, NewEnd, DifferingLength, CommonLength, Same, Apply, InBounds;
  }

  lemma WhenMoving<V>(c: Comparison<V>, rows: seq<V>, target: seq<V>, at: nat)
    requires at <= |rows| && at <= |target|
    requires NextStep(c, rows, target, at).Announce? && NextStep(c, rows, target, at).op.Move?
    ensures at < |rows| && at < |target|
    ensures !Same(c, target[at], rows[at]) && FindFrom(target, at, c, rows[at]) < |target|
    ensures var from := FindFrom(rows, at, c, target[at]);
            var n := CommonLength(c, rows, from, target, at);
            && at < from < |rows| && 0 < n
            && NextStep(c, rows, target, at) == Announce(Move(from, from + n - 1, at), n)
  {
    hide FindFrom, CommonLength, Same, Apply, NextStep;
    MovingShape(c, rows, target, at);
    SameSymmetric(c, rows[at], target[at]);
  }

  lemma WhenChanging<V>(c: Comparison<V>, rows: seq<V>, target: seq<V>, at: nat)
    requires at <= |rows| && at <= |target|
    requires NextStep(c, rows, target, at).Announce? && NextStep(c, rows, target, at).op.Change?
    ensures var Announce(Change(first, values), placed) := NextStep(c, rows, target, at);
            && first == at && 0 < placed && at + placed <= |target| && at + placed <= |rows|
            && values == target[at..at + placed] && Same(c, target[at], rows[at]) && target[at] != rows[at]
  {
    hide FindFrom, UnwantedEnd, NewEnd, CommonLength, DifferingLength, Same, Apply;
  }

  lemma LoopStep<V>(c: Comparison<V>, start: seq<V>, target: seq<V>, rows: seq<V>, ops: seq<RowOp<V>>, at: nat)
    requires at <= |rows| && at <= |target|
    requires Loop(c, start, target, rows, ops, at) && NextStep(c, rows, target, at).Announce?
    ensures var Announce(op, placed) := NextStep(c, rows, target, at);
            Loop(c, start, target, Apply(rows, op), ops + [op], at + placed)
  {
    hide Loop, Apply, InBounds, NextStep, FindFrom, Same, Sharp;
    var Announce(op, placed) := NextStep(c, rows, target, at);
    match op
    case Remove(first, last) =>
      WhenRemoving(c, rows, target, at);
      LoopRemove(c, start, target, rows, ops, at, last + 1 - first);
    case Insert(_, _) =>
      WhenInserting(c, rows, target, at);
      LoopInsert(c, start, target, rows, ops, at, placed);
    case Move(first, last, _) =>
      WhenMoving(c, rows, target, at);
      LoopMove(c, start, target, rows, ops, at, first, placed);
    case Change(_, _) =>
      WhenChanging(c, rows, target, at);
      LoopChange(c, start, target, rows, ops, at, placed);
  }

  lemma {:induction false} PlanRuns<V>(c: Comparison<V>, start: seq<V>, target: seq<V>, rows: seq<V>,
                                       ops: seq<RowOp<V>>, at: nat)
    requires at <= |rows| && at <= |target| && Loop(c, start, target, rows, ops, at)
    ensures var rows' := Result(c, rows, target, at);
            |rows'| == |target| && Loop(c, start, target, rows', ops + Plan(c, rows, target, at), |target|)
    decreases |target| - at, |rows|
  {
    hide Loop, NextStep, Apply;
    match NextStep(c, rows, target, at)
    case Done =>
      assert ops + [] == ops;
    case Keep =>
      LoopKeep(c, start, target, rows, ops, at);
      PlanRuns(c, start, target, rows, ops, at + 1);
    case Announce(op, placed) =>
      LoopStep(c, start, target, rows, ops, at);
      PlanRuns(c, start, target, Apply(rows, op), ops + [op], at + placed);
      assert ops + [op] + Plan(c, Apply(rows, op), target, at + placed)
          == ops + ([op] + Plan(c, Apply(rows, op), target, at + placed));
  }

  /**
    The plan replays to its result; every row of that is the new value, or an old one of
    equal key where a move landed.  If old and new values that compare equal are equal,
    the result is the new list, and nothing is removed or inserted without need.
   */
  lemma PlanIsRight<V>(c: Comparison<V>, start: seq<V>, target: seq<V>)
    ensures var ops, rows := Plan(c, start, target, 0), Result(c, start, target, 0);
            && Replay(start, ops) == Rows(rows) && |rows| == |target|
            && (forall k :: 0 <= k < |rows| ==> RowMatches(c, start, target, rows, ops, k))
            && (Sharp(c, start, target) ==> rows == target)
            && (start == target ==> ops == [])
            && (Sharp(c, start, target) && Unique(start) && Unique(target) ==> Economical(start, target, ops))
  {
    hide Loop, Plan, Result, Sharp, Unique, Economical, Replay, RowMatches;
    LoopBegins(c, start, target);
    PlanRuns(c, start, target, start, [], 0);
    assert [] + Plan(c, start, target, 0) == Plan(c, start, target, 0);
    LoopEnds(c, start, target, Result(c, start, target, 0), Plan(c, start, target, 0));
  }
}
