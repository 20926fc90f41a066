/**
  Diffing by key: exactly when the result is the new list, and when nothing is
  replaced or made again that both lists hold.
 */
module KeyedDiff {
  import opened RowOps
  import opened ListDiff

  // --------------------------------------------------------------- stale rows

  /** Blocks that are moved into place hold the new values already; every other operation writes new values. */
  predicate Fresh<V(==)>(c: Comparison<V>, rows: seq<V>, target: seq<V>, at: nat)
    requires at <= |rows| && at <= |target|
    decreases |target| - at, |rows|
  {
    match NextStep(c, rows, target, at)
    case Done => true
    case Keep => Fresh(c, rows, target, at + 1)
    case Announce(op, placed) =>
      && (op.Move? ==> rows[op.first..op.last + 1] == target[at..at + placed])
      && Fresh(c, Apply(rows, op), target, at + placed)
  }

  /** What the functions over a list make of its next step. */
  lemma Unrolled<V>(c: Comparison<V>, rows: seq<V>, target: seq<V>, at: nat)
    requires at <= |rows| && at <= |target|
    ensures match NextStep(c, rows, target, at)
            case Done =>
              Plan(c, rows, target, at) == [] && Result(c, rows, target, at) == rows && Fresh(c, rows, target, at)
            case Keep =>
              && Plan(c, rows, target, at) == Plan(c, rows, target, at + 1)
              && Result(c, rows, target, at) == Result(c, rows, target, at + 1)
              && (Fresh(c, rows, target, at) <==> Fresh(c, rows, target, at + 1))
            case Announce(op, placed) =>
              var rows' := Apply(rows, op);
              && Plan(c, rows, target, at) == [op] + Plan(c, rows', target, at + placed)
              && Result(c, rows, target, at) == Result(c, rows', target, at + placed)
              && (Fresh(c, rows, target, at) <==>
                    && (op.Move? ==> rows[op.first..op.last + 1] == target[at..at + placed])
                    && Fresh(c, rows', target, at + placed))
  {
    hide NextStep, Apply;
  }

  lemma FinalRows<V>(c: Comparison<V>, rows: seq<V>, target: seq<V>, at: nat)
    requires at <= |rows| && at <= |target| && NextStep(c, rows, target, at).Announce?
    ensures var Announce(op, placed) := NextStep(c, rows, target, at);
            Apply(rows, op)[..at + placed]
            == rows[..at] + if op.Move? then rows[op.first..op.last + 1] else target[at..at + placed]
    ensures var Announce(op, placed) := NextStep(c, rows, target, at);
            op.Move? ==> op.last + 1 - op.first == placed
  {
    hide FindFrom, UnwantedEnd, NewEnd, Same, NextStep, CommonLength, Apply;
    var Announce(op, placed) := NextStep(c, rows, target, at);
    StepPlaces(c, rows, target, at);
    if op.Insert? {
      WhenInserting(c, rows, target, at);
    } else if op.Change? {
      WhenChanging(c, rows, target, at);
    }
    PlacedRows(rows, op, at, placed);
    assert op.Remove? ==> target[at..at] == [];
  }

  lemma PlacedRows<V>(rows: seq<V>, op: RowOp<V>, at: nat, placed: nat)
    requires Places(rows, op, at, placed)
    ensures at + placed <= |Apply(rows, op)|
    ensures Apply(rows, op)[..at + placed] == rows[..at] + match op
            case Remove(_, _) => []
            case Insert(_, values) => values
            case Move(first, last, _) => rows[first..last + 1]
            case Change(_, values) => values
  {
    match op
    case Remove(_, last) => Prefix(rows[..at], [], rows[last + 1..]);
    case Insert(_, values) => Prefix(rows[..at], values, rows[at..]);
    case Move(first, last, _) =>
      Prefix(rows[..at], rows[first..last + 1], rows[at..first] + rows[last + 1..]);
      Regroup(rows[..at], rows[first..last + 1], rows[at..first], rows[last + 1..]);
    case Change(_, values) => Prefix(rows[..at], values, rows[at + |values|..]);
  }

  lemma Prefix<V>(a: seq<V>, b: seq<V>, c: seq<V>)
    ensures (a + b + c)[..|a| + |b|] == a + b && a + [] + c == a + c
  {}

  lemma Regroup<V>(a: seq<V>, b: seq<V>, c: seq<V>, d: seq<V>)
    ensures a + b + c + d == a + b + (c + d)
  {}

  lemma SamePrefixes<V>(a: seq<V>, b: seq<V>, a': seq<V>, b': seq<V>)
    requires |a| == |a'|
    ensures a + b == a' + b' <==> a == a' && b == b'
  {
    if a + b == a' + b' {
      assert a == (a + b)[..|a|] && b == (a + b)[|a|..];
    }
  }

  lemma FinalRowsAgree<V>(c: Comparison<V>, rows: seq<V>, target: seq<V>, at: nat)
    requires at <= |rows| && at <= |target| && NextStep(c, rows, target, at).Announce?
    ensures var Announce(op, placed) := NextStep(c, rows, target, at);
            Apply(rows, op)[..at + placed] == target[..at + placed]
            <==> rows[..at] == target[..at] && (op.Move? ==> rows[op.first..op.last + 1] == target[at..at + placed])
  {
    hide NextStep, Apply;
    var Announce(op, placed) := NextStep(c, rows, target, at);
    FinalRows(c, rows, target, at);
    assert target[..at + placed] == target[..at] + target[at..at + placed];
    SamePrefixes(rows[..at], if op.Move? then rows[op.first..op.last + 1] else target[at..at + placed],
                 target[..at], target[at..at + placed]);
  }

  lemma KeptRowsAgree<V>(rows: seq<V>, target: seq<V>, at: nat)
    requires at < |rows| && at < |target| && rows[at] == target[at]
    ensures rows[..at + 1] == target[..at + 1] <==> rows[..at] == target[..at]
  {
    SamePrefixes(rows[..at], [rows[at]], target[..at], [target[at]]);
    assert rows[..at + 1] == rows[..at] + [rows[at]] && target[..at + 1] == target[..at] + [target[at]];
  }

  /** The result is the new list exactly if the moved blocks are. */
  lemma {:induction false} FreshExactly<V>(c: Comparison<V>, rows: seq<V>, target: seq<V>, at: nat)
    requires at <= |rows| && at <= |target|
    ensures Result(c, rows, target, at) == target <==> rows[..at] == target[..at] && Fresh(c, rows, target, at)
    decreases |target| - at, |rows|
  {
    hide NextStep, Apply, Fresh, Result;
    Unrolled(c, rows, target, at);
    match NextStep(c, rows, target, at)
    case Done =>
      assert rows[..at] == rows && target[..at] == target;
    case Keep =>
      FreshExactly(c, rows, target, at + 1);
      KeptRowsAgree(rows, target, at);
    case Announce(op, placed) =>
      FreshExactly(c, Apply(rows, op), target, at + placed);
      FinalRowsAgree(c, rows, target, at);
  }

  /** In particular when old and new values that compare equal are equal. */
  lemma SharpIsFresh<V>(c: Comparison<V>, start: seq<V>, target: seq<V>)
    ensures Sharp(c, start, target) ==> Fresh(c, start, target, 0)
  {
    hide Sharp, Fresh, Result;
    PlanIsRight(c, start, target);
    FreshExactly(c, start, target, 0);
  }

  // ------------------------------------------------------------- distinct keys

  /** No two values from the position on compare equal. */
  ghost predicate Distinct<V>(c: Comparison<V>, s: seq<V>, from: nat) {
    forall i, j :: from <= i < j < |s| ==> !Same(c, s[i], s[j])
  }

  lemma DistinctIsSame<V>(c: Comparison<V>, s: seq<V>, from: nat, i: nat, j: nat)
    requires Distinct(c, s, from) && from <= i < |s| && from <= j < |s| && Same(c, s[i], s[j])
    ensures i == j
  {
    SameSymmetric(c, s[i], s[j]);
  }

  lemma SameTransitive<V>(c: Comparison<V>, x: V, y: V, z: V)
    requires Same(c, x, y) && (Same(c, y, z) || Same(c, z, y))
    ensures Same(c, x, z) && Same(c, z, x)
  {}

  /** Where a row that is not final after an operation was before. */
  function Origin<V>(op: RowOp<V>, i: nat): int {
    match op
    case Remove(first, last) => i + (last + 1 - first)
    case Insert(_, values) => i - |values|
    case Move(first, last, _) => if i <= last then i - (last + 1 - first) else i
    case Change(_, _) => i
  }

  /** Where a row is after an operation that leaves it. */
  function Shift<V>(op: RowOp<V>, i: nat): int {
    match op
    case Remove(first, last) => i - (last + 1 - first)
    case Insert(_, values) => i + |values|
    case Move(first, last, _) => if i < first then i + (last + 1 - first) else i
    case Change(_, _) => i
  }

  /** The operation leaves the row for later. */
  predicate Spares<V>(op: RowOp<V>, at: nat, placed: nat, i: nat) {
    match op
    case Remove(_, last) => last < i
    case Insert(_, _) => true
    case Move(first, last, _) => i < first || last < i
    case Change(_, _) => at + placed <= i
  }

  /** The operation makes the rows from `at` on final, `placed` of them. */
  ghost predicate Places<V>(rows: seq<V>, op: RowOp<V>, at: nat, placed: nat) {
    && InBounds(rows, op) && at <= |rows|
    && match op
       case Remove(first, _) => first == at && placed == 0
       case Insert(first, values) => first == at && placed == |values|
       case Move(first, last, dest) => dest == at && placed == last + 1 - first && at < first
       case Change(first, values) => first == at && placed == |values|
  }

  lemma StepPlaces<V>(c: Comparison<V>, rows: seq<V>, target: seq<V>, at: nat)
    requires at <= |rows| && at <= |target| && NextStep(c, rows, target, at).Announce?
    ensures var Announce(op, placed) := NextStep(c, rows, target, at); Places(rows, op, at, placed)
  {
    hide FindFrom, UnwantedEnd, NewEnd, Same;
    match NextStep(c, rows, target, at).op
    case Remove(_, _) => WhenRemoving(c, rows, target, at);
    case Insert(_, _) => WhenInserting(c, rows, target, at);
    case Move(_, _, _) => WhenMoving(c, rows, target, at);
    case Change(_, _) => WhenChanging(c, rows, target, at);
  }

  lemma OriginOf<V>(rows: seq<V>, op: RowOp<V>, at: nat, placed: nat, i: nat)
    requires Places(rows, op, at, placed) && at + placed <= i < |Apply(rows, op)|
    ensures at <= Origin(op, i) < |rows| && Spares(op, at, placed, Origin(op, i))
    ensures Apply(rows, op)[i] == rows[Origin(op, i)]
  {
    hide Apply;
    AppliedLength(rows, op);
    match op
    case Remove(first, last) => RemovedAt(rows, first, last, i);
    case Insert(_, values) => InsertedAt(rows, at, values, i);
    case Move(first, last, _) => MovedAt(rows, first, last, at, i);
    case Change(_, values) => ChangedAt(rows, at, values, i);
  }

  lemma RemovedAt<V>(rows: seq<V>, first: nat, last: nat, i: nat)
    requires first <= last < |rows| && first <= i < |rows| - (last + 1 - first)
    ensures Apply(rows, Remove(first, last))[i] == rows[i + (last + 1 - first)]
  {}

  lemma InsertedAt<V>(rows: seq<V>, first: nat, values: seq<V>, i: nat)
    requires first <= |rows| && values != [] && first + |values| <= i < |rows| + |values|
    ensures Apply(rows, Insert(first, values))[i] == rows[i - |values|]
  {}

  lemma ChangedAt<V>(rows: seq<V>, first: nat, values: seq<V>, i: nat)
    requires values != [] && first + |values| <= i < |rows|
    ensures Apply(rows, Change(first, values))[i] == rows[i]
  {}

  lemma MovedAt<V>(rows: seq<V>, first: nat, last: nat, dest: nat, i: nat)
    requires dest < first <= last < |rows| && dest + last + 1 - first <= i < |rows|
    ensures var rows' := Apply(rows, Move(first, last, dest));
            |rows'| == |rows| && rows'[i] == rows[if i <= last then i - (last + 1 - first) else i]
  {}

  lemma ShiftOf<V>(rows: seq<V>, op: RowOp<V>, at: nat, placed: nat, i: nat)
    requires Places(rows, op, at, placed) && at <= i < |rows| && Spares(op, at, placed, i)
    ensures at + placed <= Shift(op, i) < |Apply(rows, op)|
    ensures Apply(rows, op)[Shift(op, i)] == rows[i] && Origin(op, Shift(op, i)) == i
  {
    hide Apply;
    AppliedLength(rows, op);
    OriginOf(rows, op, at, placed, Shift(op, i));
  }

  lemma ShiftKeepsOrder<V>(rows: seq<V>, op: RowOp<V>, at: nat, placed: nat, p: nat, i: nat)
    requires Places(rows, op, at, placed) && at <= p < i && Spares(op, at, placed, p) && Spares(op, at, placed, i)
    ensures Shift(op, p) < Shift(op, i)
  {}

  lemma AppliedLength<V>(rows: seq<V>, op: RowOp<V>)
    requires InBounds(rows, op)
    ensures |Apply(rows, op)| == match op
            case Remove(first, last) => |rows| - (last + 1 - first)
            case Insert(_, values) => |rows| + |values|
            case Move(_, _, _) => |rows|
            case Change(_, _) => |rows|
  {}

  lemma StaysDistinct<V>(c: Comparison<V>, rows: seq<V>, target: seq<V>, at: nat)
    requires at <= |rows| && at <= |target| && NextStep(c, rows, target, at).Announce? && Distinct(c, rows, at)
    ensures var Announce(op, placed) := NextStep(c, rows, target, at); Distinct(c, Apply(rows, op), at + placed)
  {
    hide NextStep, Same, Apply;
    var Announce(op, placed) := NextStep(c, rows, target, at);
    var rows' := Apply(rows, op);
    StepPlaces(c, rows, target, at);
    forall i, j | at + placed <= i < j < |rows'| ensures !Same(c, rows'[i], rows'[j]) {
      OriginOf(rows, op, at, placed, i);
      OriginOf(rows, op, at, placed, j);
    }
  }

  /** A row and a new value of the same key. */
  ghost predicate Match<V>(c: Comparison<V>, rows: seq<V>, target: seq<V>, at: nat, i: int, j: int) {
    at <= i < |rows| && at <= j < |target| && Same(c, rows[i], target[j])
  }

  /** A block of common keys holds a row exactly if it holds the new value of its key, at the same place. */
  lemma BlockTakesBoth<V>(c: Comparison<V>, rows: seq<V>, target: seq<V>, at: nat, first: nat, n: nat, i: nat, j: nat)
    requires Distinct(c, rows, at) && Distinct(c, target, at) && Match(c, rows, target, at, i, j)
    requires at <= first && first + n <= |rows| && at + n <= |target|
    requires forall k :: at <= k < at + n ==> Same(c, rows[k + (first - at)], target[k])
    ensures first <= i < first + n <==> j < at + n
    ensures j < at + n ==> i - first == j - at
  {
    hide Same;
    if j < at + n {
      assert Same(c, rows[j + (first - at)], target[j]);
      SameTransitive(c, rows[i], target[j], rows[j + (first - at)]);
      DistinctIsSame(c, rows, at, i, j + (first - at));
    }
    if first <= i < first + n {
      var k := i - (first - at);
      assert Same(c, rows[k + (first - at)], target[k]);
      SameSymmetric(c, rows[i], target[j]);
      SameTransitive(c, target[j], rows[i], target[k]);
      DistinctIsSame(c, target, at, j, k);
    }
  }

  /** With distinct keys an operation either makes both partners of a match final or leaves both for later. */
  lemma MatchSpared<V>(c: Comparison<V>, rows: seq<V>, target: seq<V>, at: nat, i: nat, j: nat)
    requires at <= |rows| && at <= |target| && NextStep(c, rows, target, at).Announce?
    requires Distinct(c, rows, at) && Distinct(c, target, at) && Match(c, rows, target, at, i, j)
    requires !NextStep(c, rows, target, at).op.Change?
    ensures var Announce(op, placed) := NextStep(c, rows, target, at);
            && (Spares(op, at, placed, i) <==> at + placed <= j)
            && (!Spares(op, at, placed, i) ==> op.Move? && i - op.first == j - at)
  {
    hide NextStep, Same, Apply, FindFrom, Distinct;
    var Announce(op, placed) := NextStep(c, rows, target, at);
    match op
    case Remove(_, last) =>
      WhenRemoving(c, rows, target, at);
      forall k | at <= k < last + 1 ensures !Same(c, target[j], rows[k]) {
        assert FindFrom(target, at, c, rows[k]) == |target|;
      }
      SameSymmetric(c, rows[i], target[j]);
    case Insert(_, _) =>
      WhenInserting(c, rows, target, at);
      forall k | at <= k < at + placed ensures !Same(c, rows[i], target[k]) {
        assert FindFrom(rows, at, c, target[k]) == |rows|;
      }
    case Move(first, _, _) =>
      WhenMoving(c, rows, target, at);
      BlockTakesBoth(c, rows, target, at, first, placed, i, j);
  }

  // ------------------------------------------------------ rows out of order

  lemma MatchBounds<V>(c: Comparison<V>, rows: seq<V>, target: seq<V>, at: nat)
    ensures forall i, j :: Match(c, rows, target, at, i, j) ==> at <= i < |rows| && at <= j < |target|
  {}

  /** Some row before i is wanted behind j. */
  ghost predicate Overtaken<V>(c: Comparison<V>, rows: seq<V>, target: seq<V>, at: nat, i: int, j: int) {
    exists p, q :: p < i && j < q && Match(c, rows, target, at, p, q)
  }

  /** Old and new values of one key are equal where the key is wanted before one that preceded it. */
  ghost predicate Orderly<V>(c: Comparison<V>, rows: seq<V>, target: seq<V>, at: nat) {
    forall i, j :: Match(c, rows, target, at, i, j) && Overtaken(c, rows, target, at, i, j) ==> rows[i] == target[j]
  }

  /** A match among the later rows was one before. */
  lemma MatchBefore<V>(c: Comparison<V>, rows: seq<V>, target: seq<V>, at: nat, i: int, j: int)
    requires at <= |rows| && at <= |target| && NextStep(c, rows, target, at).Announce?
    requires var Announce(op, placed) := NextStep(c, rows, target, at);
             Match(c, Apply(rows, op), target, at + placed, i, j)
    ensures var Announce(op, placed) := NextStep(c, rows, target, at);
            && i >= at && Origin(op, i) >= at && Match(c, rows, target, at, Origin(op, i), j)
            && Apply(rows, op)[i] == rows[Origin(op, i)] && Spares(op, at, placed, Origin(op, i))
  {
    hide NextStep, Same, Apply;
    var Announce(op, placed) := NextStep(c, rows, target, at);
    StepPlaces(c, rows, target, at);
    OriginOf(rows, op, at, placed, i);
  }

  lemma StaysOrderly<V>(c: Comparison<V>, rows: seq<V>, target: seq<V>, at: nat)
    requires at <= |rows| && at <= |target| && NextStep(c, rows, target, at).Announce? && Orderly(c, rows, target, at)
    ensures var Announce(op, placed) := NextStep(c, rows, target, at); Orderly(c, Apply(rows, op), target, at + placed)
  {
    hide NextStep, Same, Apply, Match;
    var Announce(op, placed) := NextStep(c, rows, target, at);
    var rows', at' := Apply(rows, op), at + placed;
    StepPlaces(c, rows, target, at);
    assert forall i, j :: Match(c, rows', target, at', i, j) ==> at' <= i < |rows'| && at' <= j < |target| by {
      MatchBounds(c, rows', target, at');
    }
    forall i, j | Match(c, rows', target, at', i, j) && Overtaken(c, rows', target, at', i, j)
      ensures rows'[i] == target[j]
    {
      var p, q :| p < i && j < q && Match(c, rows', target, at', p, q);
      MatchBefore(c, rows, target, at, i, j);
      MatchBefore(c, rows, target, at, p, q);
      assert Origin(op, p) < Origin(op, i);
    }
  }

  /** A moved block is overtaken by the row it is moved in front of. */
  lemma MovedAreOvertaken<V>(c: Comparison<V>, rows: seq<V>, target: seq<V>, at: nat, j: nat)
    requires at <= |rows| && at <= |target| && Distinct(c, rows, at)
    requires NextStep(c, rows, target, at).Announce? && NextStep(c, rows, target, at).op.Move?
    requires var Announce(op, placed) := NextStep(c, rows, target, at); at <= j < at + placed
    ensures var op := NextStep(c, rows, target, at).op;
            && Match(c, rows, target, at, j + (op.first - at), j)
            && Overtaken(c, rows, target, at, j + (op.first - at), j)
  {
    hide FindFrom, UnwantedEnd, NewEnd, Same, Apply;
    WhenMoving(c, rows, target, at);
    var Announce(op, placed) := NextStep(c, rows, target, at);
    var q := FindFrom(target, at, c, rows[at]);
    SameSymmetric(c, rows[at], target[q]);
    forall k | at <= k < at + placed ensures !Same(c, rows[at], target[k]) {
      assert Same(c, rows[k + (op.first - at)], target[k]);
      if Same(c, rows[at], target[k]) {
        SameTransitive(c, rows[at], target[k], rows[k + (op.first - at)]);
      }
    }
    assert Match(c, rows, target, at, at, q);
  }

  /** Rows with distinct keys whose changed values keep their place in the order give the new list. */
  lemma {:induction false} OrderlyIsFresh<V>(c: Comparison<V>, rows: seq<V>, target: seq<V>, at: nat)
    requires at <= |rows| && at <= |target| && Distinct(c, rows, at) && Orderly(c, rows, target, at)
    ensures Fresh(c, rows, target, at)
    decreases |target| - at, |rows|
  {
    hide NextStep, Apply, Same, Match, Overtaken, Distinct;
    match NextStep(c, rows, target, at)
    case Done =>
    case Keep =>
      LaterRows(c, rows, target, at);
      OrderlyIsFresh(c, rows, target, at + 1);
    case Announce(op, placed) =>
      StaysDistinct(c, rows, target, at);
      StaysOrderly(c, rows, target, at);
      OrderlyIsFresh(c, Apply(rows, op), target, at + placed);
      if op.Move? {
        StepPlaces(c, rows, target, at);
        forall j | at <= j < at + placed ensures rows[j + (op.first - at)] == target[j] {
          MovedAreOvertaken(c, rows, target, at, j);
        }
        assert rows[op.first..op.last + 1] == target[at..at + placed];
      }
  }

  lemma LaterRows<V>(c: Comparison<V>, rows: seq<V>, target: seq<V>, at: nat)
    ensures Orderly(c, rows, target, at) ==> Orderly(c, rows, target, at + 1)
    ensures Distinct(c, rows, at) ==> Distinct(c, rows, at + 1)
  {
    hide Same;
    if Orderly(c, rows, target, at) {
      forall i, j | Match(c, rows, target, at + 1, i, j) && Overtaken(c, rows, target, at + 1, i, j)
        ensures rows[i] == target[j]
      {
        var p, q :| p < i && j < q && Match(c, rows, target, at + 1, p, q);
        assert Match(c, rows, target, at, p, q) && Match(c, rows, target, at, i, j);
      }
    }
  }

  /** A match that an operation spares is found again among the later rows. */
  lemma MatchAfter<V>(c: Comparison<V>, rows: seq<V>, target: seq<V>, at: nat, i: nat, j: nat)
    requires at <= |rows| && at <= |target| && NextStep(c, rows, target, at).Announce?
    requires Match(c, rows, target, at, i, j)
    requires var Announce(op, placed) := NextStep(c, rows, target, at);
             Spares(op, at, placed, i) && at + placed <= j
    ensures var Announce(op, placed) := NextStep(c, rows, target, at);
            && Shift(op, i) >= 0 && Match(c, Apply(rows, op), target, at + placed, Shift(op, i), j)
            && Apply(rows, op)[Shift(op, i)] == rows[i]
  {
    hide NextStep, Same, Apply;
    var Announce(op, placed) := NextStep(c, rows, target, at);
    StepPlaces(c, rows, target, at);
    ShiftOf(rows, op, at, placed, i);
  }

  /** With distinct keys a kept row has no other partner. */
  lemma KeptHasNoOther<V>(c: Comparison<V>, rows: seq<V>, target: seq<V>, at: nat, i: nat, j: nat)
    requires Distinct(c, rows, at) && Distinct(c, target, at) && Match(c, rows, target, at, i, j)
    requires at < |rows| && at < |target| && Same(c, rows[at], target[at])
    ensures i == at <==> j == at
  {
    hide Same;
    SameSymmetric(c, rows[at], target[at]);
    SameSymmetric(c, rows[i], target[j]);
    if i == at {
      SameTransitive(c, target[at], rows[at], target[j]);
      DistinctIsSame(c, target, at, at, j);
    } else if j == at {
      SameTransitive(c, rows[at], target[at], rows[i]);
      DistinctIsSame(c, rows, at, at, i);
    }
  }

  /** The first changed value, in the new order. */
  ghost predicate FirstChanged<V>(c: Comparison<V>, rows: seq<V>, target: seq<V>, at: nat, i: int, j: int) {
    && Match(c, rows, target, at, i, j) && rows[i] != target[j]
    && forall k, l :: Match(c, rows, target, at, k, l) && l < j ==> rows[k] == target[l]
  }

  lemma StaysFirst<V>(c: Comparison<V>, rows: seq<V>, target: seq<V>, at: nat, i: nat, j: nat)
    requires at <= |rows| && at <= |target| && NextStep(c, rows, target, at).Announce?
    requires FirstChanged(c, rows, target, at, i, j)
    requires var Announce(op, placed) := NextStep(c, rows, target, at);
             Spares(op, at, placed, i) && at + placed <= j
    ensures var Announce(op, placed) := NextStep(c, rows, target, at);
            FirstChanged(c, Apply(rows, op), target, at + placed, Shift(op, i), j)
  {
    hide NextStep, Same, Apply, Match;
    var Announce(op, placed) := NextStep(c, rows, target, at);
    var rows', at' := Apply(rows, op), at + placed;
    MatchBounds(c, rows, target, at);
    MatchBounds(c, rows', target, at');
    MatchAfter(c, rows, target, at, i, j);
    forall k, l | Match(c, rows', target, at', k, l) && l < j ensures rows'[k] == target[l] {
      MatchBefore(c, rows, target, at, k, l);
    }
  }

  /** With distinct keys, if the first changed value is wanted before one that preceded it, its row stays stale. */
  lemma {:induction false} OvertakenIsStale<V>(c: Comparison<V>, rows: seq<V>, target: seq<V>, at: nat,
                                               i: nat, j: nat, p: nat, q: nat)
    requires at <= |rows| && at <= |target| && Distinct(c, rows, at) && Distinct(c, target, at)
    requires FirstChanged(c, rows, target, at, i, j)
    requires p < i && j < q && Match(c, rows, target, at, p, q)
    ensures !Fresh(c, rows, target, at)
    decreases |target| - at, |rows|
  {
    hide NextStep, Apply, Same, Distinct, Spares, Shift, Origin, Fresh, Plan;
    Unrolled(c, rows, target, at);
    match NextStep(c, rows, target, at)
    case Done =>
    case Keep =>
      SameReflexive(c, rows[at]);
      KeptHasNoOther(c, rows, target, at, i, j);
      KeptHasNoOther(c, rows, target, at, p, q);
      LaterRows(c, rows, target, at);
      LaterRows(c, target, target, at);
      OvertakenIsStale(c, rows, target, at + 1, i, j, p, q);
    case Announce(op, placed) =>
      if op.Change? {
        ChangedFirst(c, rows, target, at, i, j);
      } else {
        MatchSpared(c, rows, target, at, i, j);
        MatchSpared(c, rows, target, at, p, q);
        if Spares(op, at, placed, i) {
          StaysDistinct(c, rows, target, at);
          DistinctLater(c, target, at, at + placed);
          StaysFirst(c, rows, target, at, i, j);
          MatchAfter(c, rows, target, at, p, q);
          StepPlaces(c, rows, target, at);
          ShiftKeepsOrder(rows, op, at, placed, p, i);
          OvertakenIsStale(c, Apply(rows, op), target, at + placed, Shift(op, i), j, Shift(op, p), q);
        } else {
          StepPlaces(c, rows, target, at);
          BlockDiffers(rows, target, op.first, op.last, at, placed, i, j);
        }
      }
  }

  lemma BlockDiffers<V>(rows: seq<V>, target: seq<V>, first: nat, last: nat, at: nat, placed: nat, i: nat, j: nat)
    requires first <= last < |rows| && placed == last + 1 - first && at <= j < at + placed <= |target|
    requires i - first == j - at && rows[i] != target[j]
    ensures rows[first..last + 1] != target[at..at + placed]
  {
    assert rows[first..last + 1][i - first] == rows[i] && target[at..at + placed][j - at] == target[j];
  }

  lemma DistinctLater<V>(c: Comparison<V>, s: seq<V>, from: nat, later: nat)
    requires Distinct(c, s, from) && from <= later
    ensures Distinct(c, s, later)
  {}

  lemma SameReflexive<V>(c: Comparison<V>, x: V)
    ensures Same(c, x, x)
  {}

  /** The first changed value is what starts a replace run. */
  lemma ChangedFirst<V>(c: Comparison<V>, rows: seq<V>, target: seq<V>, at: nat, i: nat, j: nat)
    requires at <= |rows| && at <= |target| && Distinct(c, rows, at) && Distinct(c, target, at)
    requires FirstChanged(c, rows, target, at, i, j)
    requires NextStep(c, rows, target, at).Announce? && NextStep(c, rows, target, at).op.Change?
    ensures i == at == j
  {
    hide NextStep, Same;
    WhenChanging(c, rows, target, at);
    SameSymmetric(c, rows[at], target[at]);
    KeptHasNoOther(c, rows, target, at, i, j);
    assert Match(c, rows, target, at, at, at);
  }

  /** With distinct keys and one changed value, the result is the new list exactly if that value is not overtaken. */
  lemma OneChangeExactly<V>(c: Comparison<V>, start: seq<V>, target: seq<V>, i: nat, j: nat)
    requires Distinct(c, start, 0) && Distinct(c, target, 0)
    requires Match(c, start, target, 0, i, j) && start[i] != target[j]
    requires forall k, l :: Match(c, start, target, 0, k, l) && l != j ==> start[k] == target[l]
    ensures Result(c, start, target, 0) == target <==> !Overtaken(c, start, target, 0, i, j)
  {
    hide Fresh, Result, Same, Distinct;
    FreshExactly(c, start, target, 0);
    if Overtaken(c, start, target, 0, i, j) {
      var p, q :| p < i && j < q && Match(c, start, target, 0, p, q);
      OvertakenIsStale(c, start, target, 0, i, j, p, q);
    } else {
      forall k, l | Match(c, start, target, 0, k, l) && Overtaken(c, start, target, 0, k, l)
        ensures start[k] == target[l]
      {
        if l == j {
          SameTransitive(c, start[k], target[j], start[i]);
          DistinctIsSame(c, start, 0, k, i);
        }
      }
      OrderlyIsFresh(c, start, target, 0);
    }
  }

  // ------------------------------------------------------------------- economy

  /** With distinct keys a changed value leaves a trace: its row is replaced or stays stale. */
  lemma {:induction false} ChangeLeavesTrace<V>(c: Comparison<V>, rows: seq<V>, target: seq<V>, at: nat, i: nat, j: nat)
    requires at <= |rows| && at <= |target| && Distinct(c, rows, at) && Distinct(c, target, at)
    requires Match(c, rows, target, at, i, j) && rows[i] != target[j]
    ensures !Fresh(c, rows, target, at) || !Changeless(Plan(c, rows, target, at))
    decreases |target| - at, |rows|
  {
    hide NextStep, Apply, Same, Distinct, Spares, Shift, Origin, Fresh, Plan, Changeless;
    Unrolled(c, rows, target, at);
    match NextStep(c, rows, target, at)
    case Done =>
    case Keep =>
      SameReflexive(c, rows[at]);
      KeptHasNoOther(c, rows, target, at, i, j);
      LaterRows(c, rows, target, at);
      LaterRows(c, target, target, at);
      ChangeLeavesTrace(c, rows, target, at + 1, i, j);
    case Announce(op, placed) =>
      ChangelessFirst(op, Plan(c, Apply(rows, op), target, at + placed));
      if !op.Change? {
        MatchSpared(c, rows, target, at, i, j);
        StepPlaces(c, rows, target, at);
        if Spares(op, at, placed, i) {
          StaysDistinct(c, rows, target, at);
          DistinctLater(c, target, at, at + placed);
          MatchAfter(c, rows, target, at, i, j);
          ChangeLeavesTrace(c, Apply(rows, op), target, at + placed, Shift(op, i), j);
        } else {
          BlockDiffers(rows, target, op.first, op.last, at, placed, i, j);
        }
      }
  }

  lemma ChangelessFirst<V>(op: RowOp<V>, rest: seq<RowOp<V>>)
    ensures Changeless([op] + rest) ==> !op.Change? && Changeless(rest)
  {
    if Changeless([op] + rest) {
      assert ([op] + rest)[0] == op;
      assert forall i :: 0 <= i < |rest| ==> rest[i] == ([op] + rest)[i + 1];
    }
  }

  lemma DistinctIsUnique<V>(c: Comparison<V>, s: seq<V>)
    requires Distinct(c, s, 0)
    ensures Unique(s)
  {}

  /** With distinct keys the update is economical exactly if no value changes. */
  lemma EconomyExactly<V>(c: Comparison<V>, start: seq<V>, target: seq<V>)
    requires Distinct(c, start, 0) && Distinct(c, target, 0)
    ensures Economical(start, target, Plan(c, start, target, 0)) <==> Sharp(c, start, target)
  {
    hide Plan, Result, Same, Distinct, Unique, Removed, Inserted, Elements, Changeless, Fresh;
    DistinctIsUnique(c, start);
    DistinctIsUnique(c, target);
    PlanIsRight(c, start, target);
    FreshExactly(c, start, target, 0);
    if i, j :| 0 <= i < |start| && 0 <= j < |target| && Same(c, start[i], target[j]) && start[i] != target[j] {
      ChangeLeavesTrace(c, start, target, 0, i, j);
    }
  }

  // ------------------------------------------------------------------ examples

  type Pair = (nat, nat)

  /** Pairs are compared by their first part. */
  const BY_FIRST: Comparison<Pair> := ByKey((p: Pair) => (p.0, 0))

  /** A row that is moved keeps its old value. */
  lemma StaleRow()
    ensures var start, target := [(1, 1), (2, 1)], [(2, 2), (1, 1)];
            && Plan(BY_FIRST, start, target, 0) == [Move(1, 1, 0)]
            && Result(BY_FIRST, start, target, 0) == [(2, 1), (1, 1)]
            && !Fresh(BY_FIRST, start, target, 0)
  {
    var start: seq<Pair>, target: seq<Pair> := [(1, 1), (2, 1)], [(2, 2), (1, 1)];
    var rows: seq<Pair> := [(2, 1), (1, 1)];
    MovesBack(start, target);
    assert Apply(start, Move(1, 1, 0)) == rows;
    assert start[1..2] == [(2, 1)] && target[0..1] == [(2, 2)];
    assert NextStep(BY_FIRST, rows, target, 1) == Keep && NextStep(BY_FIRST, rows, target, 2) == Done;
    assert Plan(BY_FIRST, rows, target, 1) == [] && Result(BY_FIRST, rows, target, 1) == rows;
    var op: RowOp<Pair> := Move(1, 1, 0);
    assert [op] + [] == [op];
  }

  lemma MovesBack(start: seq<Pair>, target: seq<Pair>)
    requires start == [(1, 1), (2, 1)] && target == [(2, 2), (1, 1)]
    ensures NextStep(BY_FIRST, start, target, 0) == Announce(Move(1, 1, 0), 1)
  {
    assert FindFrom(start, 0, BY_FIRST, target[0]) == 1 && FindFrom(target, 0, BY_FIRST, start[0]) == 1;
    assert CommonLength(BY_FIRST, start, 2, target, 1) == 0;
    assert CommonLength(BY_FIRST, start, 1, target, 0) == 1;
  }

  /** A replace run overwrites a row that the new list still wants, which is then inserted as new. */
  lemma RowMadeAgain()
    ensures var start, target := [(1, 1), (2, 1)], [(1, 2), (3, 1), (2, 1)];
            && Plan(BY_FIRST, start, target, 0) == [Change(0, [(1, 2), (3, 1)]), Insert(2, [(2, 1)])]
            && Inserted(Plan(BY_FIRST, start, target, 0)) == [(2, 1)] == start[1..] == target[2..]
  {
    var start: seq<Pair>, target: seq<Pair> := [(1, 1), (2, 1)], [(1, 2), (3, 1), (2, 1)];
    var change, insert := Change(0, [(1, 2), (3, 1)]), Insert(2, [(2, 1)]);
    assert DifferingLength(start, target, 2) == 0;
    assert DifferingLength(start, target, 1) == 1;
    assert NextStep(BY_FIRST, start, target, 0) == Announce(Change(0, target[0..2]), 2);
    assert target[0..2] == [(1, 2), (3, 1)];
    var rows := Apply(start, change);
    assert rows == [(1, 2), (3, 1)];
    assert target[2..] == [(2, 1)];
    assert NextStep(BY_FIRST, rows, target, 2) == Announce(insert, 1);
    assert Apply(rows, insert) == target;
    assert Plan(BY_FIRST, rows, target, 2) == [insert];
    assert [change] + [insert] == [change, insert];
    assert [change, insert][..1] == [change] && [change][..0] == [];
    assert Inserted([change]) == [];
  }
}
