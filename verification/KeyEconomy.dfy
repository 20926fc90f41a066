/**
  What a keyed update owes its views: a key that both lists hold is neither inserted nor
  removed, and no row is overwritten with a value of another key that is in use.
 */
module KeyEconomy {
  import opened RowOps
  import opened ListDiff
  import opened KeyedDiff

  /** No value of the list has this key. */
  ghost predicate Absent<V>(c: Comparison<V>, x: V, s: seq<V>) {
    forall k :: 0 <= k < |s| ==> !Same(c, x, s[k])
  }

  /** A row keeps its key, unless the key that goes and the key that comes are in one list only. */
  ghost predicate Replaceable<V>(c: Comparison<V>, start: seq<V>, target: seq<V>, gone: V, come: V) {
    Same(c, gone, come) || (Absent(c, gone, target) && Absent(c, come, start))
  }

  ghost predicate KeyFits<V>(c: Comparison<V>, start: seq<V>, target: seq<V>, rows: seq<V>, op: RowOp<V>)
    requires InBounds(rows, op)
  {
    match op
    case Insert(_, values) => forall k :: 0 <= k < |values| ==> Absent(c, values[k], start)
    case Remove(first, last) => forall k :: first <= k <= last ==> Absent(c, rows[k], target)
    case Move(_, _, _) => true
    case Change(first, values) =>
      forall k :: 0 <= k < |values| ==> Replaceable(c, start, target, rows[first + k], values[k])
  }

  /** Every operation of a replay fits. */
  ghost predicate KeyEconomical<V>(c: Comparison<V>, start: seq<V>, target: seq<V>, rows: seq<V>, ops: seq<RowOp<V>>)
    decreases |ops|
  {
    ops == [] ||
    (&& InBounds(rows, ops[0]) && KeyFits(c, start, target, rows, ops[0])
     && KeyEconomical(c, start, target, Apply(rows, ops[0]), ops[1..]))
  }

  // -------------------------------------------------------------- replace runs

  /** The old rows and the new values of a replace run have no partners but each other, row by row. */
  ghost predicate ReplacedInPlace<V>(c: Comparison<V>, rows: seq<V>, target: seq<V>, at: nat, n: nat) {
    forall i, j :: Match(c, rows, target, at, i, j) && (i < at + n || j < at + n) ==> i == j
  }

  /** Every replace run is in place. */
  ghost predicate InPlace<V>(c: Comparison<V>, rows: seq<V>, target: seq<V>, at: nat)
    requires at <= |rows| && at <= |target|
    decreases |target| - at, |rows|
  {
    match NextStep(c, rows, target, at)
    case Done => true
    case Keep => InPlace(c, rows, target, at + 1)
    case Announce(op, placed) =>
      && (op.Change? ==> ReplacedInPlace(c, rows, target, at, placed))
      && InPlace(c, Apply(rows, op), target, at + placed)
  }

  // ----------------------------------------------------------------- the ledger

  /** Some later row has the key of new value j. */
  ghost predicate Waits<V>(c: Comparison<V>, rows: seq<V>, target: seq<V>, at: nat, j: int) {
    exists i :: Match(c, rows, target, at, i, j)
  }

  /**
    Of the keys both lists hold, those still to come wait among the later rows, and no
    later row has the key of a value that is in place.
   */
  ghost predicate Ledger<V>(c: Comparison<V>, start: seq<V>, target: seq<V>, rows: seq<V>, at: nat) {
    && at <= |rows| && at <= |target| && Distinct(c, rows, at) && Distinct(c, target, 0)
    && (forall i :: at <= i < |rows| ==> rows[i] in start)
    && (forall s, j :: 0 <= s < |start| && at <= j < |target| && Same(c, start[s], target[j]) ==>
          Waits(c, rows, target, at, j))
    && (forall i, j :: at <= i < |rows| && 0 <= j < at && j < |target| ==> !Same(c, rows[i], target[j]))
  }

  lemma LedgerBegins<V>(c: Comparison<V>, start: seq<V>, target: seq<V>)
    requires Distinct(c, start, 0) && Distinct(c, target, 0)
    ensures Ledger(c, start, target, start, 0)
  {
    hide Same;
    forall s, j | 0 <= s < |start| && 0 <= j < |target| && Same(c, start[s], target[j])
      ensures Waits(c, start, target, 0, j)
    {
      assert Match(c, start, target, 0, s, j);
    }
  }

  lemma LedgerKeep<V>(c: Comparison<V>, start: seq<V>, target: seq<V>, rows: seq<V>, at: nat)
    requires Ledger(c, start, target, rows, at)
    requires at < |rows| && at < |target| && Same(c, rows[at], target[at])
    ensures Ledger(c, start, target, rows, at + 1)
  {
    hide Same, Distinct;
    LaterRows(c, rows, target, at);
    DistinctLater(c, target, 0, at);
    forall s, j | 0 <= s < |start| && at + 1 <= j < |target| && Same(c, start[s], target[j])
      ensures Waits(c, rows, target, at + 1, j)
    {
      assert Waits(c, rows, target, at, j);
      var i :| Match(c, rows, target, at, i, j);
      KeptHasNoOther(c, rows, target, at, i, j);
      assert Match(c, rows, target, at + 1, i, j);
    }
    forall i, j | at + 1 <= i < |rows| && 0 <= j < at + 1 ensures !Same(c, rows[i], target[j]) {
      if j == at && Same(c, rows[i], target[at]) {
        KeptHasNoOther(c, rows, target, at, i, at);
      }
    }
  }

  /** An operation takes both partners of a match or spares both; a replace run does exactly if it is in place. */
  lemma TakenTogether<V>(c: Comparison<V>, rows: seq<V>, target: seq<V>, at: nat, i: nat, j: nat)
    requires at <= |rows| && at <= |target| && NextStep(c, rows, target, at).Announce?
    requires Distinct(c, rows, at) && Distinct(c, target, at) && Match(c, rows, target, at, i, j)
    requires var Announce(op, placed) := NextStep(c, rows, target, at);
             op.Change? ==> ReplacedInPlace(c, rows, target, at, placed)
    ensures var Announce(op, placed) := NextStep(c, rows, target, at);
            Spares(op, at, placed, i) <==> at + placed <= j
  {
    hide NextStep, Same, Distinct, Match;
    if !NextStep(c, rows, target, at).op.Change? {
      MatchSpared(c, rows, target, at, i, j);
    }
  }

  lemma LedgerStep<V>(c: Comparison<V>, start: seq<V>, target: seq<V>, rows: seq<V>, at: nat)
    requires Ledger(c, start, target, rows, at) && NextStep(c, rows, target, at).Announce?
    requires var Announce(op, placed) := NextStep(c, rows, target, at);
             op.Change? ==> ReplacedInPlace(c, rows, target, at, placed)
    ensures var Announce(op, placed) := NextStep(c, rows, target, at);
            Ledger(c, start, target, Apply(rows, op), at + placed)
  {
    hide NextStep, Same, Distinct, Apply, ReplacedInPlace, Spares, Origin, Shift;
    var Announce(op, placed) := NextStep(c, rows, target, at);
    var rows', at' := Apply(rows, op), at + placed;
    StepPlaces(c, rows, target, at);
    StaysDistinct(c, rows, target, at);
    DistinctLater(c, target, 0, at);
    forall i | at' <= i < |rows'| ensures rows'[i] in start {
      OriginOf(rows, op, at, placed, i);
    }
    forall s, j | 0 <= s < |start| && at' <= j < |target| && Same(c, start[s], target[j])
      ensures Waits(c, rows', target, at', j)
    {
      assert Waits(c, rows, target, at, j);
      var i :| Match(c, rows, target, at, i, j);
      TakenTogether(c, rows, target, at, i, j);
      MatchAfter(c, rows, target, at, i, j);
    }
    forall i, j | at' <= i < |rows'| && 0 <= j < at' ensures !Same(c, rows'[i], target[j]) {
      OriginOf(rows, op, at, placed, i);
      if at <= j && Same(c, rows'[i], target[j]) {
        TakenTogether(c, rows, target, at, Origin(op, i), j);
      }
    }
  }

  // ------------------------------------------------------------ what fits, exactly

  lemma InsertFits<V>(c: Comparison<V>, start: seq<V>, target: seq<V>, rows: seq<V>, at: nat)
    requires Ledger(c, start, target, rows, at)
    requires NextStep(c, rows, target, at).Announce? && NextStep(c, rows, target, at).op.Insert?
    ensures KeyFits(c, start, target, rows, NextStep(c, rows, target, at).op)
  {
    hide NextStep, Same, FindFrom, Distinct;
    WhenInserting(c, rows, target, at);
    var Announce(Insert(_, values), placed) := NextStep(c, rows, target, at);
    forall k, s | 0 <= k < |values| && 0 <= s < |start| ensures !Same(c, values[k], start[s]) {
      assert FindFrom(rows, at, c, target[at + k]) == |rows|;
      assert !Waits(c, rows, target, at, at + k);
      SameSymmetric(c, values[k], start[s]);
    }
  }

  lemma RemoveFits<V>(c: Comparison<V>, start: seq<V>, target: seq<V>, rows: seq<V>, at: nat, last: nat)
    requires Ledger(c, start, target, rows, at) && at <= last < |rows|
    requires forall k :: at <= k < last + 1 ==> FindFrom(target, at, c, rows[k]) == |target|
    ensures KeyFits(c, start, target, rows, Remove(at, last))
  {
    hide Same, FindFrom, Distinct;
    forall k, j | at <= k <= last && 0 <= j < |target| ensures !Same(c, rows[k], target[j]) {
      assert FindFrom(target, at, c, rows[k]) == |target|;
      SameSymmetric(c, rows[k], target[j]);
    }
  }

  lemma ChangeFitsInPlace<V>(c: Comparison<V>, start: seq<V>, target: seq<V>, rows: seq<V>, at: nat, n: nat)
    requires Ledger(c, start, target, rows, at) && 0 < n && at + n <= |rows| && at + n <= |target|
    requires ReplacedInPlace(c, rows, target, at, n)
    ensures KeyFits(c, start, target, rows, Change(at, target[at..at + n]))
  {
    hide Same, Distinct;
    forall k | at <= k < at + n ensures Replaceable(c, start, target, rows[k], target[k]) {
      if !Same(c, rows[k], target[k]) {
        forall j | 0 <= j < |target| ensures !Same(c, rows[k], target[j]) {
          assert at <= j && Same(c, rows[k], target[j]) ==> Match(c, rows, target, at, k, j);
        }
        assert !Waits(c, rows, target, at, k);
        forall s | 0 <= s < |start| ensures !Same(c, target[k], start[s]) {
          SameSymmetric(c, target[k], start[s]);
        }
      }
    }
  }

  lemma ChangeInPlaceFits<V>(c: Comparison<V>, start: seq<V>, target: seq<V>, rows: seq<V>, at: nat, n: nat)
    requires Ledger(c, start, target, rows, at) && 0 < n && at + n <= |rows| && at + n <= |target|
    requires KeyFits(c, start, target, rows, Change(at, target[at..at + n]))
    ensures ReplacedInPlace(c, rows, target, at, n)
  {
    hide Same, Distinct;
    DistinctLater(c, target, 0, at);
    var values := target[at..at + n];
    forall i, j | Match(c, rows, target, at, i, j) && (i < at + n || j < at + n) ensures i == j {
      if i < at + n {
        assert Replaceable(c, start, target, rows[at + (i - at)], values[i - at]);
        if Same(c, rows[i], target[i]) {
          SameSymmetric(c, rows[i], target[i]);
          SameTransitive(c, target[i], rows[i], target[j]);
          DistinctIsSame(c, target, at, i, j);
        }
      } else {
        assert Replaceable(c, start, target, rows[at + (j - at)], values[j - at]);
        if Same(c, rows[j], target[j]) {
          SameTransitive(c, rows[i], target[j], rows[j]);
          DistinctIsSame(c, rows, at, i, j);
        } else {
          var s :| 0 <= s < |start| && start[s] == rows[i];
          SameSymmetric(c, target[j], start[s]);
        }
      }
    }
  }

  /** Of all operations only a replace run can fail to fit, and it fits exactly if it is in place. */
  lemma FitsExactly<V>(c: Comparison<V>, start: seq<V>, target: seq<V>, rows: seq<V>, at: nat)
    requires at <= |rows| && at <= |target|
    requires Ledger(c, start, target, rows, at) && NextStep(c, rows, target, at).Announce?
    ensures var Announce(op, placed) := NextStep(c, rows, target, at);
            KeyFits(c, start, target, rows, op)
            <==> (op.Change? ==> ReplacedInPlace(c, rows, target, at, placed))
  {
    hide NextStep, Ledger, ReplacedInPlace;
    var Announce(op, placed) := NextStep(c, rows, target, at);
    match op
    case Insert(_, _) => InsertFits(c, start, target, rows, at);
    case Remove(_, last) =>
      WhenRemoving(c, rows, target, at);
      RemoveFits(c, start, target, rows, at, last);
    case Move(_, _, _) =>
    case Change(_, _) =>
      hide KeyFits;
      WhenChanging(c, rows, target, at);
      if ReplacedInPlace(c, rows, target, at, placed) {
        ChangeFitsInPlace(c, start, target, rows, at, placed);
      }
      if KeyFits(c, start, target, rows, op) {
        ChangeInPlaceFits(c, start, target, rows, at, placed);
      }
  }

  lemma {:induction false} KeyEconomyFrom<V>(c: Comparison<V>, start: seq<V>, target: seq<V>, rows: seq<V>, at: nat)
    requires Ledger(c, start, target, rows, at)
    ensures KeyEconomical(c, start, target, rows, Plan(c, rows, target, at)) <==> InPlace(c, rows, target, at)
    decreases |target| - at, |rows|
  {
    hide NextStep, Apply, KeyFits, ReplacedInPlace, Distinct, Same;
    match NextStep(c, rows, target, at)
    case Done =>
    case Keep =>
      SameReflexive(c, rows[at]);
      LedgerKeep(c, start, target, rows, at);
      KeyEconomyFrom(c, start, target, rows, at + 1);
    case Announce(op, placed) =>
      FitsExactly(c, start, target, rows, at);
      var rest := Plan(c, Apply(rows, op), target, at + placed);
      assert ([op] + rest)[0] == op && ([op] + rest)[1..] == rest;
      if KeyFits(c, start, target, rows, op) {
        LedgerStep(c, start, target, rows, at);
        KeyEconomyFrom(c, start, target, Apply(rows, op), at + placed);
      }
  }

  /** With distinct keys an update is economical for its keys exactly if every replace run is in place. */
  lemma KeyEconomyExactly<V>(c: Comparison<V>, start: seq<V>, target: seq<V>)
    requires Distinct(c, start, 0) && Distinct(c, target, 0)
    ensures KeyEconomical(c, start, target, start, Plan(c, start, target, 0)) <==> InPlace(c, start, target, 0)
  {
    hide Ledger, Distinct;
    LedgerBegins(c, start, target);
    KeyEconomyFrom(c, start, target, start, 0);
  }

  // ------------------------------------------------------------------ traffic

  lemma {:induction false} ReplayFirst<V>(rows: seq<V>, op: RowOp<V>, rest: seq<RowOp<V>>)
    requires InBounds(rows, op)
    ensures Replay(rows, [op] + rest) == Replay(Apply(rows, op), rest)
    decreases |rest|
  {
    hide Apply, InBounds;
    if rest == [] {
      assert [op] + rest == [] + [op];
      ReplayStep(rows, [], op);
      Idle(rows);
      Idle(Apply(rows, op));
    } else {
      var init, last := rest[..|rest| - 1], rest[|rest| - 1];
      ReplayFirst(rows, op, init);
      assert [op] + rest == ([op] + init) + [last] && rest == init + [last];
      hide Replay;
      ReplayStep(rows, [op] + init, last);
      ReplayStep(Apply(rows, op), init, last);
    }
  }

  lemma {:induction false} InsertedFirst<V>(op: RowOp<V>, rest: seq<RowOp<V>>)
    ensures Inserted([op] + rest) == (if op.Insert? then op.values else []) + Inserted(rest)
    decreases |rest|
  {
    if rest == [] {
      assert [op] + rest == [op] && [op][..0] == [];
    } else {
      var init, last := rest[..|rest| - 1], rest[|rest| - 1];
      InsertedFirst(op, init);
      assert ([op] + rest)[..|rest|] == [op] + init && ([op] + rest)[|rest|] == last;
    }
  }

  lemma {:induction false} RemovedFirst<V>(rows: seq<V>, op: RowOp<V>, rest: seq<RowOp<V>>)
    requires InBounds(rows, op) && Replay(Apply(rows, op), rest).Rows?
    ensures Replay(rows, [op] + rest).Rows?
    ensures Removed(rows, [op] + rest)
         == (if op.Remove? then rows[op.first..op.last + 1] else []) + Removed(Apply(rows, op), rest)
    decreases |rest|
  {
    hide Apply, InBounds, Removed, Replay;
    ReplayFirst(rows, op, rest);
    if rest == [] {
      assert [op] + rest == [] + [op];
      Idle(rows);
      Idle(Apply(rows, op));
      TrafficStep(rows, [], op);
    } else {
      var init, last := rest[..|rest| - 1], rest[|rest| - 1];
      assert [op] + rest == ([op] + init) + [last] && rest == init + [last];
      ReplayStep(Apply(rows, op), init, last);
      RemovedFirst(rows, op, init);
      ReplayFirst(rows, op, init);
      TrafficStep(rows, [op] + init, last);
      TrafficStep(Apply(rows, op), init, last);
    }
  }

  lemma Idle<V>(rows: seq<V>)
    ensures Replay(rows, []) == Rows(rows) && Inserted<V>([]) == [] && Removed(rows, []) == []
  {}

  /** Over an economical replay no key of the old list is inserted, and no key of the new one removed. */
  lemma {:induction false} NothingInVain<V>(c: Comparison<V>, start: seq<V>, target: seq<V>,
                                            rows: seq<V>, ops: seq<RowOp<V>>)
    requires KeyEconomical(c, start, target, rows, ops)
    ensures Replay(rows, ops).Rows?
    ensures forall v :: v in Inserted(ops) ==> Absent(c, v, start)
    ensures forall v :: v in Removed(rows, ops) ==> Absent(c, v, target)
    decreases |ops|
  {
    hide Apply, Absent, Replay, Inserted, Removed;
    if ops == [] {
      Idle(rows);
    } else {
      var op, rest := ops[0], ops[1..];
      NothingInVain(c, start, target, Apply(rows, op), rest);
      ReplayFirst(rows, op, rest);
      InsertedFirst(op, rest);
      RemovedFirst(rows, op, rest);
      assert ops == [op] + rest;
      if op.Remove? {
        forall v | v in rows[op.first..op.last + 1] ensures Absent(c, v, target) {
          var k :| op.first <= k <= op.last && rows[k] == v;
        }
      }
    }
  }

  // ------------------------------------------------------- values that change

  /** If the keys stay as they are, row by row, every update is in place and gives the new list. */
  lemma {:induction false} SameKeysInPlace<V>(c: Comparison<V>, rows: seq<V>, target: seq<V>, at: nat)
    requires at <= |rows| == |target| && Distinct(c, rows, at) && Distinct(c, target, at)
    requires forall k :: at <= k < |rows| ==> Same(c, rows[k], target[k])
    ensures InPlace(c, rows, target, at) && Fresh(c, rows, target, at)
    decreases |target| - at, |rows|
  {
    hide NextStep, Apply, Same, Distinct, ReplacedInPlace;
    match NextStep(c, rows, target, at)
    case Done =>
    case Keep =>
      LaterRows(c, rows, target, at);
      DistinctLater(c, target, at, at + 1);
      SameKeysInPlace(c, rows, target, at + 1);
    case Announce(op, placed) =>
      SameKeysStep(c, rows, target, at);
      StaysDistinct(c, rows, target, at);
      DistinctLater(c, target, at, at + placed);
      SameKeysInPlace(c, Apply(rows, op), target, at + placed);
  }

  lemma SameKeysStep<V>(c: Comparison<V>, rows: seq<V>, target: seq<V>, at: nat)
    requires at <= |rows| == |target| && Distinct(c, rows, at) && Distinct(c, target, at)
    requires forall k :: at <= k < |rows| ==> Same(c, rows[k], target[k])
    requires NextStep(c, rows, target, at).Announce?
    ensures var Announce(op, placed) := NextStep(c, rows, target, at);
            && op.Change? && ReplacedInPlace(c, rows, target, at, placed) && |Apply(rows, op)| == |target|
            && forall k :: at + placed <= k < |target| ==> Same(c, Apply(rows, op)[k], target[k])
  {
    hide FindFrom, UnwantedEnd, NewEnd, CommonLength, DifferingLength, Same, Distinct;
    var Announce(op, placed) := NextStep(c, rows, target, at);
    if at < |rows| {
      SameSymmetric(c, rows[at], target[at]);
    }
    forall i, j | Match(c, rows, target, at, i, j) ensures i == j {
      SameSymmetric(c, rows[i], target[i]);
      SameTransitive(c, target[i], rows[i], target[j]);
      DistinctIsSame(c, target, at, i, j);
    }
  }

  lemma {:induction false} ChangelessIsInPlace<V>(c: Comparison<V>, rows: seq<V>, target: seq<V>, at: nat)
    requires at <= |rows| && at <= |target|
    ensures Changeless(Plan(c, rows, target, at)) ==> InPlace(c, rows, target, at)
    decreases |target| - at, |rows|
  {
    hide NextStep, Apply, Changeless, ReplacedInPlace;
    match NextStep(c, rows, target, at)
    case Done =>
    case Keep => ChangelessIsInPlace(c, rows, target, at + 1);
    case Announce(op, placed) =>
      ChangelessFirst(op, Plan(c, Apply(rows, op), target, at + placed));
      ChangelessIsInPlace(c, Apply(rows, op), target, at + placed);
  }

  /** With distinct keys, lists whose values agree where their keys do need no replacing at all. */
  lemma SharpIsInPlace<V>(c: Comparison<V>, start: seq<V>, target: seq<V>)
    requires Distinct(c, start, 0) && Distinct(c, target, 0)
    ensures Sharp(c, start, target) ==> InPlace(c, start, target, 0)
  {
    hide Sharp, Plan, InPlace, Distinct, Changeless, Replay, Unique, Removed, Inserted, Elements;
    EconomyExactly(c, start, target);
    ChangelessIsInPlace(c, start, target, 0);
  }

  // ------------------------------------------------------------------ examples

  lemma FirstsAreDistinct(s: seq<Pair>)
    requires forall i, j :: 0 <= i < j < |s| ==> s[i].0 != s[j].0
    ensures Distinct(BY_FIRST, s, 0)
  {}

  /** A value that changes where it is: nothing is made again, although values of one key differ. */
  lemma ChangedWhereItIs()
    ensures var start, target := [(1, 1), (2, 1)], [(1, 2), (2, 1)];
            && KeyEconomical(BY_FIRST, start, target, start, Plan(BY_FIRST, start, target, 0))
            && Result(BY_FIRST, start, target, 0) == target && !Sharp(BY_FIRST, start, target)
  {
    var start: seq<Pair>, target: seq<Pair> := [(1, 1), (2, 1)], [(1, 2), (2, 1)];
    FirstsAreDistinct(start);
    FirstsAreDistinct(target);
    assert Same(BY_FIRST, start[0], target[0]) && start[0] != target[0];
    hide Plan, InPlace, KeyEconomical, Fresh, Result;
    SameKeysInPlace(BY_FIRST, start, target, 0);
    KeyEconomyExactly(BY_FIRST, start, target);
    FreshExactly(BY_FIRST, start, target, 0);
  }

  /** The row of key 2 is overwritten, and inserted again. */
  lemma RowOverwritten()
    ensures var start, target := [(1, 1), (2, 1)], [(1, 2), (3, 1), (2, 1)];
            !KeyEconomical(BY_FIRST, start, target, start, Plan(BY_FIRST, start, target, 0))
  {
    var start: seq<Pair>, target: seq<Pair> := [(1, 1), (2, 1)], [(1, 2), (3, 1), (2, 1)];
    RowMadeAgain();
    DoesNotFit(start, target, [(1, 2), (3, 1)]);
  }

  /** One replace run that exchanges the rows of keys 2 and 3: nothing is inserted, and still it is not in place. */
  lemma RowsExchanged()
    ensures var start, target := [(1, 1), (2, 1), (3, 1)], [(1, 2), (3, 1), (2, 1)];
            && Plan(BY_FIRST, start, target, 0) == [Change(0, target)]
            && !KeyEconomical(BY_FIRST, start, target, start, Plan(BY_FIRST, start, target, 0))
  {
    var start: seq<Pair>, target: seq<Pair> := [(1, 1), (2, 1), (3, 1)], [(1, 2), (3, 1), (2, 1)];
    assert DifferingLength(start, target, 3) == 0;
    assert DifferingLength(start, target, 2) == 1;
    assert DifferingLength(start, target, 1) == 2;
    assert target[0..3] == target;
    assert NextStep(BY_FIRST, start, target, 0) == Announce(Change(0, target), 3);
    assert Apply(start, Change(0, target)) == target;
    assert Plan(BY_FIRST, target, target, 3) == [];
    assert [Change(0, target)] + [] == [Change(0, target)];
    DoesNotFit(start, target, target);
  }

  lemma DoesNotFit(start: seq<Pair>, target: seq<Pair>, values: seq<Pair>)
    requires 1 < |values| <= |start| && |target| == 3 && start[1].0 == target[2].0 != values[1].0
    ensures !KeyFits(BY_FIRST, start, target, start, Change(0, values))
  {
    assert Same(BY_FIRST, start[1], target[2]) && !Same(BY_FIRST, start[1], values[1]);
    assert !Replaceable(BY_FIRST, start, target, start[0 + 1], values[1]);
  }
}
