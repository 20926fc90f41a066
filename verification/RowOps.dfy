/**
  Row operations a list model announces to its views, and the mirror a view
  keeps by replaying them.
 */
module RowOps {

  datatype RowOp<V> =
    | Insert(first: nat, values: seq<V>)
    | Remove(first: nat, last: nat)
    | Move(first: nat, last: nat, dest: nat)
    | Change(first: nat, values: seq<V>)

  /** Ranges are in bounds and not empty, and a block never moves into itself. */
  predicate InBounds<V>(rows: seq<V>, op: RowOp<V>) {
    match op
    case Insert(first, values) => first <= |rows| && values != []
    case Remove(first, last) => first <= last < |rows|
    case Move(first, last, dest) => first <= last < |rows| && dest <= |rows| && (dest < first || last + 1 < dest)
    case Change(first, values) => first + |values| <= |rows| && values != []
  }

  /** The destination of a move counts rows before the block is taken out. */
  function Apply<V>(rows: seq<V>, op: RowOp<V>): seq<V>
    requires InBounds(rows, op)
  {
    match op
    case Insert(first, values) => rows[..first] + values + rows[first..]
    case Remove(first, last) => rows[..first] + rows[last + 1..]
    case Move(first, last, dest) =>
      if dest < first then rows[..dest] + rows[first..last + 1] + rows[dest..first] + rows[last + 1..]
      else rows[..first] + rows[last + 1..dest] + rows[first..last + 1] + rows[dest..]
    case Change(first, values) => rows[..first] + values + rows[first + |values|..]
  }

  /** The mirror after replaying a list of operations, if every one of them was in bounds. */
  datatype Mirror<V> = Broken | Rows(rows: seq<V>)

  function Replay<V>(start: seq<V>, ops: seq<RowOp<V>>): Mirror<V> {
    if ops == [] then Rows(start)
    else
      var before := Replay(start, ops[..|ops| - 1]);
      var op := ops[|ops| - 1];
      if before.Broken? || !InBounds(before.rows, op) then Broken else Rows(Apply(before.rows, op))
  }

  lemma ReplayStep<V>(start: seq<V>, ops: seq<RowOp<V>>, op: RowOp<V>)
    ensures var before := Replay(start, ops);
            Replay(start, ops + [op])
            == if before.Broken? || !InBounds(before.rows, op) then Broken else Rows(Apply(before.rows, op))
  {
    assert (ops + [op])[..|ops|] == ops;
  }

  // ------------------------------------------------------------------ traffic

  /** The values taken out over a replay, in order. */
  function Removed<V>(start: seq<V>, ops: seq<RowOp<V>>): seq<V>
    requires Replay(start, ops).Rows?
  {
    if ops == [] then []
    else
      var rest := ops[..|ops| - 1];
      var rows := Replay(start, rest).rows;
      Removed(start, rest) + match ops[|ops| - 1]
        case Remove(first, last) => rows[first..last + 1]
        case _ => []
  }

  /** The values put in over a replay, in order. */
  function Inserted<V>(ops: seq<RowOp<V>>): seq<V> {
    if ops == [] then []
    else Inserted(ops[..|ops| - 1]) + match ops[|ops| - 1]
      case Insert(_, values) => values
      case _ => []
  }

  predicate Changeless<V>(ops: seq<RowOp<V>>) {
    forall i :: 0 <= i < |ops| ==> !ops[i].Change?
  }

  lemma TrafficStep<V>(start: seq<V>, ops: seq<RowOp<V>>, op: RowOp<V>)
    requires Replay(start, ops).Rows? && InBounds(Replay(start, ops).rows, op)
    ensures Replay(start, ops + [op]).Rows?
    ensures Removed(start, ops + [op])
         == if op.Remove? then Removed(start, ops) + Replay(start, ops).rows[op.first..op.last + 1]
            else Removed(start, ops)
    ensures Inserted(ops + [op]) == if op.Insert? then Inserted(ops) + op.values else Inserted(ops)
    ensures Changeless(ops + [op]) <==> Changeless(ops) && !op.Change?
  {
    ReplayStep(start, ops, op);
    assert (ops + [op])[..|ops|] == ops;
    assert forall i :: 0 <= i < |ops| ==> (ops + [op])[i] == ops[i];
    assert (ops + [op])[|ops|] == op;
  }

  // --------------------------------------------------------------- uniqueness

  ghost predicate Unique<V>(s: seq<V>) {
    forall i, j :: 0 <= i < j < |s| ==> s[i] != s[j]
  }

  ghost function Elements<V>(s: seq<V>): set<V> {
    set x | x in s
  }

  lemma ElementsConcat<V>(a: seq<V>, b: seq<V>)
    ensures Elements(a + b) == Elements(a) + Elements(b)
  {}

  /** A list is duplicate-free when its parts are and share nothing. */
  lemma UniqueConcat<V>(a: seq<V>, b: seq<V>)
    ensures Unique(a + b) <==> Unique(a) && Unique(b) && Elements(a) !! Elements(b)
  {
    var s := a + b;
    if Unique(s) {
      assert forall i, j :: 0 <= i < j < |a| ==> a[i] == s[i] && a[j] == s[j];
      assert forall i, j :: 0 <= i < j < |b| ==> b[i] == s[|a| + i] && b[j] == s[|a| + j];
      forall x | x in Elements(a) ensures x !in Elements(b) {
        var i :| 0 <= i < |a| && a[i] == x;
        assert forall j :: 0 <= j < |b| ==> s[i] != s[|a| + j] == b[j];
      }
    }
    if Unique(a) && Unique(b) && Elements(a) !! Elements(b) {
      forall i, j | 0 <= i < j < |s| ensures s[i] != s[j] {
        if i < |a| <= j {
          assert s[i] in Elements(a) && s[j] in Elements(b);
        }
      }
    }
  }

  /** Exchanging two neighbouring blocks keeps the values and their uniqueness. */
  lemma Exchange<V>(a: seq<V>, b: seq<V>, c: seq<V>, d: seq<V>)
    ensures Elements(a + b + c + d) == Elements(a + c + b + d)
    ensures Unique(a + b + c + d) ==> Unique(a + c + b + d)
  {
    ElementsConcat(a + b + c, d);
    ElementsConcat(a + b, c);
    ElementsConcat(a, b);
    ElementsConcat(a + c + b, d);
    ElementsConcat(a + c, b);
    ElementsConcat(a, c);
    UniqueConcat(a + b + c, d);
    UniqueConcat(a + b, c);
    UniqueConcat(a, b);
    UniqueConcat(a + c + b, d);
    UniqueConcat(a + c, b);
    UniqueConcat(a, c);
  }
}
