/**
  The path between two items of a parent forest: up from the first item to the
  lowest common ancestor, and up from the second to just below it.
 */
module TransformWatcher {
  import opened Basics

  /** Parent links; the rank shows that following them ends. */
  datatype Forest<!T> = Forest(parent: map<T, T>, rank: T -> nat) {
    ghost predicate Acyclic() {
      forall x :: x in parent ==> rank(parent[x]) < rank(x)
    }

    /** An item and its ancestors, nearest first. */
    function Chain(x: T): (c: seq<T>)
      requires Acyclic()
      ensures c != [] && c[0] == x
      decreases rank(x)
    {
      [x] + if x in parent then Chain(parent[x]) else []
    }
  }

  // ------------------------------------------------------------ chains in general

  lemma {:induction false} ChainTail<T>(f: Forest<T>, x: T, i: nat)
    requires f.Acyclic() && i < |f.Chain(x)|
    ensures f.Chain(x)[i..] == f.Chain(f.Chain(x)[i])
    decreases i
  {
    if i > 0 {
      ChainTail(f, f.parent[x], i - 1);
      assert f.Chain(x)[i..] == f.Chain(f.parent[x])[i - 1..];
    }
  }

  /** The step from one element of a chain to the next follows the parent link. */
  lemma ChainNext<T>(f: Forest<T>, x: T, i: nat)
    requires f.Acyclic() && i < |f.Chain(x)|
    ensures i + 1 < |f.Chain(x)| <==> f.Chain(x)[i] in f.parent
    ensures i + 1 < |f.Chain(x)| ==> f.Chain(x)[i + 1] == f.parent[f.Chain(x)[i]]
  {
    ChainTail(f, x, i);
    var y := f.Chain(x)[i];
    assert |f.Chain(y)| == |f.Chain(x)| - i;
    if y in f.parent {
      assert f.Chain(y)[1] == f.Chain(f.parent[y])[0];
      assert f.Chain(x)[i..][1] == f.Chain(x)[i + 1];
    }
  }

  lemma {:induction false} ChainRanks<T>(f: Forest<T>, x: T, i: nat, j: nat)
    requires f.Acyclic() && i < j < |f.Chain(x)|
    ensures f.rank(f.Chain(x)[j]) < f.rank(f.Chain(x)[i])
    decreases j
  {
    ChainNext(f, x, j - 1);
    if i < j - 1 {
      ChainRanks(f, x, i, j - 1);
    }
  }

  /** Where two chains meet they go on together. */
  lemma ChainsMerge<T>(f: Forest<T>, a: T, b: T, i: nat, j: nat)
    requires f.Acyclic() && i < |f.Chain(a)| && j < |f.Chain(b)| && f.Chain(a)[i] == f.Chain(b)[j]
    ensures f.Chain(a)[i..] == f.Chain(b)[j..]
  {
    ChainTail(f, a, i);
    ChainTail(f, b, j);
  }

  /** First position whose element is wanted, the length if there is none. */
  function First<T(==)>(s: seq<T>, wanted: seq<T>): (i: nat)
    ensures i <= |s|
    ensures i < |s| ==> s[i] in wanted
    ensures forall j :: 0 <= j < i ==> s[j] !in wanted
  {
    if s == [] || s[0] in wanted then 0 else 1 + First(s[1..], wanted)
  }

  lemma FirstIs<T>(s: seq<T>, wanted: seq<T>, i: nat)
    requires i <= |s| && (i < |s| ==> s[i] in wanted)
    requires forall j :: 0 <= j < i ==> s[j] !in wanted
    ensures First(s, wanted) == i
  {
    hide First;
  }

  // -------------------------------------------------------------- the two chains

  datatype Path<T> = Path(up: seq<T>, down: seq<T>)

  function Stops<T(==)>(commonParent: Option<T>): seq<T> {
    if commonParent.Some? then [commonParent.value] else []
  }

  /** What is walked of the second chain: up to the first item or a stop, inclusive. */
  function Seen<T(==)>(as_: seq<T>, bs: seq<T>, stops: seq<T>): seq<T>
    requires as_ != []
  {
    var k := First(bs, [as_[0]] + stops);
    if k < |bs| then bs[..k + 1] else bs
  }

  /** The first chain is walked until it meets what was seen, or a stop; a stop alone gives no path. */
  function Meet<T(==)>(as_: seq<T>, seen: seq<T>, stops: seq<T>): Option<Path<T>> {
    var m := First(as_, seen + stops);
    if m == |as_| then Some(Path(as_, seen))
    else if as_[m] in seen then Some(Path(as_[..m + 1], seen[..First(seen, [as_[m]])]))
    else None
  }

  /** What a call computes: no path when the given common parent is met on the way up from a only. */
  function Resolve<T(==)>(f: Forest<T>, a: T, b: T, commonParent: Option<T>): Option<Path<T>>
    requires f.Acyclic()
  {
    var stops := Stops(commonParent);
    Meet(f.Chain(a), Seen(f.Chain(a), f.Chain(b), stops), stops)
  }

  /** A common ancestor (or self) that every other one is above. */
  ghost predicate LowestCommon<T>(f: Forest<T>, a: T, b: T, c: T)
    requires f.Acyclic()
  {
    && c in f.Chain(a) && c in f.Chain(b)
    && forall y :: y in f.Chain(a) && y in f.Chain(b) ==> y in f.Chain(c)
  }

  ghost predicate Related<T>(f: Forest<T>, a: T, b: T)
    requires f.Acyclic()
  {
    exists y :: y in f.Chain(a) && y in f.Chain(b)
  }

  /** The path over the lowest common ancestor, or the two whole chains if there is none. */
  ghost predicate IsPath<T>(f: Forest<T>, a: T, b: T, p: Path<T>)
    requires f.Acyclic()
  {
    && p.up != [] && p.up <= f.Chain(a) && p.down <= f.Chain(b)
    && (forall x :: x in p.up ==> x !in p.down)
    && (if Related(f, a, b) then EndsAtLowest(f, a, b, p) else p.up == f.Chain(a) && p.down == f.Chain(b))
  }

  ghost predicate EndsAtLowest<T>(f: Forest<T>, a: T, b: T, p: Path<T>)
    requires f.Acyclic() && p.up != []
  {
    var c := p.up[|p.up| - 1];
    LowestCommon(f, a, b, c) && p.down + f.Chain(c) == f.Chain(b)
  }

  lemma LowestAt<T>(f: Forest<T>, a: T, b: T, m: nat)
    requires f.Acyclic() && m < |f.Chain(a)| && f.Chain(a)[m] in f.Chain(b)
    requires forall i :: 0 <= i < m ==> f.Chain(a)[i] !in f.Chain(b)
    ensures LowestCommon(f, a, b, f.Chain(a)[m])
  {
    var as_, c := f.Chain(a), f.Chain(a)[m];
    ChainTail(f, a, m);
    forall y | y in as_ && y in f.Chain(b) ensures y in f.Chain(c) {
      var i :| 0 <= i < |as_| && as_[i] == y;
      assert f.Chain(c)[i - m] == y;
    }
  }

  lemma NothingShared<T>(f: Forest<T>, a: T, b: T, m: nat, n: nat)
    requires f.Acyclic() && m < |f.Chain(a)| && n < |f.Chain(b)| && f.Chain(a)[m] == f.Chain(b)[n]
    requires forall i :: 0 <= i < m ==> f.Chain(a)[i] !in f.Chain(b)
    ensures forall x :: x in f.Chain(a)[..m + 1] ==> x !in f.Chain(b)[..n]
  {
    var as_, bs := f.Chain(a), f.Chain(b);
    forall x | x in as_[..m + 1] ensures x !in bs[..n] {
      var i :| 0 <= i < m + 1 && as_[i] == x;
      if x in bs[..n] {
        var j :| 0 <= j < n && bs[j] == x;
        ChainRanks(f, b, j, n);
      }
    }
  }

  lemma FirstMeeting<T>(f: Forest<T>, a: T, b: T, m: nat, n: nat)
    requires f.Acyclic() && m < |f.Chain(a)| && n < |f.Chain(b)| && f.Chain(a)[m] == f.Chain(b)[n]
    requires forall i :: 0 <= i < m ==> f.Chain(a)[i] !in f.Chain(b)
    ensures IsPath(f, a, b, Path(f.Chain(a)[..m + 1], f.Chain(b)[..n]))
  {
    hide LowestCommon, Forest.Chain;
    var as_, bs := f.Chain(a), f.Chain(b);
    var p := Path(as_[..m + 1], bs[..n]);
    LowestAt(f, a, b, m);
    NothingShared(f, a, b, m, n);
    ChainTail(f, b, n);
    assert Related(f, a, b) by { assert as_[m] in as_ && as_[m] in bs; }
    assert EndsAtLowest(f, a, b, p) by { assert bs[..n] + bs[n..] == bs; }
  }

  lemma MeetsAtFirst<T>(f: Forest<T>, a: T, b: T, k: nat)
    requires f.Acyclic() && k < |f.Chain(b)| && k == First(f.Chain(b), [a])
    ensures Resolve(f, a, b, None) == Some(Path(f.Chain(a)[..1], f.Chain(b)[..k]))
  {
    hide First, Forest.Chain, Forest.Acyclic;
    var as_, bs := f.Chain(a), f.Chain(b);
    FirstIs(bs, [a] + [], k);
    FirstIs(as_, bs[..k + 1] + [], 0);
    FirstIs(bs[..k + 1], [a], k);
    assert bs[..k + 1][..k] == bs[..k];
  }

  lemma MeetsFurtherUp<T>(f: Forest<T>, a: T, b: T)
    requires f.Acyclic() && a !in f.Chain(b)
    ensures var m := First(f.Chain(a), f.Chain(b));
            Resolve(f, a, b, None)
            == Some(if m == |f.Chain(a)| then Path(f.Chain(a), f.Chain(b))
                    else Path(f.Chain(a)[..m + 1], f.Chain(b)[..First(f.Chain(b), [f.Chain(a)[m]])]))
  {
    hide First;
    FirstIs(f.Chain(b), [a] + [], |f.Chain(b)|);
    assert f.Chain(b) + [] == f.Chain(b);
  }

  /** Without a hint the call always finds the common-ancestor path. */
  lemma ResolvesToPath<T>(f: Forest<T>, a: T, b: T)
    requires f.Acyclic()
    ensures Resolve(f, a, b, None).Some? && IsPath(f, a, b, Resolve(f, a, b, None).value)
  {
    hide First, IsPath, Resolve;
    var as_, bs := f.Chain(a), f.Chain(b);
    var k, m := First(bs, [a]), First(as_, bs);
    if k < |bs| {
      MeetsAtFirst(f, a, b, k);
      FirstMeeting(f, a, b, 0, k);
    } else {
      MeetsFurtherUp(f, a, b);
      if m < |as_| {
        FirstMeeting(f, a, b, m, First(bs, [as_[m]]));
      } else {
        NoMeeting(f, a, b);
      }
    }
  }

  lemma NoMeeting<T>(f: Forest<T>, a: T, b: T)
    requires f.Acyclic() && forall i :: 0 <= i < |f.Chain(a)| ==> f.Chain(a)[i] !in f.Chain(b)
    ensures IsPath(f, a, b, Path(f.Chain(a), f.Chain(b)))
  {}

  lemma SameLowest<T>(f: Forest<T>, c: T, d: T)
    requires f.Acyclic() && c in f.Chain(d) && d in f.Chain(c)
    ensures c == d
  {
    var i :| 0 <= i < |f.Chain(d)| && f.Chain(d)[i] == c;
    var j :| 0 <= j < |f.Chain(c)| && f.Chain(c)[j] == d;
    if i > 0 {
      ChainRanks(f, d, 0, i);
      if j > 0 {
        ChainRanks(f, c, 0, j);
      }
    }
  }

  lemma SameLastSameLength<T>(f: Forest<T>, a: T, p: seq<T>, q: seq<T>)
    requires f.Acyclic() && [] != p <= f.Chain(a) && [] != q <= f.Chain(a)
    requires p[|p| - 1] == q[|q| - 1]
    ensures p == q
  {
    if |p| < |q| {
      ChainRanks(f, a, |p| - 1, |q| - 1);
    } else if |q| < |p| {
      ChainRanks(f, a, |q| - 1, |p| - 1);
    }
  }

  /** There is only one such path. */
  lemma PathIsUnique<T>(f: Forest<T>, a: T, b: T, p: Path<T>, q: Path<T>)
    requires f.Acyclic() && IsPath(f, a, b, p) && IsPath(f, a, b, q)
    ensures p == q
  {
    hide First, Forest.Acyclic, Forest.Chain;
    if Related(f, a, b) {
      hide Related;
      var c := p.up[|p.up| - 1];
      SameLowest(f, c, q.up[|q.up| - 1]);
      SameLastSameLength(f, a, p.up, q.up);
      assert p.down == f.Chain(b)[..|f.Chain(b)| - |f.Chain(c)|] == q.down;
    }
  }

  // ---------------------------------------------------------------- with a hint

  /** The topmost item above x, or x itself. */
  function Root<T>(f: Forest<T>, x: T): T
    requires f.Acyclic()
  {
    f.Chain(x)[|f.Chain(x)| - 1]
  }

  /** The hint is above both items or above neither; or it is a root above b, or just below a's root. */
  predicate Harmless<T(==)>(f: Forest<T>, a: T, b: T, hint: T)
    requires f.Acyclic()
  {
    || (hint in f.Chain(a) <==> hint in f.Chain(b))
    || (hint in f.Chain(b) && (hint in f.parent ==> f.parent[hint] == Root(f, a)))
  }

  /** Nothing lies above the path's upper part and the hint ends its lower part. */
  ghost predicate TopsPath<T>(f: Forest<T>, a: T, b: T, hint: T)
    requires f.Acyclic()
  {
    var p := Resolve(f, a, b, None);
    p.Some? && p.value.up == f.Chain(a) && p.value.down != [] && p.value.down[|p.value.down| - 1] == hint
  }

  /** For a hint above b only that is the case exactly when there is nothing above it but a's root. */
  lemma TopsPathExactly<T>(f: Forest<T>, a: T, b: T, hint: T)
    requires f.Acyclic() && hint !in f.Chain(a) && hint in f.Chain(b)
    ensures TopsPath(f, a, b, hint) <==> (hint in f.parent ==> f.parent[hint] == Root(f, a))
  {
    hide Resolve, Forest.Chain;
    ResolvesToPath(f, a, b);
    if Related(f, a, b) {
      TopsRelated(f, a, b, hint, Resolve(f, a, b, None).value);
    } else {
      var as_, bs := f.Chain(a), f.Chain(b);
      var h :| 0 <= h < |bs| && bs[h] == hint;
      ChainNext(f, b, h);
      ChainNext(f, b, |bs| - 1);
      assert hint in f.parent ==> f.parent[hint] in bs;
      assert Root(f, a) in as_;
    }
  }

  /** Between related items the lower part ends at the hint exactly if a's root is the hint's parent. */
  lemma TopsRelated<T>(f: Forest<T>, a: T, b: T, hint: T, p: Path<T>)
    requires f.Acyclic() && hint !in f.Chain(a) && hint in f.Chain(b)
    requires IsPath(f, a, b, p) && Related(f, a, b)
    ensures p.up == f.Chain(a) && p.down != [] && p.down[|p.down| - 1] == hint
       <==> (hint in f.parent ==> f.parent[hint] == Root(f, a))
  {
    hide Forest.Chain, Forest.Acyclic, First, Related, LowestCommon;
    var as_, bs, c, n := f.Chain(a), f.Chain(b), p.up[|p.up| - 1], |p.down|;
    ChainTail(f, a, |p.up| - 1);
    assert as_[|p.up| - 1] == c && bs[n..] == f.Chain(c) == as_[|p.up| - 1..];
    var h :| 0 <= h < |bs| && bs[h] == hint;
    assert forall i :: n <= i < |bs| ==> bs[i] == bs[n..][i - n] == as_[|p.up| - 1..][i - n];
    ChainNext(f, b, h);
    ChainNext(f, b, n - 1);
    assert bs[n..][0] == c == bs[n] && bs[h + 1] == f.parent[hint];
    if f.parent[hint] == Root(f, a) {
      assert as_[|p.up| - 1..][|as_| - |p.up|] == Root(f, a);
      assert bs[n..][|as_| - |p.up|] == bs[n + |as_| - |p.up|] == Root(f, a);
      SamePlace(f, b, h + 1, n + |as_| - |p.up|);
    }
  }

  /** A chain holds nothing twice. */
  lemma SamePlace<T>(f: Forest<T>, x: T, i: nat, j: nat)
    requires f.Acyclic() && i < |f.Chain(x)| && j < |f.Chain(x)| && f.Chain(x)[i] == f.Chain(x)[j]
    ensures i == j
  {
    if i < j {
      ChainRanks(f, x, i, j);
    } else if j < i {
      ChainRanks(f, x, j, i);
    }
  }

  lemma HintAboveNeither<T>(as_: seq<T>, bs: seq<T>, hint: T)
    requires as_ != [] && hint !in as_ && hint !in bs
    ensures Seen(as_, bs, [hint]) == Seen(as_, bs, [])
    ensures Meet(as_, Seen(as_, bs, [hint]), [hint]) == Meet(as_, Seen(as_, bs, []), [])
  {
    hide First;
    FirstIs(bs, [as_[0]] + [hint], First(bs, [as_[0]] + []));
    var seen := Seen(as_, bs, []);
    FirstIs(as_, seen + [hint], First(as_, seen + []));
  }

  /** The first item is seen on the other chain, below or at the hint. */
  lemma HintBeyondFirst<T>(as_: seq<T>, bs: seq<T>, hint: T, k: nat)
    requires as_ != [] && k < |bs| && bs[k] == as_[0] && hint !in bs[..k]
    requires forall j :: 0 <= j < k ==> bs[j] != as_[0]
    ensures Meet(as_, Seen(as_, bs, [hint]), [hint]) == Meet(as_, Seen(as_, bs, []), [])
  {
    hide First;
    FirstIs(bs, [as_[0]] + [], k);
    FirstIs(bs, [as_[0]] + [hint], k);
    FirstIs(as_, bs[..k + 1] + [], 0);
    FirstIs(as_, bs[..k + 1] + [hint], 0);
  }

  /** The chains meet at m and n, below or at the point where b's was broken off. */
  lemma MeetsWithin<T>(as_: seq<T>, bs: seq<T>, stops: seq<T>, m: nat, n: nat, h: nat)
    requires m < |as_| && n <= h < |bs| && as_[m] == bs[n]
    requires forall i :: 0 <= i < m ==> as_[i] !in bs && as_[i] !in stops
    requires forall j :: 0 <= j < n ==> bs[j] != as_[m]
    ensures Meet(as_, bs[..h + 1], stops) == Some(Path(as_[..m + 1], bs[..n]))
  {
    hide First;
    var seen := bs[..h + 1];
    assert seen[n] == as_[m];
    FirstIs(as_, seen + stops, m);
    FirstIs(seen, [as_[m]], n);
    assert seen[..n] == bs[..n];
  }

  lemma HintBeyondMeeting<T>(as_: seq<T>, bs: seq<T>, hint: T, m: nat, n: nat, h: nat)
    requires m < |as_| && n <= h < |bs| && as_[m] == bs[n] && bs[h] == hint && as_[0] !in bs
    requires forall i :: 0 <= i < m ==> as_[i] !in bs
    requires forall j :: 0 <= j < h ==> bs[j] != hint
    requires forall j :: 0 <= j < n ==> bs[j] != as_[m]
    ensures Meet(as_, Seen(as_, bs, [hint]), [hint]) == Meet(as_, Seen(as_, bs, []), [])
  {
    hide First, Meet;
    FirstIs(bs, [as_[0]] + [], |bs|);
    FirstIs(bs, [as_[0]] + [hint], h);
    MeetsWithin(as_, bs, [], m, n, |bs| - 1);
    MeetsWithin(as_, bs, [hint], m, n, h);
    assert bs[..|bs| - 1 + 1] == bs;
  }

  /** A common ancestor met below the meeting point would have ended the other chain earlier. */
  lemma HintNotBelow<T>(f: Forest<T>, c: T, b: T, hint: T, h: nat, n: nat)
    requires f.Acyclic() && h < n < |f.Chain(b)| && f.Chain(b)[h] == hint && f.Chain(b)[n] == c
    ensures hint !in f.Chain(c)
  {
    if i :| 0 <= i < |f.Chain(c)| && f.Chain(c)[i] == hint {
      ChainRanks(f, b, h, n);
      if i > 0 {
        ChainRanks(f, c, 0, i);
      }
    }
  }

  lemma HintAboveBoth<T>(f: Forest<T>, a: T, b: T, hint: T)
    requires f.Acyclic() && hint in f.Chain(a) && hint in f.Chain(b)
    ensures Resolve(f, a, b, Some(hint)) == Resolve(f, a, b, None)
  {
    hide First, Meet, Seen;
    var as_, bs := f.Chain(a), f.Chain(b);
    var k, h := First(bs, [a]), First(bs, [hint]);
    if k < |bs| {
      if h < k {
        HintNotBelow(f, a, b, hint, h, k);
      } else {
        HintBeyondFirst(as_, bs, hint, k);
      }
    } else {
      var m := First(as_, bs);
      var n := First(bs, [as_[m]]);
      if h < n {
        ChainTail(f, a, m);
        HintNotBelow(f, as_[m], b, hint, h, n);
        HintAtOrPast(as_, bs, hint, m);
      } else {
        HintBeyondMeeting(as_, bs, hint, m, n, h);
      }
    }
  }

  lemma HintAtOrPast<T>(as_: seq<T>, bs: seq<T>, hint: T, m: nat)
    requires m <= |as_| && hint in as_ && hint in bs && forall i :: 0 <= i < m ==> as_[i] !in bs
    ensures hint in as_[m..]
  {
    var i :| 0 <= i < |as_| && as_[i] == hint;
    assert as_[m..][i - m] == hint;
  }

  /** Everything on a chain past an element of another chain is on that chain too. */
  lemma SharedAbove<T>(f: Forest<T>, a: T, b: T, i: nat, h: nat)
    requires f.Acyclic() && i <= h < |f.Chain(a)| && f.Chain(a)[i] in f.Chain(b)
    ensures f.Chain(a)[h] in f.Chain(b)
  {
    var j :| 0 <= j < |f.Chain(b)| && f.Chain(b)[j] == f.Chain(a)[i];
    ChainsMerge(f, a, b, i, j);
    assert f.Chain(a)[i..][h - i] == f.Chain(b)[j..][h - i] == f.Chain(b)[j + h - i];
  }

  lemma HintAboveFirst<T>(f: Forest<T>, a: T, b: T, hint: T)
    requires f.Acyclic() && hint in f.Chain(a) && hint !in f.Chain(b)
    ensures Resolve(f, a, b, Some(hint)) == None
  {
    hide First;
    var as_, bs := f.Chain(a), f.Chain(b);
    var h := First(as_, [hint]);
    forall i | 0 <= i <= h ensures as_[i] !in bs {
      if as_[i] in bs {
        SharedAbove(f, a, b, i, h);
      }
    }
    FirstIs(bs, [a] + [hint], |bs|);
    FirstIs(as_, bs + [hint], h);
  }

  lemma HintAboveSecond<T>(f: Forest<T>, a: T, b: T, hint: T)
    requires f.Acyclic() && hint !in f.Chain(a) && hint in f.Chain(b)
    ensures Resolve(f, a, b, Some(hint)) == Some(Path(f.Chain(a), f.Chain(b)[..First(f.Chain(b), [hint]) + 1]))
  {
    hide First;
    var as_, bs := f.Chain(a), f.Chain(b);
    var h := First(bs, [hint]);
    forall j | 0 <= j <= h ensures bs[j] !in as_ {
      if bs[j] in as_ {
        SharedAbove(f, b, a, j, h);
      }
    }
    FirstIs(bs, [a] + [hint], h);
    forall i | 0 <= i < |as_| ensures as_[i] !in bs[..h + 1] + [hint] {
      assert as_[i] in as_;
    }
    FirstIs(as_, bs[..h + 1] + [hint], |as_|);
  }

  lemma HintAboveSecondOnly<T>(f: Forest<T>, a: T, b: T, hint: T)
    requires f.Acyclic() && hint !in f.Chain(a) && hint in f.Chain(b)
    ensures Resolve(f, a, b, Some(hint)) == Resolve(f, a, b, None) <==> Harmless(f, a, b, hint)
  {
    hide First, Resolve, Forest.Chain;
    TopsPathExactly(f, a, b, hint);
    ResolvesToPath(f, a, b);
    HintAboveSecond(f, a, b, hint);
    HintEndsPath(f, b, hint, Resolve(f, a, b, None).value.down);
  }

  /** A hint changes nothing exactly when it is harmless, which any true common ancestor is. */
  lemma HintIsHarmless<T>(f: Forest<T>, a: T, b: T, hint: T)
    requires f.Acyclic()
    ensures Resolve(f, a, b, Some(hint)) == Resolve(f, a, b, None) <==> Harmless(f, a, b, hint)
  {
    hide First, Resolve, TopsPath, IsPath;
    var as_, bs := f.Chain(a), f.Chain(b);
    if hint in as_ && hint in bs {
      HintAboveBoth(f, a, b, hint);
    } else if hint in as_ {
      ResolvesToPath(f, a, b);
      HintAboveFirst(f, a, b, hint);
    } else if hint in bs {
      HintAboveSecondOnly(f, a, b, hint);
    } else {
      HintAboveNeither(as_, bs, hint);
      SameResolution(f, a, b, hint);
    }
  }

  /** Items 1 and 4 below 0, the second over 3 and 2. */
  const FORK: Forest<nat> := Forest(map[1 := 0, 2 := 0, 3 := 2, 4 := 3], x => x)

  lemma ForkChains()
    ensures FORK.Acyclic() && FORK.Chain(1) == [1, 0] && FORK.Chain(4) == [4, 3, 2, 0]
  {
    assert FORK.Chain(0) == [0];
    assert FORK.Chain(2) == [2] + FORK.Chain(0);
    assert FORK.Chain(3) == [3] + FORK.Chain(2);
  }

  /** A hint above the second item only cuts its chain, unless the root is next; above the first only, it is refused. */
  lemma HintAboveOneItem()
    ensures FORK.Acyclic()
    ensures Resolve(FORK, 1, 4, Some(3)) == Some(Path([1, 0], [4, 3]))
    ensures Resolve(FORK, 1, 4, None) == Some(Path([1, 0], [4, 3, 2]))
    ensures Resolve(FORK, 1, 4, Some(2)) == Resolve(FORK, 1, 4, None)
    ensures Resolve(FORK, 4, 1, Some(3)) == None
  {
    hide First, Resolve, Forest.Chain, Meet;
    ForkChains();
    HintAboveSecond(FORK, 1, 4, 3);
    FirstIs(FORK.Chain(4), [3], 1);
    HintIsHarmless(FORK, 1, 4, 2);
    HintAboveFirst(FORK, 4, 1, 3);
    MeetsFurtherUp(FORK, 1, 4);
    FirstIs(FORK.Chain(1), FORK.Chain(4), 1);
    FirstIs(FORK.Chain(4), [0], 3);
    var up, down := [1, 0], [4, 3, 2, 0];
    assert up[..2] == up && down[..2] == [4, 3] && down[..3] == [4, 3, 2];
  }

  lemma SameResolution<T>(f: Forest<T>, a: T, b: T, hint: T)
    requires f.Acyclic()
    requires var as_, bs := f.Chain(a), f.Chain(b);
             Meet(as_, Seen(as_, bs, [hint]), [hint]) == Meet(as_, Seen(as_, bs, []), [])
    ensures Resolve(f, a, b, Some(hint)) == Resolve(f, a, b, None)
  {}

  lemma HintEndsPath<T>(f: Forest<T>, b: T, hint: T, down: seq<T>)
    requires f.Acyclic() && down <= f.Chain(b) && hint in f.Chain(b)
    ensures down == f.Chain(b)[..First(f.Chain(b), [hint]) + 1] <==> down != [] && down[|down| - 1] == hint
  {
    hide First;
    var bs, h := f.Chain(b), First(f.Chain(b), [hint]);
    if down != [] && down[|down| - 1] == hint && h < |down| - 1 {
      ChainRanks(f, b, h, |down| - 1);
    }
  }

  // ------------------------------------------------------------------ the object

  /** Whether a walk goes on past position k. */
  lemma WalkStep<T>(s: seq<T>, seen: seq<T>, stops: seq<T>, k: nat)
    requires k < |s| && k <= First(s, seen + stops)
    ensures s[k] in seen || s[k] in stops <==> First(s, seen + stops) == k
    ensures s[..k] + [s[k]] == s[..k + 1]
  {
    hide First;
    if s[k] in seen || s[k] in stops {
      assert s[k] in seen + stops;
    }
  }

  class TransformWatcher<T(==)> {
    var parentChain: seq<T>
    var childChain: seq<T>

    constructor ()
      ensures parentChain == [] && childChain == []
    {
      parentChain, childChain := [], [];
    }

    /** The parent chain of b, broken off at a or at the given common parent. */
    method WalkSecond(f: Forest<T>, a: T, b: T, commonParent: Option<T>) returns (bChain: seq<T>, found: bool)
      requires f.Acyclic()
      ensures bChain == Seen(f.Chain(a), f.Chain(b), Stops(commonParent)) && bChain != []
      ensures found <==> bChain[|bChain| - 1] == a
      ensures a !in bChain[..|bChain| - 1]
    {
      hide First, Forest.Acyclic, Forest.Chain, Seen;
      ghost var as_, bs, stops := f.Chain(a), f.Chain(b), Stops(commonParent);
      bChain, found := [], false;
      var bParent := Some(b);
      while bParent.Some?
        invariant bChain <= bs && !found
        invariant bParent == if |bChain| < |bs| then Some(bs[|bChain|]) else None
        invariant |bChain| <= First(bs, [a] + stops)
        decreases |bs| - |bChain|
      {
        ChainNext(f, b, |bChain|);
        WalkStep(bs, [a], stops, |bChain|);
        bChain := bChain + [bParent.value];
        SeenIs(as_, bs, stops);
        if bParent.value == a {
          found := true;
          return;
        }
        if bParent == commonParent {
          return;
        }
        bParent := if bParent.value in f.parent then Some(f.parent[bParent.value]) else None;
      }
      SeenIs(as_, bs, stops);
    }

    lemma SeenIs(as_: seq<T>, bs: seq<T>, stops: seq<T>)
      requires as_ != []
      ensures var k := First(bs, [as_[0]] + stops);
              Seen(as_, bs, stops) == if k < |bs| then bs[..k + 1] else bs
    {}

    /** The parent chain of a until it meets what was seen of b's, which is then cut just above the meeting point. */
    method WalkFirst(f: Forest<T>, a: T, seen: seq<T>, commonParent: Option<T>)
      returns (aChain: seq<T>, bChain: seq<T>, refused: bool)
      requires f.Acyclic() && seen != []
      ensures refused <==> Meet(f.Chain(a), seen, Stops(commonParent)).None?
      ensures aChain != [] && bChain != []
      ensures !refused ==> Meet(f.Chain(a), seen, Stops(commonParent)).value == Path(aChain, Trimmed(aChain, bChain))
    {
      hide First, Forest.Acyclic, Forest.Chain;
      ghost var as_, stops := f.Chain(a), Stops(commonParent);
      aChain, bChain, refused := [], seen, false;
      var aParent := Some(a);
      while aParent.Some?
        invariant aChain <= as_ && bChain == seen && !refused
        invariant aParent == if |aChain| < |as_| then Some(as_[|aChain|]) else None
        invariant |aChain| <= First(as_, seen + stops)
        decreases |as_| - |aChain|
      {
        ChainNext(f, a, |aChain|);
        WalkStep(as_, seen, stops, |aChain|);
        aChain := aChain + [aParent.value];
        var i := First(bChain, [aParent.value]);
        if i < |bChain| {
          bChain := bChain[..i + 1];
          assert bChain[..i] == seen[..i];
          return;
        }
        if aParent == commonParent {
          refused := true;
          return;
        }
        aParent := if aParent.value in f.parent then Some(f.parent[aParent.value]) else None;
      }
      assert as_[|as_| - 1] !in seen + stops;
    }

    /** The shared end of the two chains belongs to the first only. */
    function Trimmed(aChain: seq<T>, bChain: seq<T>): seq<T>
      requires aChain != [] && bChain != []
    {
      if bChain[|bChain| - 1] == aChain[|aChain| - 1] then bChain[..|bChain| - 1] else bChain
    }

    lemma MeetsImmediately(f: Forest<T>, a: T, seen: seq<T>, stops: seq<T>)
      requires f.Acyclic() && seen != [] && seen[|seen| - 1] == a && a !in seen[..|seen| - 1]
      ensures Meet(f.Chain(a), seen, stops) == Some(Path([a], seen[..|seen| - 1]))
    {
      hide First;
      FirstIs(f.Chain(a), seen + stops, 0);
      FirstIs(seen, [a], |seen| - 1);
      assert f.Chain(a)[..1] == [a];
    }

    /** Null items leave the chains alone, and so does a hint that turns out wrong on the way up from a. */
    method ResolveChains(f: Forest<T>, a: Option<T>, b: Option<T>, commonParent: Option<T>)
      requires f.Acyclic()
      modifies this
      ensures a.Some? && b.Some? && Resolve(f, a.value, b.value, commonParent).Some? ==>
                Path(parentChain, childChain) == Resolve(f, a.value, b.value, commonParent).value
      ensures a.None? || b.None? || Resolve(f, a.value, b.value, commonParent).None? ==>
                parentChain == old(parentChain) && childChain == old(childChain)
    {
      hide First, Meet, Seen;
      if a.None? || b.None? {
        return;
      }
      var aChain, refused := [a.value], false;
      var bChain, found := WalkSecond(f, a.value, b.value, commonParent);
      if found {
        MeetsImmediately(f, a.value, bChain, Stops(commonParent));
      } else {
        aChain, bChain, refused := WalkFirst(f, a.value, bChain, commonParent);
      }
      if refused {
        return;
      }
      parentChain := aChain;
      childChain := Trimmed(aChain, bChain);
    }
  }
}
