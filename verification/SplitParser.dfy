/**
  Splitting a byte stream that arrives in chunks at a marker.  The parser works on
  the kept buffer and the new chunk without joining them, and goes on one position
  past the end of a match.
 */
module SplitParser {
  import opened Basics

  predicate MatchAt(s: Bytes, marker: Bytes, p: int) {
    0 <= p && p + |marker| <= |s| && s[p..p + |marker|] == marker
  }

  /** Least match position from p on, -1 if there is none. */
  function Find(s: Bytes, marker: Bytes, p: nat): (q: int)
    ensures q == -1 || (p <= q && MatchAt(s, marker, q))
    ensures forall j :: p <= j && (q == -1 || j < q) ==> !MatchAt(s, marker, j)
    decreases |s| - p
  {
    if p + |marker| > |s| then -1
    else if MatchAt(s, marker, p) then p
    else Find(s, marker, p + 1)
  }

  lemma FindIs(s: Bytes, marker: Bytes, p: nat, q: nat)
    requires p <= q && MatchAt(s, marker, q)
    requires forall j :: p <= j < q ==> !MatchAt(s, marker, j)
    ensures Find(s, marker, p) == q
  {}

  datatype Parts = Parts(slices: seq<Bytes>, rest: Bytes)

  /** Splits from left to right, first looking from p on and after each match from `skip` on. */
  function Split(s: Bytes, marker: Bytes, p: nat, skip: nat): Parts
    requires marker != []
    decreases |s|
  {
    var q := Find(s, marker, p);
    if q == -1 then Parts([], s)
    else
      var t := Split(s[q + |marker|..], marker, skip, skip);
      Parts([s[..q]] + t.slices, t.rest)
  }

  /** The ordinary split: no position is skipped. */
  function Canonical(s: Bytes, marker: Bytes): Parts
    requires marker != []
  {
    Split(s, marker, 0, 0)
  }

  function Max(a: int, b: int): nat
    requires a >= 0 || b >= 0
  {
    if a >= b then a else b
  }

  /** One chunk: positions where the kept buffer alone was already searched are not searched again. */
  function Parse(buffer: Bytes, incoming: Bytes, marker: Bytes): Parts
    requires marker != []
  {
    Split(buffer + incoming, marker, Max(0, |buffer| - (|marker| - 1)), 1)
  }

  /** All chunks in turn. */
  function Feed(chunks: seq<Bytes>, marker: Bytes): Parts
    requires marker != []
  {
    if chunks == [] then Parts([], [])
    else
      var before := Feed(chunks[..|chunks| - 1], marker);
      var step := Parse(before.rest, chunks[|chunks| - 1], marker);
      Parts(before.slices + step.slices, step.rest)
  }

  function Concat(chunks: seq<Bytes>): Bytes {
    if chunks == [] then [] else Concat(chunks[..|chunks| - 1]) + chunks[|chunks| - 1]
  }

  // ------------------------------------------------------------ nothing is lost

  /** Every slice followed by its marker. */
  function Join(slices: seq<Bytes>, marker: Bytes): Bytes {
    if slices == [] then [] else slices[0] + marker + Join(slices[1..], marker)
  }

  lemma {:induction false} JoinConcat(a: seq<Bytes>, b: seq<Bytes>, marker: Bytes)
    ensures Join(a + b, marker) == Join(a, marker) + Join(b, marker)
  {
    hide Join;
    if a == [] {
      assert a + b == b;
      JoinNothing(marker);
    } else {
      JoinConcat(a[1..], b, marker);
      assert a == [a[0]] + a[1..] && a + b == [a[0]] + (a[1..] + b);
      JoinCons(a[0], a[1..], marker);
      JoinCons(a[0], a[1..] + b, marker);
      Regroup(a[0] + marker, Join(a[1..], marker), Join(b, marker));
    }
  }

  lemma Regroup(a: Bytes, b: Bytes, c: Bytes)
    ensures a + b + c == a + (b + c)
  {}

  lemma {:induction false} SplitLossless(s: Bytes, marker: Bytes, p: nat, skip: nat)
    requires marker != []
    ensures var t := Split(s, marker, p, skip); Join(t.slices, marker) + t.rest == s
    decreases |s|
  {
    hide Find, Join, Split;
    JoinNothing(marker);
    SplitNone(s, marker, p, skip);
    var q := Find(s, marker, p);
    if q != -1 {
      var tail := s[q + |marker|..];
      var t := Split(tail, marker, skip, skip);
      SplitAt(s, marker, p, skip);
      SplitLossless(tail, marker, skip, skip);
      JoinCons(s[..q], t.slices, marker);
      Regroup(s[..q] + marker, Join(t.slices, marker), t.rest);
      AroundMatch(s, marker, q);
    }
  }

  lemma AroundMatch(s: Bytes, marker: Bytes, q: nat)
    requires MatchAt(s, marker, q)
    ensures s == s[..q] + marker + s[q + |marker|..]
  {}

  lemma SplitNone(s: Bytes, marker: Bytes, p: nat, skip: nat)
    requires marker != []
    ensures Find(s, marker, p) == -1 ==> Split(s, marker, p, skip) == Parts([], s)
    ensures [] + s == s
  {}

  lemma SplitAt(s: Bytes, marker: Bytes, p: nat, skip: nat)
    requires marker != [] && Find(s, marker, p) != -1
    ensures var q := Find(s, marker, p);
            var t := Split(s[q + |marker|..], marker, skip, skip);
            Split(s, marker, p, skip) == Parts([s[..q]] + t.slices, t.rest)
  {}

  lemma JoinCons(first: Bytes, slices: seq<Bytes>, marker: Bytes)
    ensures Join([first] + slices, marker) == first + marker + Join(slices, marker)
  {
    assert ([first] + slices)[1..] == slices;
  }

  lemma JoinNothing(marker: Bytes)
    ensures Join([], marker) == []
  {}

  /** No marker starts inside a slice, at any offset but its first byte, before the one that ends it. */
  ghost predicate Clean(slice: Bytes, marker: Bytes) {
    forall j :: 1 <= j < |slice| ==> !MatchAt(slice + marker, marker, j)
  }

  /** What a parser leaves behind has no complete marker except possibly at its very start. */
  ghost predicate Searched(rest: Bytes, marker: Bytes) {
    forall j :: 1 <= j ==> !MatchAt(rest, marker, j)
  }

  lemma MatchInside(s: Bytes, marker: Bytes, q: nat, j: nat)
    requires MatchAt(s, marker, q) && MatchAt(s[..q] + marker, marker, j)
    ensures MatchAt(s, marker, j)
  {
    assert s[..q] + marker == s[..q + |marker|];
    assert s[..q + |marker|][j..j + |marker|] == s[j..j + |marker|];
  }

  lemma {:induction false} SplitClean(s: Bytes, marker: Bytes, p: nat, skip: nat)
    requires marker != [] && skip <= 1 && forall j :: 1 <= j < p ==> !MatchAt(s, marker, j)
    ensures var t := Split(s, marker, p, skip);
            && (forall i :: 0 <= i < |t.slices| ==> Clean(t.slices[i], marker))
            && Searched(t.rest, marker)
    decreases |s|
  {
    var q := Find(s, marker, p);
    if q != -1 {
      SplitClean(s[q + |marker|..], marker, skip, skip);
      forall j | 1 <= j < q ensures !MatchAt(s[..q] + marker, marker, j) {
        if MatchAt(s[..q] + marker, marker, j) {
          MatchInside(s, marker, q, j);
        }
      }
    }
  }

  lemma ParseSearches(buffer: Bytes, incoming: Bytes, marker: Bytes)
    requires marker != [] && Searched(buffer, marker)
    ensures forall j :: 1 <= j < Max(0, |buffer| - (|marker| - 1)) ==> !MatchAt(buffer + incoming, marker, j)
  {
    forall j | 1 <= j < Max(0, |buffer| - (|marker| - 1)) ensures !MatchAt(buffer + incoming, marker, j) {
      assert (buffer + incoming)[j..j + |marker|] == buffer[j..j + |marker|];
      assert !MatchAt(buffer, marker, j);
    }
  }

  /** For every chunking slices, markers and the rest are the stream, and each slice ends at its first marker. */
  lemma {:induction false} FeedLossless(chunks: seq<Bytes>, marker: Bytes)
    requires marker != []
    ensures Faithful(Feed(chunks, marker), Concat(chunks), marker)
  {
    if chunks != [] {
      var before := Feed(chunks[..|chunks| - 1], marker);
      FeedLossless(chunks[..|chunks| - 1], marker);
      ChunkLossless(before, Concat(chunks[..|chunks| - 1]), chunks[|chunks| - 1], marker);
    }
  }

  /** What holds of the stream so far: nothing lost, slices ended at their first marker. */
  ghost predicate Faithful(t: Parts, s: Bytes, marker: Bytes) {
    && Join(t.slices, marker) + t.rest == s
    && (forall i :: 0 <= i < |t.slices| ==> Clean(t.slices[i], marker))
    && Searched(t.rest, marker)
  }

  lemma ChunkLossless(before: Parts, s: Bytes, chunk: Bytes, marker: Bytes)
    requires marker != [] && Faithful(before, s, marker)
    ensures var step := Parse(before.rest, chunk, marker);
            Faithful(Parts(before.slices + step.slices, step.rest), s + chunk, marker)
  {
    hide Join, Split, Clean, Searched, Find, MatchAt;
    var p := Max(0, |before.rest| - (|marker| - 1));
    var step := Parse(before.rest, chunk, marker);
    SplitLossless(before.rest + chunk, marker, p, 1);
    ParseSearches(before.rest, chunk, marker);
    SplitClean(before.rest + chunk, marker, p, 1);
    JoinConcat(before.slices, step.slices, marker);
    var kept := Join(before.slices, marker);
    assert kept + Join(step.slices, marker) + step.rest == kept + (Join(step.slices, marker) + step.rest);
    assert kept + (before.rest + chunk) == kept + before.rest + chunk;
  }

  // ------------------------------------------------------ when chunks do not matter

  /** No marker directly follows another one. */
  ghost predicate Spaced(s: Bytes, marker: Bytes)
    requires marker != []
  {
    forall i :: 1 <= i < |Canonical(s, marker).slices| ==> Canonical(s, marker).slices[i] != []
  }

  /** Slices after the first cannot be empty once a position is skipped. */
  lemma {:induction false} SkippingIsSpaced(s: Bytes, marker: Bytes, p: nat)
    requires marker != []
    ensures forall i :: 1 <= i < |Split(s, marker, p, 1).slices| ==> Split(s, marker, p, 1).slices[i] != []
    ensures 1 <= p && Split(s, marker, p, 1).slices != [] ==> Split(s, marker, p, 1).slices[0] != []
    decreases |s|
  {
    var q := Find(s, marker, p);
    if q != -1 {
      SkippingIsSpaced(s[q + |marker|..], marker, 1);
    }
  }

  /** A marker that was kept at the start of the buffer is passed for good: the next slice is not empty. */
  lemma KeptMarkerIsPassed(buffer: Bytes, incoming: Bytes, marker: Bytes)
    requires marker != [] && MatchAt(buffer, marker, 0)
    ensures Parse(buffer, incoming, marker).slices != [] ==> Parse(buffer, incoming, marker).slices[0] != []
  {
    hide Split, Find;
    SkippingIsSpaced(buffer + incoming, marker, Max(0, |buffer| - (|marker| - 1)));
  }

  /** The stream after the first marker is spaced too, and does not begin with another one. */
  lemma SpacedTail(s: Bytes, marker: Bytes, q: nat)
    requires marker != [] && Spaced(s, marker) && Find(s, marker, 0) == q
    ensures Spaced(s[q + |marker|..], marker)
    ensures !MatchAt(s[q + |marker|..], marker, 0)
  {
    hide Find;
    var tail := s[q + |marker|..];
    var t := Canonical(tail, marker);
    assert forall i :: 0 <= i < |t.slices| ==> t.slices[i] == Canonical(s, marker).slices[i + 1];
    if MatchAt(tail, marker, 0) {
      EmptyFirst(tail, marker);
    }
  }

  lemma EmptyFirst(s: Bytes, marker: Bytes)
    requires marker != [] && MatchAt(s, marker, 0)
    ensures Canonical(s, marker).slices != [] && Canonical(s, marker).slices[0] == []
  {
    FindIs(s, marker, 0, 0);
  }

  lemma {:induction false} SpacedIsSkipping(s: Bytes, marker: Bytes, p: nat)
    requires marker != [] && (forall j :: 0 <= j < p ==> !MatchAt(s, marker, j)) && Spaced(s, marker)
    ensures Split(s, marker, p, 1) == Canonical(s, marker)
    decreases |s|
  {
    hide Find, Spaced, MatchAt;
    var q := Find(s, marker, p);
    if q != -1 {
      FindIs(s, marker, 0, q);
      SpacedTail(s, marker, q);
      Shorter(s, marker, q);
      SpacedIsSkipping(s[q + |marker|..], marker, 1);
    } else {
      assert Find(s, marker, 0) == -1;
    }
  }

  lemma Shorter(s: Bytes, marker: Bytes, q: int)
    requires marker != [] && MatchAt(s, marker, q)
    ensures 0 <= q && q + |marker| <= |s| && |s[q + |marker|..]| < |s|
  {}

  lemma CanonicalRest(s: Bytes, marker: Bytes, p: nat)
    requires marker != []
    ensures forall j :: 0 <= j ==> !MatchAt(Split(s, marker, 0, 0).rest, marker, j)
    decreases |s|
  {
    var q := Find(s, marker, 0);
    if q != -1 {
      CanonicalRest(s[q + |marker|..], marker, 0);
    }
  }

  /** The canonical split of more input continues the one so far. */
  lemma {:induction false} CanonicalExtends(s: Bytes, more: Bytes, marker: Bytes)
    requires marker != []
    ensures var t := Canonical(s, marker);
            var u := Canonical(t.rest + more, marker);
            Canonical(s + more, marker) == Parts(t.slices + u.slices, u.rest)
    decreases |s|
  {
    hide Find;
    var q := Find(s, marker, 0);
    if q == -1 {
      assert [] + Canonical(s + more, marker).slices == Canonical(s + more, marker).slices;
    } else {
      var tail := s[q + |marker|..];
      CanonicalExtends(tail, more, marker);
      FirstMatchStays(s, more, marker, q);
      var t, u := Canonical(tail, marker), Canonical(Canonical(tail, marker).rest + more, marker);
      assert [s[..q]] + (t.slices + u.slices) == ([s[..q]] + t.slices) + u.slices;
    }
  }

  lemma FirstMatchStays(s: Bytes, more: Bytes, marker: Bytes, q: nat)
    requires marker != [] && q == Find(s, marker, 0)
    ensures Find(s + more, marker, 0) == q
    ensures (s + more)[q + |marker|..] == s[q + |marker|..] + more && (s + more)[..q] == s[..q]
  {
    hide Find;
    forall j | 0 <= j <= q ensures MatchAt(s + more, marker, j) <==> MatchAt(s, marker, j) {
      assert (s + more)[j..j + |marker|] == s[j..j + |marker|];
    }
    FindIs(s + more, marker, 0, q);
  }

  /** Spacing of a longer stream is spacing of its beginning and of what is left with the rest. */
  lemma SpacedParts(s: Bytes, more: Bytes, marker: Bytes)
    requires marker != [] && Spaced(s + more, marker)
    ensures Spaced(s, marker) && Spaced(Canonical(s, marker).rest + more, marker)
  {
    hide Canonical;
    CanonicalExtends(s, more, marker);
    var t, all := Canonical(s, marker), Canonical(s + more, marker);
    var u := Canonical(t.rest + more, marker);
    assert forall i :: 0 <= i < |t.slices| ==> t.slices[i] == all.slices[i];
    assert forall i :: 0 <= i < |u.slices| ==> u.slices[i] == all.slices[|t.slices| + i];
  }

  lemma {:induction false} SpacedFeedIsCanonical(chunks: seq<Bytes>, marker: Bytes)
    requires marker != [] && Spaced(Concat(chunks), marker)
    ensures Feed(chunks, marker) == Canonical(Concat(chunks), marker)
  {
    if chunks == [] {
      assert Find([], marker, 0) == -1;
    } else {
      hide Find, Spaced, Split, MatchAt, Max;
      var init, chunk := chunks[..|chunks| - 1], chunks[|chunks| - 1];
      var t := Canonical(Concat(init), marker);
      SpacedParts(Concat(init), chunk, marker);
      SpacedFeedIsCanonical(init, marker);
      CanonicalExtends(Concat(init), chunk, marker);
      CanonicalRest(Concat(init), marker, 0);
      NothingBefore(t.rest, chunk, marker);
      SpacedIsSkipping(t.rest + chunk, marker, Max(0, |t.rest| - (|marker| - 1)));
    }
  }

  lemma NothingBefore(rest: Bytes, chunk: Bytes, marker: Bytes)
    requires marker != [] && forall j :: 0 <= j ==> !MatchAt(rest, marker, j)
    ensures forall j :: 0 <= j < Max(0, |rest| - (|marker| - 1)) ==> !MatchAt(rest + chunk, marker, j)
  {
    forall j | 0 <= j < Max(0, |rest| - (|marker| - 1)) ensures !MatchAt(rest + chunk, marker, j) {
      assert (rest + chunk)[j..j + |marker|] == rest[j..j + |marker|];
      assert !MatchAt(rest, marker, j);
    }
  }

  /** The stream byte by byte. */
  function Singly(s: Bytes): seq<Bytes> {
    if s == [] then [] else Singly(s[..|s| - 1]) + [[s[|s| - 1]]]
  }

  /** One more byte completes at most one marker, at the very end. */
  lemma ByteCompletesOne(rest: Bytes, b: byte, marker: Bytes)
    requires marker != [] && forall j :: 0 <= j ==> !MatchAt(rest, marker, j)
    ensures |Canonical(rest + [b], marker).slices| <= 1
  {
    var s := rest + [b];
    var q := Find(s, marker, 0);
    if q != -1 {
      assert q + |marker| <= |rest| ==> s[q..q + |marker|] == rest[q..q + |marker|];
      assert q + |marker| <= |rest| ==> MatchAt(rest, marker, q);
      assert s[q + |marker|..] == [] && Find([], marker, 0) == -1;
      assert Split(s[q + |marker|..], marker, 0, 0) == Parts([], []);
    }
  }

  lemma ByteIsCanonical(s: Bytes, b: byte, marker: Bytes)
    requires marker != []
    ensures var rest := Canonical(s, marker).rest; Parse(rest, [b], marker) == Canonical(rest + [b], marker)
  {
    hide Find, Split, MatchAt;
    var rest := Canonical(s, marker).rest;
    CanonicalRest(s, marker, 0);
    ByteCompletesOne(rest, b, marker);
    NothingBefore(rest, [b], marker);
    SpacedIsSkipping(rest + [b], marker, Max(0, |rest| - (|marker| - 1)));
  }

  /** Fed byte by byte, every stream is split in the ordinary way. */
  lemma {:induction false} SinglyIsCanonical(s: Bytes, marker: Bytes)
    requires marker != []
    ensures Concat(Singly(s)) == s && Feed(Singly(s), marker) == Canonical(s, marker)
  {
    hide Find, Split, MatchAt, Max, Parse, Canonical, Feed, Concat, Singly;
    if s == [] {
      NothingFed(marker);
    } else {
      var init, b := s[..|s| - 1], s[|s| - 1];
      SinglyIsCanonical(init, marker);
      SinglyStep(init, b, marker);
      assert s == init + [b];
      ByteIsCanonical(init, b, marker);
      CanonicalExtends(init, [b], marker);
    }
  }

  lemma NothingFed(marker: Bytes)
    requires marker != []
    ensures Singly([]) == [] && Concat([]) == [] && Feed([], marker) == Parts([], []) == Canonical([], marker)
  {
    assert Find([], marker, 0) == -1;
  }

  lemma SinglyStep(s: Bytes, b: byte, marker: Bytes)
    requires marker != []
    ensures Concat(Singly(s + [b])) == Concat(Singly(s)) + [b]
    ensures var before := Feed(Singly(s), marker);
            var step := Parse(before.rest, [b], marker);
            Feed(Singly(s + [b]), marker) == Parts(before.slices + step.slices, step.rest)
  {
    hide Split, MatchAt, Max, Parse;
    assert (s + [b])[..|s|] == s;
    assert Singly(s + [b])[..|Singly(s)|] == Singly(s);
  }

  ghost predicate AllChunkingsAgree(s: Bytes, marker: Bytes)
    requires marker != []
  {
    forall a, b :: Concat(a) == s && Concat(b) == s ==> Feed(a, marker) == Feed(b, marker)
  }

  /** All ways of cutting the stream into chunks give the same exactly when no marker directly follows another. */
  lemma ChunkingIsIrrelevant(s: Bytes, marker: Bytes)
    requires marker != []
    ensures AllChunkingsAgree(s, marker) <==> Spaced(s, marker)
  {
    hide Spaced, Feed, Concat, Split, Canonical;
    if Spaced(s, marker) {
      forall chunks | Concat(chunks) == s ensures Feed(chunks, marker) == Canonical(s, marker) {
        SpacedFeedIsCanonical(chunks, marker);
      }
    }
    if AllChunkingsAgree(s, marker) {
      SinglyIsCanonical(s, marker);
      OneChunk(s, marker);
      assert Feed([s], marker) == Feed(Singly(s), marker);
      OneChunkIsSpaced(s, marker);
    }
  }

  /** Two markers in a row: the second is found if it comes in a chunk of its own, and missed otherwise. */
  lemma AdjacentMarkers()
    ensures !Spaced([7, 7], [7])
    ensures Feed([[7], [7]], [7]) == Parts([[], []], []) && Feed([[7, 7]], [7]) == Parts([[]], [7])
  {
    hide Feed, Find, Split, Canonical, Concat;
    TwoMarkers();
    OneChunk([7, 7], [7]);
    SinglyIsCanonical([7, 7], [7]);
    assert Singly([7, 7]) == [[7], [7]];
    assert Canonical([7, 7], [7]).slices[1] == [];
  }

  lemma TwoMarkers()
    ensures Canonical([7, 7], [7]) == Parts([[], []], []) && Split([7, 7], [7], 0, 1) == Parts([[]], [7])
  {
    LoneMarker();
    hide Split;
    assert Find([7, 7], [7], 0) == 0 && [7, 7][1..] == [7] && [7, 7][..0] == [];
    SplitAt([7, 7], [7], 0, 0);
    SplitAt([7, 7], [7], 0, 1);
  }

  lemma LoneMarker()
    ensures Split([7], [7], 0, 0) == Parts([[]], []) && Split([7], [7], 1, 1) == Parts([], [7])
  {
    assert Find([7], [7], 0) == 0 && [7][1..] == [] && Find([], [7], 0) == -1 && Find([7], [7], 1) == -1;
    hide Split, Find;
    SplitAt([7], [7], 0, 0);
    SplitNone([], [7], 0, 0);
    SplitNone([7], [7], 1, 1);
  }

  lemma OneChunkIsSpaced(s: Bytes, marker: Bytes)
    requires marker != [] && Split(s, marker, 0, 1) == Canonical(s, marker)
    ensures Spaced(s, marker)
  {
    SkippingIsSpaced(s, marker, 0);
  }

  lemma OneChunk(s: Bytes, marker: Bytes)
    requires marker != []
    ensures Concat([s]) == s
    ensures Feed([s], marker) == Split(s, marker, 0, 1)
  {
    assert [s][..0] == [] && [] + s == s;
    assert Feed([], marker) == Parts([], []);
    assert [] + Split(s, marker, 0, 1).slices == Split(s, marker, 0, 1).slices;
  }

  // ----------------------------------------------------------------- the parser

  class SplitParser {
    const marker: Bytes
    var buffer: Bytes
    var emitted: seq<Bytes>

    constructor (marker: Bytes)
      requires marker != []
      ensures this.marker == marker && buffer == [] && emitted == []
    {
      this.marker := marker;
      buffer, emitted := [], [];
    }

    /** Compares the marker with the joined input at a position counted from the start of the new chunk. */
    method Matches(incoming: Bytes, readi: int) returns (matches: bool)
      requires -|buffer| <= readi <= |incoming| - |marker|
      ensures matches <==> MatchAt(buffer + incoming, marker, |buffer| + readi)
    {
      var marki := 0;
      ghost var s, p := buffer + incoming, |buffer| + readi;
      while marki < |marker|
        invariant 0 <= marki <= |marker|
        invariant s[p..p + marki] == marker[..marki]
      {
        var byte_ := if readi + marki < 0 then buffer[|buffer| + readi + marki] else incoming[readi + marki];
        assert byte_ == s[p + marki];
        if byte_ != marker[marki] {
          assert s[p..p + |marker|][marki] != marker[marki];
          return false;
        }
        marki := marki + 1;
      }
      assert marker[..marki] == marker;
      return true;
    }

    /** The joined input between two positions counted from the start of the new chunk. */
    function Slice(incoming: Bytes, start: int, readi: int): (slice: Bytes)
      requires -|buffer| <= start <= readi <= |incoming| && (start < 0 ==> start == -|buffer|)
      reads this
      ensures slice == (buffer + incoming)[|buffer| + start..|buffer| + readi]
    {
      (if start < 0 then buffer[0..if readi < 0 then |buffer| + readi else |buffer|] else [])
      + (if readi > 0 then incoming[if start < 0 then 0 else start..readi] else [])
    }

    /** Emits the slices of the chunk and keeps the rest, as the split of the joined input says. */
    method ParseBytes(incoming: Bytes)
      requires marker != []
      modifies this
      ensures emitted == old(emitted) + Parse(old(buffer), incoming, marker).slices
      ensures buffer == Parse(old(buffer), incoming, marker).rest
    {
      hide Find, Split, MatchAt;
      var blen, ilen, mlen := |buffer|, |incoming|, |marker|;
      ghost var s, all := buffer + incoming, Parse(buffer, incoming, marker);
      ghost var done := [];
      var start := -blen;
      var readi := -(if blen < mlen - 1 then blen else mlen - 1);
      assert s[0..] == s;
      while readi <= ilen - mlen
        invariant -blen <= start <= readi && start <= ilen && (start < 0 ==> start == -blen)
        invariant buffer == old(buffer) && emitted == old(emitted) + done
        invariant all.slices == done + Split(s[blen + start..], marker, readi - start, 1).slices
        invariant all.rest == Split(s[blen + start..], marker, readi - start, 1).rest
        invariant -blen <= readi && -(mlen - 1) <= readi
        decreases ilen - readi
      {
        var matches := Matches(incoming, readi);
        SplitStep(s, blen + start, marker, blen + readi);
        if matches {
          var slice := Slice(incoming, start, readi);
          readi := readi + mlen;
          start := readi;
          emitted := emitted + [slice];
          done := done + [slice];
        }
        readi := readi + 1;
      }
      SplitEnds(s[blen + start..], marker, readi - start);
      if start < 0 {
        buffer := buffer + incoming;
      } else {
        buffer := incoming[start..];
      }
      assert buffer == s[blen + start..];
    }

    lemma SplitStep(s: Bytes, from: nat, marker: Bytes, p: nat)
      requires marker != [] && from <= p && p + |marker| <= |s|
      ensures var here := Split(s[from..], marker, p - from, 1);
              if MatchAt(s, marker, p) then
                here == Parts([s[from..p]] + Split(s[p + |marker|..], marker, 1, 1).slices,
                              Split(s[p + |marker|..], marker, 1, 1).rest)
              else here == Split(s[from..], marker, p - from + 1, 1)
    {
      hide Split;
      var t := s[from..];
      assert t[p - from..p - from + |marker|] == s[p..p + |marker|];
      assert t[..p - from] == s[from..p];
      assert t[p - from + |marker|..] == s[p + |marker|..];
      if MatchAt(s, marker, p) {
        FindIs(t, marker, p - from, p - from);
        SplitAt(t, marker, p - from, 1);
      } else {
        SplitSkip(t, marker, p - from, 1);
      }
    }

    lemma SplitSkip(s: Bytes, marker: Bytes, p: nat, skip: nat)
      requires marker != [] && p + |marker| <= |s| && !MatchAt(s, marker, p)
      ensures Split(s, marker, p, skip) == Split(s, marker, p + 1, skip)
    {}

    lemma SplitEnds(s: Bytes, marker: Bytes, p: nat)
      requires marker != [] && p + |marker| > |s|
      ensures Split(s, marker, p, 1) == Parts([], s)
    {}
  }
}
