/**
  Median cut: a pixel list is sorted on its widest channel and cut in the middle,
  down to a given depth; each bucket that is left gives its rounded mean colour.
 */
module ColorQuantizer {
  import opened Basics

  datatype Color = Color(red: byte, green: byte, blue: byte)

  datatype Channel = R | G | B

  function Get(c: Color, ch: Channel): byte {
    match ch
    case R => c.red
    case G => c.green
    case B => c.blue
  }

  const MAX_INT: int := 0x7fff_ffff

  function Pow2(k: nat): (p: nat)
    ensures p >= 1
  {
    if k == 0 then 1 else 2 * Pow2(k - 1)
  }

  // ------------------------------------------------------------ the cut as a tree

  datatype Tree = Bucket(pixels: seq<Color>) | Cut(low: Tree, high: Tree)

  /** All pixels, bucket by bucket. */
  function Pixels(t: Tree): seq<Color> {
    match t
    case Bucket(pixels) => pixels
    case Cut(low, high) => Pixels(low) + Pixels(high)
  }

  /** The buckets that hold something, from left to right. */
  function Buckets(t: Tree): seq<seq<Color>> {
    match t
    case Bucket(pixels) => if pixels == [] then [] else [pixels]
    case Cut(low, high) => Buckets(low) + Buckets(high)
  }

  /** Two of the pixels are at least this far apart on the channel. */
  ghost predicate Apart(pixels: multiset<Color>, ch: Channel, distance: int) {
    exists x, y :: x in pixels && y in pixels && Get(x, ch) - Get(y, ch) >= distance
  }

  /** No channel spreads the pixels further than this one. */
  ghost predicate Widest(pixels: multiset<Color>, ch: Channel) {
    forall c, x, y :: x in pixels && y in pixels ==> Apart(pixels, ch, Get(x, c) - Get(y, c))
  }

  /** The pixels of the lower half are nowhere above those of the upper half on the channel. */
  ghost predicate Below(low: seq<Color>, high: seq<Color>, ch: Channel) {
    forall x, y :: x in low && y in high ==> Get(x, ch) <= Get(y, ch)
  }

  ghost predicate GoodCut(low: seq<Color>, high: seq<Color>) {
    && |low| == (|low| + |high|) / 2
    && exists ch :: Widest(multiset(low + high), ch) && Below(low, high, ch)
  }

  /** Cut in half on a widest channel at every level, unless nothing is left. */
  ghost predicate MedianCut(t: Tree, levels: nat) {
    match t
    case Bucket(pixels) => levels == 0 || pixels == []
    case Cut(low, high) =>
      && levels > 0 && MedianCut(low, levels - 1) && MedianCut(high, levels - 1)
      && GoodCut(Pixels(low), Pixels(high))
  }

  // ------------------------------------------------------------- numbers of buckets

  /** n pixels and d levels give min(n, 2^d) buckets. */
  lemma {:induction false} BucketCount(t: Tree, levels: nat)
    requires MedianCut(t, levels)
    ensures |Buckets(t)| == Min(|Pixels(t)|, Pow2(levels))
  {
    if t.Cut? {
      BucketCount(t.low, levels - 1);
      BucketCount(t.high, levels - 1);
    }
  }

  function Concat(buckets: seq<seq<Color>>): seq<Color> {
    if buckets == [] then [] else buckets[0] + Concat(buckets[1..])
  }

  lemma {:induction false} ConcatAppend(a: seq<seq<Color>>, b: seq<seq<Color>>)
    ensures Concat(a + b) == Concat(a) + Concat(b)
  {
    if a == [] {
      assert a + b == b;
    } else {
      ConcatAppend(a[1..], b);
      assert (a + b)[1..] == a[1..] + b && (a + b)[0] == a[0];
      assert a[0] + (Concat(a[1..]) + Concat(b)) == (a[0] + Concat(a[1..])) + Concat(b);
    }
  }

  /** The buckets partition the pixels. */
  lemma {:induction false} BucketsPartition(t: Tree)
    ensures Concat(Buckets(t)) == Pixels(t)
    ensures forall i :: 0 <= i < |Buckets(t)| ==> Buckets(t)[i] != []
  {
    if t.Cut? {
      BucketsPartition(t.low);
      BucketsPartition(t.high);
      ConcatAppend(Buckets(t.low), Buckets(t.high));
    } else if t.pixels != [] {
      assert Concat([t.pixels]) == t.pixels + Concat([]);
    }
  }

  /** One halving keeps a size within less than one of its share. */
  lemma Halve(n: nat, half: nat, size: nat, q: nat)
    requires q >= 1 && (half == n / 2 || half == n - n / 2)
    requires half - q < size * q < half + q
    ensures n - 2 * q < size * (2 * q) < n + 2 * q
  {
    var t := size * q;
    assert size * (2 * q) == 2 * t;
  }

  lemma {:induction false} BucketShare(t: Tree, levels: nat, i: nat)
    requires MedianCut(t, levels) && i < |Buckets(t)|
    ensures var p := Pow2(levels); |Pixels(t)| - p < |Buckets(t)[i]| * p < |Pixels(t)| + p
  {
    match t
    case Bucket(pixels) =>
    case Cut(low, high) =>
      var q := Pow2(levels - 1);
      if i < |Buckets(low)| {
        BucketShare(low, levels - 1, i);
        Halve(|Pixels(t)|, |Pixels(low)|, |Buckets(t)[i]|, q);
      } else {
        BucketShare(high, levels - 1, i - |Buckets(low)|);
        Halve(|Pixels(t)|, |Pixels(high)|, |Buckets(t)[i]|, q);
      }
  }

  lemma Monotone(p: nat, a: int, b: int)
    ensures a <= b ==> a * p <= b * p
  {}

  lemma ShareIsFloorOrCeiling(n: nat, size: nat, p: nat)
    requires p >= 1 && n - p < size * p < n + p
    ensures size == n / p || (n % p != 0 && size == n / p + 1)
  {
    var f, r := n / p, n % p;
    var fp, sp := f * p, size * p;
    assert n == fp + r;
    Monotone(p, size, f - 1);
    Monotone(p, f + 2, size);
    Multiples(p, f);
  }

  lemma Multiples(p: nat, f: int)
    ensures (f - 1) * p == f * p - p && (f + 1) * p == f * p + p && (f + 2) * p == f * p + p + p
  {}

  /** Every bucket holds the floor or the ceiling of n / 2^d pixels. */
  lemma BucketSizes(t: Tree, levels: nat, i: nat)
    requires MedianCut(t, levels) && i < |Buckets(t)|
    ensures var n, p := |Pixels(t)|, Pow2(levels);
            |Buckets(t)[i]| == n / p || (n % p != 0 && |Buckets(t)[i]| == n / p + 1)
  {
    BucketShare(t, levels, i);
    ShareIsFloorOrCeiling(|Pixels(t)|, |Buckets(t)[i]|, Pow2(levels));
  }

  // ---------------------------------------------------------------------- means

  function Total(pixels: seq<Color>, ch: Channel): (s: nat)
    ensures s <= 255 * |pixels|
  {
    if pixels == [] then 0 else Total(pixels[..|pixels| - 1], ch) + Get(pixels[|pixels| - 1], ch)
  }

  /** Nearest integer to total / n, halves rounding up. */
  ghost predicate Rounded(total: nat, n: nat, mean: int) {
    2 * total - n < 2 * n * mean <= 2 * total + n
  }

  function Round(total: nat, n: nat): int
    requires n > 0
  {
    (2 * total + n) / (2 * n)
  }

  lemma RoundRounds(total: nat, n: nat)
    requires n > 0
    ensures Rounded(total, n, Round(total, n))
  {
    var m := Round(total, n);
    assert 2 * total + n == 2 * n * m + (2 * total + n) % (2 * n);
  }

  /** A rounded mean lies between any bounds of what is averaged. */
  lemma MeanWithin(total: nat, n: nat, mean: int, lo: int, hi: int)
    requires n > 0 && Rounded(total, n, mean) && lo * n <= total <= hi * n
    ensures lo <= mean <= hi
  {
    Monotone(n, mean, lo - 1);
    Monotone(n, hi + 1, mean);
    Multiples(n, lo);
    Multiples(n, hi);
    assert 2 * n * mean == 2 * (mean * n);
  }

  lemma {:induction false} TotalWithin(pixels: seq<Color>, ch: Channel, lo: int, hi: int)
    requires forall i :: 0 <= i < |pixels| ==> lo <= Get(pixels[i], ch) <= hi
    ensures lo * |pixels| <= Total(pixels, ch) <= hi * |pixels|
  {
    if pixels != [] {
      TotalWithin(pixels[..|pixels| - 1], ch, lo, hi);
      var n := |pixels| - 1;
      assert lo * (n + 1) == lo * n + lo && hi * (n + 1) == hi * n + hi;
    }
  }

  /** The total is the sum: of one pixel its value, of two lists the two totals. */
  lemma TotalOfOne(c: Color, ch: Channel)
    ensures Total([], ch) == 0 && Total([c], ch) == Get(c, ch)
  {
    assert Total([c][..0], ch) == 0;
  }

  lemma {:induction false} TotalOfBoth(a: seq<Color>, b: seq<Color>, ch: Channel)
    ensures Total(a + b, ch) == Total(a, ch) + Total(b, ch)
    decreases |b|
  {
    if b == [] {
      assert a + b == a;
    } else {
      var init, last := b[..|b| - 1], b[|b| - 1];
      TotalOfBoth(a, init, ch);
      assert (a + b)[..|a + b| - 1] == a + init && (a + b)[|a + b| - 1] == last;
    }
  }

  lemma WithoutOne(rest: seq<Color>, x: Color, before: seq<Color>, after: seq<Color>)
    requires multiset([x] + rest) == multiset(before + [x] + after)
    ensures multiset(rest) == multiset(before + after)
  {
    assert multiset(rest) == multiset([x] + rest) - multiset{x};
    assert multiset(before + after) == multiset(before + [x] + after) - multiset{x};
  }

  /** It does not depend on the order of the pixels. */
  lemma {:induction false} TotalOfSame(a: seq<Color>, b: seq<Color>, ch: Channel)
    requires multiset(a) == multiset(b)
    ensures Total(a, ch) == Total(b, ch)
    decreases |a|
  {
    if a == [] {
      assert |b| == |multiset(b)| == 0;
    } else {
      var x, rest := a[0], a[1..];
      assert a == [x] + rest && x in multiset(b);
      var k :| 0 <= k < |b| && b[k] == x;
      assert b == b[..k] + [x] + b[k + 1..];
      WithoutOne(rest, x, b[..k], b[k + 1..]);
      TotalOfSame(rest, b[..k] + b[k + 1..], ch);
      TotalOfBoth([x], rest, ch);
      TotalOfBoth(b[..k], b[k + 1..], ch);
      TotalOfBoth(b[..k] + [x], b[k + 1..], ch);
      TotalOfBoth(b[..k], [x], ch);
    }
  }

  ghost predicate IsMean(pixels: seq<Color>, c: Color) {
    forall ch :: Rounded(Total(pixels, ch), |pixels|, Get(c, ch))
  }

  /** The colour of a bucket lies within the bucket's bounds on every channel. */
  lemma MeanWithinBucket(pixels: seq<Color>, c: Color, ch: Channel, lo: int, hi: int)
    requires pixels != [] && IsMean(pixels, c)
    requires forall i :: 0 <= i < |pixels| ==> lo <= Get(pixels[i], ch) <= hi
    ensures lo <= Get(c, ch) <= hi
  {
    TotalWithin(pixels, ch, lo, hi);
    assert Rounded(Total(pixels, ch), |pixels|, Get(c, ch));
    MeanWithin(Total(pixels, ch), |pixels|, Get(c, ch), lo, hi);
  }

  lemma RoundedIsOne(total: nat, n: nat, a: int, b: int)
    requires n > 0 && Rounded(total, n, a) && Rounded(total, n, b)
    ensures a == b
  {
    Monotone(2 * n, a + 1, b);
    Monotone(2 * n, b + 1, a);
    assert 2 * n * a == a * (2 * n) && 2 * n * b == b * (2 * n);
    assert (a + 1) * (2 * n) == a * (2 * n) + 2 * n && (b + 1) * (2 * n) == b * (2 * n) + 2 * n;
  }

  /** A bucket has one mean, and it is the same for every order of its pixels. */
  lemma MeanOfSame(a: seq<Color>, b: seq<Color>, c: Color, d: Color)
    requires a != [] && multiset(a) == multiset(b) && IsMean(a, c) && IsMean(b, d)
    ensures c == d
  {
    hide Rounded;
    assert |a| == |multiset(a)| == |multiset(b)| == |b|;
    forall ch ensures Get(c, ch) == Get(d, ch) {
      TotalOfSame(a, b, ch);
      assert Rounded(Total(a, ch), |a|, Get(c, ch)) && Rounded(Total(b, ch), |b|, Get(d, ch));
      RoundedIsOne(Total(a, ch), |a|, Get(c, ch), Get(d, ch));
    }
    assert Get(c, R) == Get(d, R) && Get(c, G) == Get(d, G) && Get(c, B) == Get(d, B);
  }

  /** One black and one white pixel give middle grey. */
  lemma BlackAndWhite(c: Color)
    requires IsMean([Color(0, 0, 0), Color(255, 255, 255)], c)
    ensures c == Color(128, 128, 128)
  {
    var black, white := Color(0, 0, 0), Color(255, 255, 255);
    forall ch ensures Rounded(255, 2, Get(c, ch)) {
      TotalOfOne(black, ch);
      TotalOfOne(white, ch);
      TotalOfBoth([black], [white], ch);
      assert [black] + [white] == [black, white];
      assert Rounded(Total([black, white], ch), 2, Get(c, ch));
    }
    assert Rounded(255, 2, Get(c, R)) && Rounded(255, 2, Get(c, G)) && Rounded(255, 2, Get(c, B));
  }

  ghost predicate AreMeans(buckets: seq<seq<Color>>, colors: seq<Color>) {
    |colors| == |buckets| && forall i :: 0 <= i < |colors| ==> IsMean(buckets[i], colors[i])
  }

  /** The colours of a cut depend on what the buckets hold, not on the order within them. */
  lemma ColorsOfSame(a: seq<seq<Color>>, b: seq<seq<Color>>, colors: seq<Color>, colors': seq<Color>)
    requires AreMeans(a, colors) && AreMeans(b, colors') && |a| == |b|
    requires forall i :: 0 <= i < |a| ==> a[i] != [] && multiset(a[i]) == multiset(b[i])
    ensures colors == colors'
  {
    hide IsMean;
    forall i | 0 <= i < |colors| ensures colors[i] == colors'[i] {
      MeanOfSame(a[i], b[i], colors[i], colors'[i]);
    }
  }

  // ------------------------------------------------------------------ the operation

  /** Ordered on a channel. */
  predicate Sorted(s: seq<Color>, ch: Channel) {
    forall i, j :: 0 <= i < j < |s| ==> Get(s[i], ch) <= Get(s[j], ch)
  }

  lemma {:induction false} SortingExists(s: seq<Color>, ch: Channel) returns (r: seq<Color>)
    ensures Sorted(r, ch) && multiset(r) == multiset(s)
  {
    if s == [] {
      r := [];
    } else {
      var x := s[0];
      var t := SortingExists(s[1..], ch);
      assert s == [x] + s[1..];
      var k := 0;
      while k < |t| && Get(t[k], ch) < Get(x, ch)
        invariant k <= |t| && forall i :: 0 <= i < k ==> Get(t[i], ch) < Get(x, ch)
      {
        k := k + 1;
      }
      r := t[..k] + [x] + t[k..];
      Inserted(t, x, k, ch);
    }
  }

  lemma Inserted(t: seq<Color>, x: Color, k: nat, ch: Channel)
    requires k <= |t| && Sorted(t, ch)
    requires forall i :: 0 <= i < k ==> Get(t[i], ch) < Get(x, ch)
    requires k < |t| ==> Get(x, ch) <= Get(t[k], ch)
    ensures Sorted(t[..k] + [x] + t[k..], ch)
    ensures multiset(t[..k] + [x] + t[k..]) == multiset([x] + t)
  {
    SameColors(t, x, k);
    hide Get;
    var s := t[..k] + [x] + t[k..];
    forall i, j | 0 <= i < j < |s| ensures Get(s[i], ch) <= Get(s[j], ch) {
      if i < k <= j {
        assert Get(s[i], ch) <= Get(x, ch);
      }
    }
  }

  lemma SameColors(t: seq<Color>, x: Color, k: nat)
    requires k <= |t|
    ensures multiset(t[..k] + [x] + t[k..]) == multiset([x] + t)
  {
    assert t == t[..k] + t[k..];
  }

  /** The library sort: some ordered rearrangement, elements equal on the channel in any order. */
  method SortBy(a: array<Color>, ch: Channel)
    modifies a
    ensures Sorted(a[..], ch) && multiset(a[..]) == multiset(old(a[..]))
  {
    ghost var witness_ := SortingExists(a[..], ch);
    assert multiset(witness_) == multiset(a[..]);
    var s: seq<Color> :| Sorted(s, ch) && multiset(s) == multiset(a[..]);
    assert |s| == |multiset(s)| == |multiset(a[..])| == a.Length;
    forall i | 0 <= i < a.Length {
      a[i] := s[i];
    }
    assert a[..] == s;
  }

  /** A channel of largest range, the first of red, green, blue among equals; red for no pixels. */
  method FindBiggestColorRange(rgbValues: seq<Color>) returns (ch: Channel)
    ensures rgbValues == [] ==> ch == R
    ensures Widest(multiset(rgbValues), ch)
    ensures rgbValues != [] && ch != R ==> !Widest(multiset(rgbValues), R)
    ensures rgbValues != [] && ch == B ==> !Widest(multiset(rgbValues), G)
  {
    hide Widest, Apart;
    if rgbValues == [] {
      NothingIsWide();
      return R;
    }
    var rMin, rMax := MinMax(rgbValues, R);
    var gMin, gMax := MinMax(rgbValues, G);
    var bMin, bMax := MinMax(rgbValues, B);
    var rRange, gRange, bRange := rMax - rMin, gMax - gMin, bMax - bMin;
    var biggestRange := if gRange < bRange then bRange else gRange;
    biggestRange := if rRange < biggestRange then biggestRange else rRange;
    ch := if biggestRange == rRange then R else if biggestRange == gRange then G else B;
    ghost var pixels := multiset(rgbValues);
    assert forall x :: x in pixels ==> x in rgbValues;
    if ch != R {
      NotWidest(pixels, R, rMin, rMax, ch, biggestRange);
    }
    if ch == B {
      NotWidest(pixels, G, gMin, gMax, ch, biggestRange);
    }
    MakesWidest(pixels, ch, biggestRange);
  }

  lemma NothingIsWide()
    ensures Widest(multiset([]), R)
  {}

  lemma WidestAt(pixels: multiset<Color>, ch: Channel, c: Channel, x: Color, y: Color)
    requires Widest(pixels, ch) && x in pixels && y in pixels
    ensures Apart(pixels, ch, Get(x, c) - Get(y, c))
  {}

  lemma NotWidest(pixels: multiset<Color>, ch: Channel, min: int, max: int, wider: Channel, range: int)
    requires forall x :: x in pixels ==> min <= Get(x, ch) <= max
    requires Apart(pixels, wider, range) && range > max - min
    ensures !Widest(pixels, ch)
  {
    hide Widest;
    var x, y :| x in pixels && y in pixels && Get(x, wider) - Get(y, wider) >= range;
    if Widest(pixels, ch) {
      WidestAt(pixels, ch, wider, x, y);
      assert false;
    }
  }

  lemma MakesWidest(pixels: multiset<Color>, ch: Channel, range: int)
    requires Apart(pixels, ch, range)
    requires forall c, x, y :: x in pixels && y in pixels ==> Get(x, c) - Get(y, c) <= range
    ensures Widest(pixels, ch)
  {
    var u, v :| u in pixels && v in pixels && Get(u, ch) - Get(v, ch) >= range;
  }

  /** Least and greatest value of one channel, both taken by some pixel. */
  method MinMax(rgbValues: seq<Color>, ch: Channel) returns (min: int, max: int)
    requires rgbValues != []
    ensures forall x :: x in rgbValues ==> min <= Get(x, ch) <= max
    ensures Apart(multiset(rgbValues), ch, max - min)
  {
    min, max := 255, 0;
    ghost var lo, hi := rgbValues[0], rgbValues[0];
    for i := 0 to |rgbValues|
      invariant i == 0 ==> min == 255 && max == 0
      invariant forall j :: 0 <= j < i ==> min <= Get(rgbValues[j], ch) <= max
      invariant lo in rgbValues && hi in rgbValues
      invariant i > 0 ==> Get(lo, ch) == min && Get(hi, ch) == max
    {
      var v := Get(rgbValues[i], ch);
      // The first pixel always replaces the initial extremes.
      if v <= min {
        min, lo := v, rgbValues[i];
      }
      if v >= max {
        max, hi := v, rgbValues[i];
      }
    }
    assert lo in multiset(rgbValues) && hi in multiset(rgbValues);
  }

  /** The rounded mean colour of a bucket. */
  method Average(rgbValues: seq<Color>) returns (c: Color)
    requires rgbValues != [] && 255 * |rgbValues| <= MAX_INT
    ensures IsMean(rgbValues, c)
  {
    var totalR, totalG, totalB := 0, 0, 0;
    for i := 0 to |rgbValues|
      invariant totalR == Total(rgbValues[..i], R) <= MAX_INT
      invariant totalG == Total(rgbValues[..i], G) <= MAX_INT
      invariant totalB == Total(rgbValues[..i], B) <= MAX_INT
    {
      assert rgbValues[..i + 1][..i] == rgbValues[..i];
      totalR := totalR + rgbValues[i].red;
      totalG := totalG + rgbValues[i].green;
      totalB := totalB + rgbValues[i].blue;
    }
    var n := |rgbValues|;
    assert rgbValues[..n] == rgbValues;
    RoundRounds(totalR, n);
    RoundRounds(totalG, n);
    RoundRounds(totalB, n);
    MeanWithin(totalR, n, Round(totalR, n), 0, 255);
    MeanWithin(totalG, n, Round(totalG, n), 0, 255);
    MeanWithin(totalB, n, Round(totalB, n), 0, 255);
    c := Color(Round(totalR, n), Round(totalG, n), Round(totalB, n));
  }

  /** The colours are the means of the buckets of a median cut of the pixels. */
  method Quantization(rgbValues: array<Color>, levels: nat) returns (colors: seq<Color>, ghost cut: Tree)
    requires 255 * rgbValues.Length <= MAX_INT
    modifies rgbValues
    ensures MedianCut(cut, levels)
    ensures multiset(Pixels(cut)) == multiset(old(rgbValues[..]))
    ensures AreMeans(Buckets(cut), colors)
    ensures |colors| == Min(rgbValues.Length, Pow2(levels))
    decreases levels
  {
    hide AreMeans, Widest, MedianCut, Sorted, Buckets, Min, Pow2, Pixels;
    if levels == 0 || rgbValues.Length == 0 {
      colors, cut := LastLevel(rgbValues[..]);
      BucketIsCut(rgbValues[..], levels);
      ColorCount(cut, levels, rgbValues[..], colors);
      return;
    }
    var dominantChannel := FindBiggestColorRange(rgbValues[..]);
    SortBy(rgbValues, dominantChannel);
    var n, mid := rgbValues.Length, rgbValues.Length / 2;
    var leftHalf := new Color[mid](i requires 0 <= i < mid reads rgbValues => rgbValues[i]);
    var rightHalf := new Color[n - mid](i requires 0 <= i < n - mid reads rgbValues => rgbValues[mid + i]);
    ghost var low, high := leftHalf[..], rightHalf[..];
    assert rgbValues[..] == low + high;
    var left, right;
    ghost var lowCut, highCut;
    left, lowCut := Quantization(leftHalf, levels - 1);
    right, highCut := Quantization(rightHalf, levels - 1);
    colors, cut := left + right, Cut(lowCut, highCut);
    CutsJoin(low, high, lowCut, highCut, dominantChannel, levels);
    MeansAppend(lowCut, left, highCut, right);
    ColorCount(cut, levels, rgbValues[..], colors);
  }

  lemma BucketIsCut(pixels: seq<Color>, levels: nat)
    requires levels == 0 || pixels == []
    ensures MedianCut(Bucket(pixels), levels) && Pixels(Bucket(pixels)) == pixels
  {}

  lemma CutsJoin(low: seq<Color>, high: seq<Color>, lowCut: Tree, highCut: Tree, ch: Channel, levels: nat)
    requires |low| == (|low| + |high|) / 2 && Sorted(low + high, ch) && Widest(multiset(low + high), ch)
    requires levels > 0 && MedianCut(lowCut, levels - 1) && MedianCut(highCut, levels - 1)
    requires multiset(Pixels(lowCut)) == multiset(low) && multiset(Pixels(highCut)) == multiset(high)
    ensures MedianCut(Cut(lowCut, highCut), levels)
    ensures multiset(Pixels(Cut(lowCut, highCut))) == multiset(low + high)
  {
    hide Sorted, Widest, GoodCut;
    CutIsGood(low, high, Pixels(lowCut), Pixels(highCut), ch);
  }

  lemma ColorCount(cut: Tree, levels: nat, pixels: seq<Color>, colors: seq<Color>)
    requires MedianCut(cut, levels) && multiset(Pixels(cut)) == multiset(pixels) && AreMeans(Buckets(cut), colors)
    ensures |colors| == Min(|pixels|, Pow2(levels))
  {
    BucketCount(cut, levels);
    assert |Pixels(cut)| == |multiset(Pixels(cut))| == |multiset(pixels)| == |pixels|;
  }

  /** At the last level a bucket gives its mean, and nothing gives nothing. */
  method LastLevel(rgbValues: seq<Color>) returns (colors: seq<Color>, ghost cut: Tree)
    requires 255 * |rgbValues| <= MAX_INT
    ensures cut == Bucket(rgbValues) && AreMeans(Buckets(cut), colors)
  {
    cut := Bucket(rgbValues);
    if rgbValues == [] {
      return [], cut;
    }
    var avgColor := Average(rgbValues);
    return [avgColor], cut;
  }

  lemma CutIsGood(low: seq<Color>, high: seq<Color>, low': seq<Color>, high': seq<Color>, ch: Channel)
    requires |low| == (|low| + |high|) / 2 && Sorted(low + high, ch) && Widest(multiset(low + high), ch)
    requires multiset(low') == multiset(low) && multiset(high') == multiset(high)
    ensures GoodCut(low', high')
    ensures multiset(low' + high') == multiset(low + high)
  {
    hide Widest;
    assert |low'| == |multiset(low')| == |low| && |high'| == |multiset(high')| == |high|;
    SortedIsBelow(low, high, ch);
    BelowIsUnordered(low, high, low', high', ch);
  }

  lemma SortedIsBelow(low: seq<Color>, high: seq<Color>, ch: Channel)
    requires Sorted(low + high, ch)
    ensures Below(low, high, ch)
  {
    forall x, y | x in low && y in high ensures Get(x, ch) <= Get(y, ch) {
      var i :| 0 <= i < |low| && low[i] == x;
      var j :| 0 <= j < |high| && high[j] == y;
      assert (low + high)[i] == x && (low + high)[|low| + j] == y;
    }
  }

  lemma BelowIsUnordered(low: seq<Color>, high: seq<Color>, low': seq<Color>, high': seq<Color>, ch: Channel)
    requires Below(low, high, ch) && multiset(low') == multiset(low) && multiset(high') == multiset(high)
    ensures Below(low', high', ch)
  {
    forall x, y | x in low' && y in high' ensures Get(x, ch) <= Get(y, ch) {
      assert x in multiset(low') && y in multiset(high');
    }
  }

  lemma MeansAppend(low: Tree, left: seq<Color>, high: Tree, right: seq<Color>)
    requires AreMeans(Buckets(low), left) && AreMeans(Buckets(high), right)
    ensures AreMeans(Buckets(Cut(low, high)), left + right)
  {
    hide IsMean;
  }
}
