/** What the outlier filter can and cannot remove. */
module FilterProperties {
  import opened Toolpath
  import opened ToolpathFilter
  import P = Percentile

  // ----- the length pass removes nothing -----

  lemma {:induction false} SquareMonotone(d: real, m: real)
    requires -m <= d <= m
    ensures d * d <= m * m
  {
    assert 0.0 <= (m - d) * (m + d);
  }

  lemma {:induction false} NotTooLong(s: Segment, m: real, threshold: real)
    requires m >= 0.0 && threshold >= 4.0 * m
    requires forall axis: Axis :: -m <= s.end.At(axis) - s.start.At(axis) <= m
    ensures !TooLong(s, threshold)
  {
    SquareMonotone(s.end.At(X) - s.start.At(X), m);
    SquareMonotone(s.end.At(Y) - s.start.At(Y), m);
    SquareMonotone(s.end.At(Z) - s.start.At(Z), m);
    SquareMonotone(4.0 * m, threshold);
  }

  lemma {:induction false} AllStay(segments: seq<Segment>, drop: Segment -> bool)
    requires forall k :: 0 <= k < |segments| ==> !drop(segments[k])
    ensures Keep(segments, drop) == segments
  {
    if segments != [] {
      AllStay(segments[1..], drop);
      assert segments == [segments[0]] + segments[1..];
    }
  }

  /** Every segment lies inside the bounding box, so none is longer than four times its largest side. */
  lemma {:induction false} LengthPassIsIdentity(segments: seq<Segment>, b: Bounds)
    requires Exact(b, segments)
    ensures KeepShort(segments, SpikeThreshold(b)) == segments
  {
    hide Exact, Values;
    var m := Max(Max(Span(b.x), Span(b.y)), Max(Span(b.z), 1.0));
    forall k | 0 <= k < |segments| ensures !TooLong(segments[k], SpikeThreshold(b)) {
      forall axis: Axis ensures -m <= segments[k].end.At(axis) - segments[k].start.At(axis) <= m {
        EndpointsInBounds(b, segments, k, axis);
      }
      NotTooLong(segments[k], m, SpikeThreshold(b));
    }
    AllStay(segments, LongerThan(SpikeThreshold(b)));
  }

  // ----- order and contents are kept -----

  ghost predicate Subsequence<T>(a: seq<T>, b: seq<T>)
  {
    a == [] || (b != [] && ((a[0] == b[0] && Subsequence(a[1..], b[1..])) || Subsequence(a, b[1..])))
  }

  lemma {:induction false} SubsequenceTransitive<T>(a: seq<T>, b: seq<T>, c: seq<T>)
    requires Subsequence(a, b) && Subsequence(b, c)
    ensures Subsequence(a, c)
    decreases |a| + |b| + |c|
  {
    if a != [] {
      if b[0] == c[0] && Subsequence(b[1..], c[1..]) {
        if a[0] == b[0] && Subsequence(a[1..], b[1..]) {
          SubsequenceTransitive(a[1..], b[1..], c[1..]);
        } else {
          SubsequenceTransitive(a, b[1..], c[1..]);
        }
      } else {
        SubsequenceTransitive(a, b, c[1..]);
      }
    }
  }

  lemma {:induction false} KeepIsSubsequence(segments: seq<Segment>, drop: Segment -> bool)
    ensures Subsequence(Keep(segments, drop), segments)
  {
    if segments != [] {
      KeepIsSubsequence(segments[1..], drop);
      var kept := Keep(segments[1..], drop);
      assert ([segments[0]] + kept)[1..] == kept && [] + kept == kept;
    }
  }

  lemma {:induction false} SubsequenceOfItself<T>(a: seq<T>)
    ensures Subsequence(a, a)
  {
    if a != [] {
      SubsequenceOfItself(a[1..]);
    }
  }

  /** Whatever the toolpath and its bounds, what is kept is kept in order and unchanged. */
  lemma {:induction false} FilteredIsSubsequence(segments: seq<Segment>, b: Bounds)
    ensures Subsequence(Filtered(segments, b), segments)
  {
    hide Keep, EnvelopesOf, SpikeThreshold, Subsequence, LongerThan, OutsideOf;
    if segments == [] || !b.has {
      SubsequenceOfItself(segments);
    } else {
      var short := KeepShort(segments, SpikeThreshold(b));
      KeepIsSubsequence(segments, LongerThan(SpikeThreshold(b)));
      KeepIsSubsequence(short, OutsideOf(EnvelopesOf(short)));
      SubsequenceTransitive(if short == [] then [] else KeepInside(short, EnvelopesOf(short)), short, segments);
    }
  }

  // ----- how much the envelope removes -----

  function BeyondCount(values: seq<real>, i: Interval): (n: nat)
  {
    P.Count(values, P.Below(i.lo)) + P.Count(values, P.Above(i.hi))
  }

  lemma {:induction false} BeyondCountStep(a: real, b: real, values: seq<real>, i: Interval)
    ensures BeyondCount([a, b] + values, i) >= BeyondCount(values, i) + if Beyond(a, i) || Beyond(b, i) then 1 else 0
  {
    P.CountAppend([a, b], values, P.Below(i.lo));
    P.CountAppend([a, b], values, P.Above(i.hi));
    assert [a, b][1..] == [b];
  }

  /** Every suppressed segment has an endpoint coordinate beyond one of the six limits. */
  lemma {:induction false} SuppressedAreBeyond(segments: seq<Segment>, e: Envelopes)
    ensures |segments| - |KeepInside(segments, e)|
         <= BeyondCount(Values(segments, X), e.x) + BeyondCount(Values(segments, Y), e.y)
            + BeyondCount(Values(segments, Z), e.z)
  {
    hide BeyondCount, Beyond;
    if segments != [] {
      var s, rest := segments[0], segments[1..];
      SuppressedAreBeyond(rest, e);
      BeyondCountStep(s.start.x, s.end.x, Values(rest, X), e.x);
      BeyondCountStep(s.start.y, s.end.y, Values(rest, Y), e.y);
      BeyondCountStep(s.start.z, s.end.z, Values(rest, Z), e.z);
    }
  }

  lemma {:induction false} EnvelopeTails(values: seq<real>)
    requires values != []
    ensures BeyondCount(values, Envelope(values)) <= 2 * P.Tail(|values|)
  {
    hide P.Of, P.Count, P.Tail;
    P.TailsAreShort(values, Envelope(values).lo, Envelope(values).hi);
  }

  /** Of n segments the envelope removes at most 6 * ceil(0.02 * (2n - 1)). */
  lemma {:induction false} FewAreSuppressed(segments: seq<Segment>)
    requires segments != []
    ensures |segments| - |KeepInside(segments, EnvelopesOf(segments))| <= 6 * P.Tail(2 * |segments|)
  {
    hide Values, KeepInside, BeyondCount, Envelope, P.Tail;
    SuppressedAreBeyond(segments, EnvelopesOf(segments));
    EnvelopeTails(Values(segments, X));
    EnvelopeTails(Values(segments, Y));
    EnvelopeTails(Values(segments, Z));
  }

  // ----- short toolpaths lose nothing -----

  /** When both percentiles together cut off at most 42% of the range, the margin reaches past both ends. */
  lemma {:induction false} MarginReachesEnds(a: real, d: real, lo: real, hi: real)
    requires a <= lo && hi <= d && (lo - a) + (d - hi) <= 0.42 * (d - a)
    ensures lo - 0.75 * (hi - lo) <= a && d <= hi + 0.75 * (hi - lo)
  {
  }

  /** Where the percentiles of at most 22 values lie: within the outermost two values on either side. */
  lemma {:induction false} SmallPercentiles(s: seq<real>)
    requires 2 <= |s| <= 22 && P.Ascending(s)
    ensures var p, n := 0.02 * (|s| - 1) as real, |s|;
      && 0.0 < p <= 0.42
      && P.Interpolated(s, 0.02) == P.Between(s[0], s[1], p)
      && P.Interpolated(s, 0.98) == P.Between(s[n - 2], s[n - 1], 1.0 - p)
  {
    var p, n := 0.02 * (|s| - 1) as real, |s|;
    var low, high := P.Scaled(0.02, n), P.Scaled(0.98, n);
    assert low == p && high == (n - 1) as real - p;
    assert 0.0 < p <= 0.42;
    assert low.Floor == 0 && P.Ceiling(low) == 1;
    assert high.Floor == n - 2 && P.Ceiling(high) == n - 1;
  }

  lemma {:induction false} Part(f: real, d: real)
    requires d >= 0.0 && 0.0 <= f <= 0.42
    ensures 0.0 <= d * f <= 0.42 * d
  {
  }

  lemma {:induction false} LowCut(a: real, b: real, p: real)
    requires a <= b && 0.0 <= p <= 0.42
    ensures 0.0 <= P.Between(a, b, p) - a <= 0.42 * (b - a)
  {
    var d := b - a;
    Part(p, d);
    assert P.Between(a, b, p) == a + d * p;
  }

  lemma {:induction false} HighCut(c: real, d: real, p: real)
    requires c <= d && 0.0 <= p <= 0.42
    ensures 0.0 <= d - P.Between(c, d, 1.0 - p) <= 0.42 * (d - c)
  {
    var e := d - c;
    Part(p, e);
    assert P.Between(c, d, 1.0 - p) == c + e * (1.0 - p);
    assert e * (1.0 - p) == e - e * p;
  }

  lemma {:induction false} TwoPercentCuts(a: real, d: real)
    ensures P.Between(a, d, 0.02) - a == 0.02 * (d - a) && d - P.Between(a, d, 1.0 - 0.02) == 0.02 * (d - a)
  {
  }

  lemma {:induction false} CutOffs(a: real, b: real, c: real, d: real, p: real)
    requires a <= b <= d && a <= c <= d && 0.0 <= p <= 0.42
    requires b <= c || (b == d && c == a && p == 0.02)
    ensures var lo, hi := P.Between(a, b, p), P.Between(c, d, 1.0 - p);
      a <= lo && hi <= d && (lo - a) + (d - hi) <= 0.42 * (d - a)
  {
    hide P.Between;
    LowCut(a, b, p);
    HighCut(c, d, p);
    if !(b <= c) {
      TwoPercentCuts(a, d);
    }
  }

  lemma {:induction false} SmallRangeIsCovered(s: seq<real>)
    requires 2 <= |s| <= 22 && P.Ascending(s)
    ensures var lo, hi := P.Interpolated(s, 0.02), P.Interpolated(s, 0.98);
      lo - 0.75 * (hi - lo) <= s[0] && s[|s| - 1] <= hi + 0.75 * (hi - lo)
  {
    hide P.Interpolated, P.Between;
    SmallPercentiles(s);
    var n := |s|;
    CutOffs(s[0], s[1], s[n - 2], s[n - 1], 0.02 * (n - 1) as real);
    MarginReachesEnds(s[0], s[n - 1], P.Interpolated(s, 0.02), P.Interpolated(s, 0.98));
  }

  lemma {:induction false} SmallListIsCovered(values: seq<real>, v: real)
    requires 2 <= |values| <= 22 && v in values
    ensures !Beyond(v, Envelope(values))
  {
    var s := P.Sort(values);
    P.SortSorts(values);
    assert v in multiset(s);
    hide P.Sort, P.Interpolated;
    SmallRangeIsCovered(s);
    var j :| 0 <= j < |s| && s[j] == v;
    assert s[0] <= v <= s[|s| - 1];
  }

  lemma {:induction false} SmallToolpathStays(segments: seq<Segment>)
    requires 0 < |segments| <= 11
    ensures KeepInside(segments, EnvelopesOf(segments)) == segments
  {
    hide Values, Envelope, Beyond, Keep;
    var e := EnvelopesOf(segments);
    forall k | 0 <= k < |segments| ensures !Outside(segments[k], e) {
      forall axis: Axis
        ensures !Beyond(segments[k].start.At(axis), e.Of(axis)) && !Beyond(segments[k].end.At(axis), e.Of(axis))
      {
        EndpointsInValues(segments, k, axis);
        SmallListIsCovered(Values(segments, axis), segments[k].start.At(axis));
        SmallListIsCovered(Values(segments, axis), segments[k].end.At(axis));
      }
      assert !Beyond(segments[k].start.At(X), e.Of(X)) && !Beyond(segments[k].start.At(Y), e.Of(Y));
      assert !Beyond(segments[k].start.At(Z), e.Of(Z));
    }
    AllStay(segments, OutsideOf(e));
  }

  // ----- the bound -----

  /** The filter drops at most 6 * ceil(0.02 * (2n - 1)) of n segments, none of up to eleven, and never all of them. */
  lemma {:induction false} FilterBound(segments: seq<Segment>, b: Bounds)
    requires segments != [] && Exact(b, segments)
    ensures |segments| - |Filtered(segments, b)| <= 6 * P.Tail(2 * |segments|)
    ensures |segments| <= 11 ==> Filtered(segments, b) == segments
    ensures Filtered(segments, b) != []
  {
    hide Exact, Values, KeepInside, KeepShort, SpikeThreshold, EnvelopesOf;
    LengthPassIsIdentity(segments, b);
    FewAreSuppressed(segments);
    if |segments| <= 11 {
      SmallToolpathStays(segments);
    }
  }

  // ----- eleven is the limit -----

  /** A move to a distant part, then `n - 1` moves across it. */
  function DistantPart(n: nat): (segments: seq<Segment>)
    requires n > 0
    ensures |segments| == n
  {
    [Segment(Point(0.0, 0.0, 0.0), Point(1000.0, 0.0, 0.0), Rapid, 1)] + Strokes(n - 1)
  }

  /** Strokes to and fro along y, all at one x. */
  function Strokes(n: nat): (segments: seq<Segment>)
    ensures |segments| == n
  {
    if n == 0 then []
    else
      var near, far := Point(1000.0, 0.0, 0.0), Point(1000.0, 10.0, 0.0);
      Strokes(n - 1) + [if n % 2 == 1 then Segment(near, far, Linear, n + 1) else Segment(far, near, Linear, n + 1)]
  }

  ghost predicate AllEqual(values: seq<real>, v: real)
  {
    forall i :: 0 <= i < |values| ==> values[i] == v
  }

  lemma {:induction false} StrokesAtOneX(n: nat)
    ensures AllEqual(Values(Strokes(n), X), 1000.0)
  {
    if n > 0 {
      StrokesAtOneX(n - 1);
      ValuesAppend(Strokes(n - 1), Strokes(n)[n - 1], X);
    }
  }

  lemma {:induction false} DistantPartPercentiles(values: seq<real>)
    requires |values| >= 24 && values[0] == 0.0 && AllEqual(values[1..], 1000.0)
    ensures 460.0 <= P.Of(values, 0.02) <= 1000.0 == P.Of(values, 0.98)
  {
    hide P.Scaled;
    var rest := values[1..];
    P.SortAgain(rest);
    var s := P.Sort(values);
    assert s == [0.0] + rest;
    var p := P.Scaled(0.02, |s|);
    PositionsInLongList(|s|);
    AtOneValue(s, 0.98, 1000.0);
    if p.Floor >= 1 {
      AtOneValue(s, 0.02, 1000.0);
    } else {
      assert s[0] == 0.0 && s[1] == 1000.0;
      assert P.Between(0.0, 1000.0, p) == 1000.0 * p;
    }
  }

  lemma {:induction false} PositionsInLongList(n: nat)
    requires n >= 24
    ensures P.Scaled(0.02, n) >= 0.46 && P.Scaled(0.98, n).Floor >= 1
  {
  }

  lemma {:induction false} AtOneValue(s: seq<real>, percentile: real, v: real)
    requires |s| > 0 && 0.0 <= percentile <= 1.0 && P.Scaled(percentile, |s|).Floor >= 1 && AllEqual(s[1..], v)
    ensures P.Interpolated(s, percentile) == v
  {
    hide P.Scaled;
    var scaled := P.Scaled(percentile, |s|);
    assert s[1..][scaled.Floor - 1] == v && s[1..][P.Ceiling(scaled) - 1] == v;
    assert P.Between(v, v, scaled - scaled.Floor as real) == v;
  }

  lemma {:induction false} DistantValues(n: nat)
    requires n >= 12
    ensures var values := Values(DistantPart(n), X);
      |values| >= 24 && values[0] == 0.0 && AllEqual(values[1..], 1000.0)
  {
    hide Strokes;
    StrokesAtOneX(n - 1);
    var segments, later := DistantPart(n), Values(Strokes(n - 1), X);
    assert segments[1..] == Strokes(n - 1);
    var values := Values(segments, X);
    assert values == [0.0, 1000.0] + later;
    forall i | 0 <= i < |values[1..]| ensures values[1..][i] == 1000.0 {
      assert i > 0 ==> values[1..][i] == later[i - 1];
    }
  }

  lemma {:induction false} FirstIsDropped(segments: seq<Segment>, drop: Segment -> bool)
    requires segments != [] && drop(segments[0])
    ensures |Keep(segments, drop)| < |segments|
  {
    KeepIsShorter(segments[1..], drop);
  }

  lemma {:induction false} DistantMoveIsOutside(n: nat)
    requires n >= 12
    ensures Outside(DistantPart(n)[0], EnvelopesOf(DistantPart(n)))
  {
    hide Values, Strokes, AllEqual, P.Of;
    DistantValues(n);
    DistantPartPercentiles(Values(DistantPart(n), X));
  }

  /** With twelve segments or more the filter removes the move that leads to a distant part. */
  lemma {:induction false} DistantMoveIsDropped(n: nat, b: Bounds)
    requires n >= 12 && Exact(b, DistantPart(n))
    ensures |Filtered(DistantPart(n), b)| < n
  {
    hide Exact, Keep, SpikeThreshold, EnvelopesOf, Outside, DistantPart;
    var segments := DistantPart(n);
    LengthPassIsIdentity(segments, b);
    DistantMoveIsOutside(n);
    FirstIsDropped(segments, OutsideOf(EnvelopesOf(segments)));
    BoundsPresent(b, segments);
  }

  lemma {:induction false} BoundsPresent(b: Bounds, segments: seq<Segment>)
    requires Exact(b, segments)
    ensures b.has <==> segments != []
  {
  }

  lemma {:induction false} KeepIsShorter(segments: seq<Segment>, drop: Segment -> bool)
    ensures |Keep(segments, drop)| <= |segments|
  {
    if segments != [] {
      KeepIsShorter(segments[1..], drop);
    }
  }

  ghost predicate NeverDrops(n: nat)
  {
    forall segments: seq<Segment>, b: Bounds ::
      |segments| == n && Exact(b, segments) ==> Filtered(segments, b) == segments
  }

  /** The filter leaves every toolpath of `n` segments alone if and only if `n` is at most eleven. */
  lemma {:induction false} NothingDroppedIff(n: nat)
    ensures NeverDrops(n) <==> n <= 11
  {
    hide Exact, Filtered, DistantPart;
    if n <= 11 {
      forall segments: seq<Segment>, b: Bounds | |segments| == n && Exact(b, segments)
        ensures Filtered(segments, b) == segments
      {
        if n == 0 {
          NothingFromNothing(b);
        } else {
          FilterBound(segments, b);
        }
      }
    } else {
      BoundsAreExact(DistantPart(n));
      DistantMoveIsDropped(n, BoundsOf(DistantPart(n)));
    }
  }

  lemma {:induction false} NothingFromNothing(b: Bounds)
    ensures Filtered([], b) == []
  {
  }
}
