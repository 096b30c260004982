/** The outlier filter of the preview: a length limit, then an envelope around the middle 96% of the endpoints. */
module ToolpathFilter {
  import opened Toolpath
  import Percentile

  const MINIMUM_SPIKE_THRESHOLD := 150.0
  const MINIMUM_ENVELOPE_MARGIN := 25.0

  // ----- the two tests -----

  function Span(i: Interval): (d: real)
  {
    i.hi - i.lo
  }

  function SpikeThreshold(b: Bounds): (t: real)
    ensures t >= MINIMUM_SPIKE_THRESHOLD
  {
    var maxSpan := Max(Max(Span(b.x), Span(b.y)), Max(Span(b.z), 1.0));
    Max(maxSpan * 4.0, MINIMUM_SPIKE_THRESHOLD)
  }

  /** The square of the segment's length. */
  function SquaredLength(s: Segment): (d: real)
  {
    var dx, dy, dz := s.end.x - s.start.x, s.end.y - s.start.y, s.end.z - s.start.z;
    dx * dx + dy * dy + dz * dz
  }

  /** `GetSegmentLength(s) > threshold`, compared as squares. */
  predicate TooLong(s: Segment, threshold: real)
    requires threshold >= 0.0
  {
    SquaredLength(s) > threshold * threshold
  }

  /** Two percent of the values from either end, and a margin of three quarters of what lies between. */
  function Envelope(values: seq<real>): (e: Interval)
  {
    var lo, hi := Percentile.Of(values, 0.02), Percentile.Of(values, 0.98);
    var margin := Max((hi - lo) * 0.75, MINIMUM_ENVELOPE_MARGIN);
    Interval(lo - margin, hi + margin)
  }

  datatype Envelopes = Envelopes(x: Interval, y: Interval, z: Interval)
  {
    function Of(axis: Axis): (i: Interval)
    {
      match axis case X => x case Y => y case Z => z
    }
  }

  function EnvelopesOf(segments: seq<Segment>): (e: Envelopes)
  {
    Envelopes(Envelope(Values(segments, X)), Envelope(Values(segments, Y)), Envelope(Values(segments, Z)))
  }

  predicate Beyond(v: real, i: Interval)
  {
    v < i.lo || v > i.hi
  }

  predicate IsOutsideEnvelope(p: Point, e: Envelopes)
  {
    Beyond(p.x, e.x) || Beyond(p.y, e.y) || Beyond(p.z, e.z)
  }

  predicate Outside(s: Segment, e: Envelopes)
  {
    IsOutsideEnvelope(s.start, e) || IsOutsideEnvelope(s.end, e)
  }

  // ----- the two passes -----

  /** The segments that the test does not drop, in order. */
  function Keep(segments: seq<Segment>, drop: Segment -> bool): (kept: seq<Segment>)
  {
    if segments == [] then [] else (if drop(segments[0]) then [] else [segments[0]]) + Keep(segments[1..], drop)
  }

  function LongerThan(threshold: real): (drop: Segment -> bool)
    requires threshold >= 0.0
  {
    s => TooLong(s, threshold)
  }

  function OutsideOf(e: Envelopes): (drop: Segment -> bool)
  {
    s => Outside(s, e)
  }

  function KeepShort(segments: seq<Segment>, threshold: real): (kept: seq<Segment>)
    requires threshold >= 0.0
  {
    Keep(segments, LongerThan(threshold))
  }

  function KeepInside(segments: seq<Segment>, e: Envelopes): (kept: seq<Segment>)
  {
    Keep(segments, OutsideOf(e))
  }

  /** What remains of a toolpath whose running bounds are `b`. */
  function Filtered(segments: seq<Segment>, b: Bounds): (kept: seq<Segment>)
  {
    if segments == [] || !b.has then segments
    else
      var short := KeepShort(segments, SpikeThreshold(b));
      if short == [] then [] else KeepInside(short, EnvelopesOf(short))
  }

  function Suppression(byLength: nat, byEnvelope: nat): (warnings: seq<Warning>)
  {
    (if byLength > 0 then [SuppressedByLength(byLength)] else [])
    + if byEnvelope > 0 then [SuppressedByEnvelope(byEnvelope)] else []
  }

  lemma {:induction false} KeepAppend(segments: seq<Segment>, s: Segment, drop: Segment -> bool)
    ensures Keep(segments + [s], drop) == Keep(segments, drop) + if drop(s) then [] else [s]
  {
    if segments == [] {
      assert [s][1..] == [] && Keep([s][1..], drop) == [];
    } else {
      assert (segments + [s])[1..] == segments[1..] + [s];
      KeepAppend(segments[1..], s, drop);
    }
  }

  /** `FilterSegments`: the kept segments, the new warnings, and the exact bounds of what was kept. */
  method FilterSegments(segments: seq<Segment>, warnings: seq<Warning>, bounds: Bounds)
    returns (filtered: seq<Segment>, allWarnings: seq<Warning>, newBounds: Bounds)
    ensures filtered == Filtered(segments, bounds)
    ensures segments == [] || !bounds.has ==> newBounds == bounds && allWarnings == warnings
    ensures segments != [] && bounds.has ==>
      && Exact(newBounds, filtered)
      && var short := KeepShort(segments, SpikeThreshold(bounds));
         && |filtered| <= |short| <= |segments|
         && allWarnings == warnings + Suppression(|segments| - |short|, |short| - |filtered|)
  {
    if |segments| == 0 || !bounds.has {
      return segments, warnings, bounds;
    }
    hide KeepShort, KeepInside, Exact, EnvelopesOf, SpikeThreshold;
    var lengthFiltered, suppressedByLength := LengthPass(segments, SpikeThreshold(bounds));
    allWarnings := warnings;
    if suppressedByLength > 0 {
      allWarnings := allWarnings + [SuppressedByLength(suppressedByLength)];
    }
    if |lengthFiltered| == 0 {
      NoBoundsExact();
      return [], allWarnings, NO_BOUNDS;
    }
    var e := ComputeEnvelopes(lengthFiltered);
    var suppressedByEnvelope;
    filtered, newBounds, suppressedByEnvelope := EnvelopePass(lengthFiltered, e);
    if suppressedByEnvelope > 0 {
      allWarnings := allWarnings + [SuppressedByEnvelope(suppressedByEnvelope)];
    }
  }

  method LengthPass(segments: seq<Segment>, threshold: real) returns (kept: seq<Segment>, suppressed: nat)
    requires threshold >= 0.0
    ensures kept == KeepShort(segments, threshold) && |kept| + suppressed == |segments|
  {
    hide TooLong;
    kept, suppressed := [], 0;
    var i := 0;
    while i < |segments|
      invariant 0 <= i <= |segments|
      invariant kept == KeepShort(segments[..i], threshold) && |kept| + suppressed == i
    {
      KeepAppend(segments[..i], segments[i], LongerThan(threshold));
      assert segments[..i] + [segments[i]] == segments[..i + 1];
      if TooLong(segments[i], threshold) {
        suppressed := suppressed + 1;
      } else {
        kept := kept + [segments[i]];
      }
      i := i + 1;
    }
    assert segments[..i] == segments;
  }

  method EnvelopePass(segments: seq<Segment>, e: Envelopes)
    returns (kept: seq<Segment>, bounds: Bounds, suppressed: nat)
    ensures kept == KeepInside(segments, e) && |kept| + suppressed == |segments|
    ensures Exact(bounds, kept)
  {
    hide Exact, Outside, IncludeSegment;
    NoBoundsExact();
    kept, bounds, suppressed := [], NO_BOUNDS, 0;
    var i := 0;
    while i < |segments|
      invariant 0 <= i <= |segments|
      invariant kept == KeepInside(segments[..i], e) && |kept| + suppressed == i
      invariant Exact(bounds, kept)
    {
      KeepAppend(segments[..i], segments[i], OutsideOf(e));
      assert segments[..i] + [segments[i]] == segments[..i + 1];
      if Outside(segments[i], e) {
        suppressed := suppressed + 1;
      } else {
        IncludeKeepsExact(bounds, kept, segments[i]);
        kept := kept + [segments[i]];
        bounds := IncludeSegment(bounds, segments[i]);
      }
      i := i + 1;
    }
    assert segments[..i] == segments;
  }

  /** The endpoint lists, their percentiles and the margins. */
  method ComputeEnvelopes(segments: seq<Segment>) returns (e: Envelopes)
    ensures e == EnvelopesOf(segments)
  {
    var xValues, yValues, zValues, i := [], [], [], 0;
    while i < |segments|
      invariant 0 <= i <= |segments|
      invariant xValues == Values(segments[..i], X) && yValues == Values(segments[..i], Y)
      invariant zValues == Values(segments[..i], Z)
    {
      var s := segments[i];
      ValuesAppend(segments[..i], s, X);
      ValuesAppend(segments[..i], s, Y);
      ValuesAppend(segments[..i], s, Z);
      assert segments[..i] + [s] == segments[..i + 1];
      xValues := xValues + [s.start.x, s.end.x];
      yValues := yValues + [s.start.y, s.end.y];
      zValues := zValues + [s.start.z, s.end.z];
      i := i + 1;
    }
    assert segments[..i] == segments;
    var x := ComputeEnvelope(xValues);
    var y := ComputeEnvelope(yValues);
    var z := ComputeEnvelope(zValues);
    e := Envelopes(x, y, z);
  }

  method ComputeEnvelope(values: seq<real>) returns (e: Interval)
    ensures e == Envelope(values)
  {
    var innerMin, sorted := Percentile.GetPercentile(values, 0.02);
    var innerMax, _ := Percentile.GetPercentile(sorted, 0.98);
    Percentile.PercentileOfSorted(values, 0.98);
    var margin := Max((innerMax - innerMin) * 0.75, MINIMUM_ENVELOPE_MARGIN);
    e := Interval(innerMin - margin, innerMax + margin);
  }
}
