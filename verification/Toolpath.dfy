/** Points, toolpath segments and the running bounding box. Coordinates are reals: rounding is not modelled. */
module Toolpath {
  datatype Axis = X | Y | Z

  datatype Point = Point(x: real, y: real, z: real)
  {
    function At(axis: Axis): (v: real)
    {
      match axis case X => x case Y => y case Z => z
    }
  }

  datatype Motion = NoMotion | Rapid | Linear | ArcClockwise | ArcCounterClockwise

  datatype Segment = Segment(start: Point, end: Point, motion: Motion, sourceLine: nat)

  datatype Warning =
    | MotionIgnored(line: nat)
    | UnsupportedCode(line: nat, code: int)
    | RadiusSyntax(line: nat)
    | IncompleteCenter(line: nat)
    | RadiusTooSmall(line: nat)
    | SuppressedByLength(count: nat)
    | SuppressedByEnvelope(count: nat)

  datatype Interval = Interval(lo: real, hi: real)

  datatype Bounds = Bounds(has: bool, x: Interval, y: Interval, z: Interval)
  {
    function Of(axis: Axis): (i: Interval)
    {
      match axis case X => x case Y => y case Z => z
    }
  }

  const NO_BOUNDS := Bounds(false, Interval(0.0, 0.0), Interval(0.0, 0.0), Interval(0.0, 0.0))

  function Min(a: real, b: real): (m: real)
  {
    if a < b then a else b
  }

  function Max(a: real, b: real): (m: real)
  {
    if a < b then b else a
  }

  function Widen(i: Interval, v: real): (j: Interval)
  {
    Interval(Min(i.lo, v), Max(i.hi, v))
  }

  function IncludePoint(b: Bounds, p: Point): (c: Bounds)
  {
    if !b.has then Bounds(true, Interval(p.x, p.x), Interval(p.y, p.y), Interval(p.z, p.z))
    else Bounds(true, Widen(b.x, p.x), Widen(b.y, p.y), Widen(b.z, p.z))
  }

  function IncludeSegment(b: Bounds, s: Segment): (c: Bounds)
  {
    IncludePoint(IncludePoint(b, s.start), s.end)
  }

  /** The coordinates of all endpoints along one axis, in order. */
  function Values(segments: seq<Segment>, axis: Axis): (values: seq<real>)
    ensures |values| == 2 * |segments|
  {
    if segments == [] then []
    else [segments[0].start.At(axis), segments[0].end.At(axis)] + Values(segments[1..], axis)
  }

  /** The interval from the smallest to the largest of the values. */
  ghost predicate Spans(i: Interval, values: seq<real>)
  {
    (forall v :: v in values ==> i.lo <= v <= i.hi) && i.lo in values && i.hi in values
  }

  /** The exact bounding box of the endpoints, if there are any. */
  ghost predicate Exact(b: Bounds, segments: seq<Segment>)
  {
    (b.has <==> segments != []) && forall axis :: b.has ==> Spans(b.Of(axis), Values(segments, axis))
  }

  lemma {:induction false} ValuesAppend(segments: seq<Segment>, s: Segment, axis: Axis)
    ensures Values(segments + [s], axis) == Values(segments, axis) + [s.start.At(axis), s.end.At(axis)]
  {
    if segments == [] {
      assert [s][1..] == [];
    } else {
      assert (segments + [s])[1..] == segments[1..] + [s];
      ValuesAppend(segments[1..], s, axis);
    }
  }

  /** Including one more segment keeps the box exact. */
  lemma {:induction false} IncludeKeepsExact(b: Bounds, segments: seq<Segment>, s: Segment)
    requires Exact(b, segments)
    ensures Exact(IncludeSegment(b, s), segments + [s])
  {
    hide Values;
    forall axis ensures Spans(IncludeSegment(b, s).Of(axis), Values(segments + [s], axis)) {
      ValuesAppend(segments, s, axis);
      var v := Values(segments, axis);
      var w := v + [s.start.At(axis), s.end.At(axis)];
      assert w[|v|] == s.start.At(axis) && w[|v| + 1] == s.end.At(axis);
      assert b.has ==> b.Of(axis).lo in w && b.Of(axis).hi in w;
      assert !b.has ==> v == [] by {
        if !b.has {
          assert |v| == 0;
        }
      }
    }
  }

  /** The bounds after including every segment in order. */
  function BoundsOf(segments: seq<Segment>): (b: Bounds)
  {
    var n := |segments|;
    if n == 0 then NO_BOUNDS else IncludeSegment(BoundsOf(segments[..n - 1]), segments[n - 1])
  }

  lemma {:induction false} BoundsAreExact(segments: seq<Segment>)
    ensures Exact(BoundsOf(segments), segments)
  {
    hide Exact, IncludeSegment;
    var n := |segments|;
    if n == 0 {
      NoBoundsExact();
    } else {
      BoundsAreExact(segments[..n - 1]);
      IncludeKeepsExact(BoundsOf(segments[..n - 1]), segments[..n - 1], segments[n - 1]);
      assert segments[..n - 1] + [segments[n - 1]] == segments;
    }
  }

  lemma {:induction false} NoBoundsExact()
    ensures Exact(NO_BOUNDS, [])
  {
  }

  lemma {:induction false} EndpointsInValues(segments: seq<Segment>, k: nat, axis: Axis)
    requires k < |segments|
    ensures segments[k].start.At(axis) in Values(segments, axis) && segments[k].end.At(axis) in Values(segments, axis)
    decreases k
  {
    var v := Values(segments, axis);
    assert v[0] == segments[0].start.At(axis) && v[1] == segments[0].end.At(axis);
    if k > 0 {
      EndpointsInValues(segments[1..], k - 1, axis);
      assert forall x :: x in Values(segments[1..], axis) ==> x in v;
    }
  }

  /** Every endpoint lies in the bounding box. */
  lemma {:induction false} EndpointsInBounds(b: Bounds, segments: seq<Segment>, k: nat, axis: Axis)
    requires Exact(b, segments) && k < |segments|
    ensures b.Of(axis).lo <= segments[k].start.At(axis) <= b.Of(axis).hi
    ensures b.Of(axis).lo <= segments[k].end.At(axis) <= b.Of(axis).hi
  {
    EndpointsInValues(segments, k, axis);
  }
}
