/** From lines of words to a filtered toolpath. The points of a tessellated arc are an input of the line. */
module GCodeParser {
  import opened Wrappers
  import opened Toolpath
  import opened ToolpathFilter
  import FilterProperties

  const INCH_TO_MILLIMETER := 25.4
  const POSITION_EPSILON := 0.0001
  const MINIMUM_ARC_SEGMENTS: nat := 8
  const MAXIMUM_ARC_SEGMENTS: nat := 96

  datatype Word = Word(letter: char, value: real)

  datatype Plane = XY | XZ | YZ

  datatype Modal = Modal(
    motion: Motion, plane: Plane, inches: bool, isAbsolute: bool, spindleOn: bool, position: Point)

  const INITIAL_MODAL := Modal(NoMotion, XY, false, true, false, Point(0.0, 0.0, 0.0))

  datatype Arguments = Arguments(
    x: Option<real>, y: Option<real>, z: Option<real>,
    i: Option<real>, j: Option<real>, k: Option<real>, r: Option<real>)

  const NO_ARGUMENTS := Arguments(None, None, None, None, None, None, None)

  /** A line after comments are stripped and words are read; `arc` is what tessellation yields if it draws an arc. */
  datatype Line = Line(words: seq<Word>, arc: seq<Point>)
  {
    predicate Valid()
    {
      MINIMUM_ARC_SEGMENTS <= |arc| <= MAXIMUM_ARC_SEGMENTS
    }
  }

  // ----- words -----

  /** Rounding to the nearest integer, halves to the even one. */
  function Round(value: real): (n: int)
    ensures -0.5 <= value - n as real <= 0.5
  {
    var f := value.Floor;
    var rest := value - f as real;
    if rest < 0.5 || (rest == 0.5 && f % 2 == 0) then f else f + 1
  }

  function ToMillimeters(value: real, inches: bool): (mm: real)
  {
    if inches then value * INCH_TO_MILLIMETER else value
  }

  /** What the words read so far have set. */
  datatype Scan = Scan(
    modal: Modal, lineMotion: Motion, motionChanged: bool, suppress: bool, args: Arguments, warnings: seq<Warning>)

  predicate SilentlyIgnored(code: int)
  {
    code == 43 || code == 49 || 54 <= code <= 59 || code == 69 || 93 <= code <= 95
  }

  function ApplyG(s: Scan, code: int, line: nat): (t: Scan)
  {
    if code == 0 then s.(lineMotion := Rapid, motionChanged := true)
    else if code == 1 then s.(lineMotion := Linear, motionChanged := true)
    else if code == 2 then s.(lineMotion := ArcClockwise, motionChanged := true)
    else if code == 3 then s.(lineMotion := ArcCounterClockwise, motionChanged := true)
    else if code == 17 then s.(modal := s.modal.(plane := XY))
    else if code == 18 then s.(modal := s.modal.(plane := XZ))
    else if code == 19 then s.(modal := s.modal.(plane := YZ))
    else if code == 20 then s.(modal := s.modal.(inches := true))
    else if code == 21 then s.(modal := s.modal.(inches := false))
    else if code == 53 then s.(suppress := true)
    else if code == 90 then s.(modal := s.modal.(isAbsolute := true))
    else if code == 91 then s.(modal := s.modal.(isAbsolute := false))
    else if !SilentlyIgnored(code) && 4 <= code <= 99 then s.(warnings := s.warnings + [UnsupportedCode(line, code)])
    else s
  }

  function ApplyM(modal: Modal, code: int): (m: Modal)
  {
    if code == 3 || code == 4 then modal.(spindleOn := true)
    else if code == 5 then modal.(spindleOn := false)
    else modal
  }

  function ApplyWord(s: Scan, w: Word, line: nat): (t: Scan)
  {
    var mm := Some(ToMillimeters(w.value, s.modal.inches));
    match w.letter
    case 'G' => ApplyG(s, Round(w.value), line)
    case 'M' => s.(modal := ApplyM(s.modal, Round(w.value)))
    case 'X' => s.(args := s.args.(x := mm))
    case 'Y' => s.(args := s.args.(y := mm))
    case 'Z' => s.(args := s.args.(z := mm))
    case 'I' => s.(args := s.args.(i := mm))
    case 'J' => s.(args := s.args.(j := mm))
    case 'K' => s.(args := s.args.(k := mm))
    case 'R' => s.(args := s.args.(r := mm))
    case _ => s
  }

  function ScanWords(s: Scan, words: seq<Word>, line: nat): (t: Scan)
    decreases |words|
  {
    if words == [] then s else ScanWords(ApplyWord(s, words[0], line), words[1..], line)
  }

  function ScanLine(modal: Modal, words: seq<Word>, line: nat): (t: Scan)
  {
    ScanWords(Scan(modal, modal.motion, false, false, NO_ARGUMENTS, []), words, line)
  }

  // ----- moves -----

  function ValueOr(v: Option<real>, default: real): (r: real)
  {
    if v.Some? then v.value else default
  }

  function ResolveTarget(current: Point, isAbsolute: bool, a: Arguments): (p: Point)
  {
    if isAbsolute then Point(ValueOr(a.x, current.x), ValueOr(a.y, current.y), ValueOr(a.z, current.z))
    else Point(current.x + ValueOr(a.x, 0.0), current.y + ValueOr(a.y, 0.0), current.z + ValueOr(a.z, 0.0))
  }

  predicate Close(a: real, b: real)
  {
    -POSITION_EPSILON < a - b < POSITION_EPSILON
  }

  predicate PositionsMatch(p: Point, q: Point)
  {
    Close(p.x, q.x) && Close(p.y, q.y) && Close(p.z, q.z)
  }

  /** The center offsets that matter in a plane. */
  function Offsets(plane: Plane, a: Arguments): (offsets: (Option<real>, Option<real>))
  {
    match plane
    case XY => (a.i, a.j)
    case XZ => (a.i, a.k)
    case YZ => (a.j, a.k)
  }

  /** Why an arc is drawn as a straight line, if it is; the radius is compared as a square. */
  function ArcRefusal(plane: Plane, a: Arguments, line: nat): (w: Option<Warning>)
  {
    var (u, v) := Offsets(plane, a);
    if a.r.Some? then Some(RadiusSyntax(line))
    else if u.None? || v.None? then Some(IncompleteCenter(line))
    else if u.value * u.value + v.value * v.value < POSITION_EPSILON * POSITION_EPSILON then Some(RadiusTooSmall(line))
    else None
  }

  /** One segment from each point to the next. */
  function Polyline(start: Point, points: seq<Point>, motion: Motion, line: nat): (segments: seq<Segment>)
    ensures |segments| == |points|
    decreases |points|
  {
    if points == [] then []
    else [Segment(start, points[0], motion, line)] + Polyline(points[0], points[1..], motion, line)
  }

  /** What one line adds. */
  datatype Effect = Effect(modal: Modal, segments: seq<Segment>, warnings: seq<Warning>)

  function Move(m: Modal, a: Arguments, arc: seq<Point>, line: nat, warnings: seq<Warning>): (e: Effect)
  {
    var target := ResolveTarget(m.position, m.isAbsolute, a);
    var moved := m.(position := target);
    if m.motion == Rapid || m.motion == Linear then
      Effect(moved, [Segment(m.position, target, m.motion, line)], warnings)
    else match ArcRefusal(m.plane, a, line)
      case Some(w) => Effect(moved, [Segment(m.position, target, Linear, line)], warnings + [w])
      case None => Effect(moved, Polyline(m.position, arc, m.motion, line), warnings)
  }

  function EffectOf(modal: Modal, l: Line, line: nat): (e: Effect)
  {
    var s := ScanLine(modal, l.words, line);
    var m := if s.motionChanged then s.modal.(motion := s.lineMotion) else s.modal;
    if s.args.x.None? && s.args.y.None? && s.args.z.None? then Effect(m, [], s.warnings)
    else if m.motion == NoMotion then Effect(m, [], s.warnings + [MotionIgnored(line)])
    else if PositionsMatch(m.position, ResolveTarget(m.position, m.isAbsolute, s.args)) || s.suppress then
      Effect(m, [], s.warnings)
    else Move(m, s.args, l.arc, line, s.warnings)
  }

  /** All segments of a program; lines are numbered from one. */
  function Parsed(lines: seq<Line>): (e: Effect)
  {
    var n := |lines|;
    if n == 0 then Effect(INITIAL_MODAL, [], [])
    else
      var before := Parsed(lines[..n - 1]);
      var e := EffectOf(before.modal, lines[n - 1], n);
      Effect(e.modal, before.segments + e.segments, before.warnings + e.warnings)
  }

  /** The toolpath that is shown. */
  function Preview(lines: seq<Line>): (segments: seq<Segment>)
  {
    Filtered(Parsed(lines).segments, BoundsOf(Parsed(lines).segments))
  }

  // ----- the parser -----

  datatype Document = Document(segments: seq<Segment>, warnings: seq<Warning>, totalLines: nat, bounds: Bounds)

  class Parser {
    var modal: Modal
    var segments: seq<Segment>
    var warnings: seq<Warning>
    var bounds: Bounds

    ghost predicate Valid()
      reads this
    {
      bounds == BoundsOf(segments)
    }

    constructor ()
      ensures Valid() && modal == INITIAL_MODAL && segments == [] && warnings == []
    {
      modal, segments, warnings, bounds := INITIAL_MODAL, [], [], NO_BOUNDS;
    }

    method AddSegment(start: Point, end: Point, motion: Motion, lineNumber: nat)
      requires Valid()
      modifies this`segments, this`bounds
      ensures Valid() && segments == old(segments) + [Segment(start, end, motion, lineNumber)]
    {
      segments := segments + [Segment(start, end, motion, lineNumber)];
      bounds := IncludePoint(bounds, start);
      bounds := IncludePoint(bounds, end);
      assert segments[..|segments| - 1] == old(segments);
    }

    method AddArcSegments(start: Point, points: seq<Point>, motion: Motion, lineNumber: nat)
      requires Valid()
      modifies this`segments, this`bounds
      ensures Valid() && segments == old(segments) + Polyline(start, points, motion, lineNumber)
    {
      hide IncludePoint, BoundsOf;
      var previous, step := start, 0;
      while step < |points|
        invariant 0 <= step <= |points| && Valid()
        invariant segments + Polyline(previous, points[step..], motion, lineNumber)
               == old(segments) + Polyline(start, points, motion, lineNumber)
      {
        assert points[step..][1..] == points[step + 1..];
        AddSegment(previous, points[step], motion, lineNumber);
        previous, step := points[step], step + 1;
      }
    }

    method ProcessLine(l: Line, lineNumber: nat)
      requires Valid()
      modifies this
      ensures Valid()
      ensures var e := EffectOf(old(modal), l, lineNumber);
        && modal == e.modal && segments == old(segments) + e.segments && warnings == old(warnings) + e.warnings
    {
      hide BoundsOf, ApplyWord, ResolveTarget, PositionsMatch, ArcRefusal, Polyline;
      var s, n := Scan(modal, modal.motion, false, false, NO_ARGUMENTS, []), 0;
      while n < |l.words|
        invariant 0 <= n <= |l.words|
        invariant ScanWords(s, l.words[n..], lineNumber) == ScanLine(old(modal), l.words, lineNumber)
      {
        assert l.words[n..][1..] == l.words[n + 1..];
        s := ApplyWord(s, l.words[n], lineNumber);
        n := n + 1;
      }
      modal, warnings := s.modal, warnings + s.warnings;
      if s.motionChanged {
        modal := modal.(motion := s.lineMotion);
      }
      if s.args.x.None? && s.args.y.None? && s.args.z.None? {
        return;
      }
      if modal.motion == NoMotion {
        warnings := warnings + [MotionIgnored(lineNumber)];
        return;
      }
      var target := ResolveTarget(modal.position, modal.isAbsolute, s.args);
      if PositionsMatch(modal.position, target) {
        return;
      }
      if s.suppress {
        return;
      }
      if modal.motion == Rapid || modal.motion == Linear {
        AddSegment(modal.position, target, modal.motion, lineNumber);
      } else {
        var refusal := ArcRefusal(modal.plane, s.args, lineNumber);
        if refusal.Some? {
          warnings := warnings + [refusal.value];
          AddSegment(modal.position, target, Linear, lineNumber);
        } else {
          AddArcSegments(modal.position, l.arc, modal.motion, lineNumber);
        }
      }
      modal := modal.(position := target);
    }

    /** Reads every line in order, then filters. */
    method Parse(lines: seq<Line>) returns (document: Document)
      requires Valid() && modal == INITIAL_MODAL && segments == [] && warnings == []
      modifies this
      ensures document.segments == Preview(lines) && document.totalLines == |lines|
      ensures |document.segments| <= |Parsed(lines).segments|
      ensures document.warnings
           == Parsed(lines).warnings + Suppression(0, |Parsed(lines).segments| - |document.segments|)
      ensures Exact(document.bounds, document.segments)
    {
      hide EffectOf, Exact, BoundsOf;
      var totalLines := 0;
      while totalLines < |lines|
        invariant 0 <= totalLines <= |lines| && Valid()
        invariant Effect(modal, segments, warnings) == Parsed(lines[..totalLines])
      {
        ghost var before := lines[..totalLines];
        totalLines := totalLines + 1;
        assert lines[..totalLines][..totalLines - 1] == before;
        ProcessLine(lines[totalLines - 1], totalLines);
      }
      assert lines[..totalLines] == lines;
      BoundsAreExact(segments);
      FilterProperties.LengthPassIsIdentity(segments, bounds);
      EmptyWithoutBounds(segments);
      var filtered, allWarnings, newBounds := FilterSegments(segments, warnings, bounds);
      document := Document(filtered, allWarnings, totalLines, newBounds);
    }
  }

  lemma {:induction false} EmptyWithoutBounds(segments: seq<Segment>)
    ensures BoundsOf(segments).has <==> segments != []
  {
    BoundsAreExact(segments);
  }

  // ----- what a parse guarantees -----

  /** Source lines start at `first` and never go back. */
  ghost predicate InSourceOrder(segments: seq<Segment>, first: nat)
    decreases |segments|
  {
    segments == [] || (first <= segments[0].sourceLine && InSourceOrder(segments[1..], segments[0].sourceLine))
  }

  ghost predicate AtMost(segments: seq<Segment>, last: nat)
  {
    forall k :: 0 <= k < |segments| ==> segments[k].sourceLine <= last
  }

  lemma {:induction false} OrderAppend(a: seq<Segment>, b: seq<Segment>, first: nat, last: nat)
    requires InSourceOrder(a, first) && AtMost(a, last) && InSourceOrder(b, last) && first <= last
    ensures InSourceOrder(a + b, first)
    decreases |a|
  {
    if a == [] {
      assert a + b == b;
    } else {
      assert (a + b)[1..] == a[1..] + b;
      OrderAppend(a[1..], b, a[0].sourceLine, last);
    }
  }

  lemma {:induction false} PolylineOnOneLine(start: Point, points: seq<Point>, motion: Motion, line: nat)
    ensures InSourceOrder(Polyline(start, points, motion, line), line)
    ensures AtMost(Polyline(start, points, motion, line), line)
    decreases |points|
  {
    if points != [] {
      PolylineOnOneLine(points[0], points[1..], motion, line);
    }
  }

  lemma {:induction false} EffectOnOneLine(modal: Modal, l: Line, line: nat)
    ensures InSourceOrder(EffectOf(modal, l, line).segments, line) && AtMost(EffectOf(modal, l, line).segments, line)
  {
    hide ScanLine, ResolveTarget, PositionsMatch, ArcRefusal;
    var s := ScanLine(modal, l.words, line);
    var m := if s.motionChanged then s.modal.(motion := s.lineMotion) else s.modal;
    PolylineOnOneLine(m.position, l.arc, m.motion, line);
  }

  /** Every segment carries the number of an existing line, in order. */
  lemma {:induction false} ParsedInSourceOrder(lines: seq<Line>)
    ensures InSourceOrder(Parsed(lines).segments, 1) && AtMost(Parsed(lines).segments, |lines|)
  {
    hide EffectOf;
    var n := |lines|;
    if n > 0 {
      var before := Parsed(lines[..n - 1]);
      ParsedInSourceOrder(lines[..n - 1]);
      EffectOnOneLine(before.modal, lines[n - 1], n);
      OrderAppend(before.segments, EffectOf(before.modal, lines[n - 1], n).segments, 1, n);
    }
  }

  lemma {:induction false} SubsequenceInOrder(a: seq<Segment>, b: seq<Segment>, first: nat)
    requires FilterProperties.Subsequence(a, b) && InSourceOrder(b, first)
    ensures InSourceOrder(a, first)
    decreases |b|
  {
    if a != [] {
      LaterStart(b[1..], first, b[0].sourceLine);
      if a[0] == b[0] && FilterProperties.Subsequence(a[1..], b[1..]) {
        SubsequenceInOrder(a[1..], b[1..], b[0].sourceLine);
      } else {
        SubsequenceInOrder(a, b[1..], first);
      }
    }
  }

  lemma {:induction false} LaterStart(segments: seq<Segment>, first: nat, later: nat)
    requires first <= later && InSourceOrder(segments, later)
    ensures InSourceOrder(segments, first)
  {
  }

  lemma {:induction false} PreviewInSourceOrder(lines: seq<Line>)
    ensures InSourceOrder(Preview(lines), 1)
  {
    hide Filtered, Parsed, BoundsOf;
    var segments := Parsed(lines).segments;
    ParsedInSourceOrder(lines);
    FilterProperties.FilteredIsSubsequence(segments, BoundsOf(segments));
    SubsequenceInOrder(Preview(lines), segments, 1);
  }

  /** A program that draws anything is shown: the filter drops at most 6 * ceil(0.02 * (2n - 1)) of its n segments. */
  lemma {:induction false} PreviewNeverEmpty(lines: seq<Line>)
    requires Parsed(lines).segments != []
    ensures var n := |Parsed(lines).segments|;
      && Preview(lines) != []
      && n - |Preview(lines)| <= 6 * ((2 * n - 1 + 49) / 50)
      && (n <= 11 ==> Preview(lines) == Parsed(lines).segments)
  {
    hide Filtered, Parsed, BoundsOf, Exact;
    BoundsAreExact(Parsed(lines).segments);
    FilterProperties.FilterBound(Parsed(lines).segments, BoundsOf(Parsed(lines).segments));
  }

  /** A line draws exactly when it moves: the position changes if and only if segments are added, and the first of them
      starts where the machine was. */
  lemma {:induction false} DrawsIffMoves(modal: Modal, l: Line, line: nat)
    requires l.Valid()
    ensures var e := EffectOf(modal, l, line);
      && (e.segments != [] <==> e.modal.position != modal.position)
      && (e.segments != [] ==> e.segments[0].start == modal.position)
  {
    hide ApplyWord, ScanWords, ArcRefusal;
    ScanKeepsPosition(Scan(modal, modal.motion, false, false, NO_ARGUMENTS, []), l.words, line);
  }

  lemma {:induction false} ScanKeepsPosition(s: Scan, words: seq<Word>, line: nat)
    ensures ScanWords(s, words, line).modal.position == s.modal.position
    decreases |words|
  {
    hide ApplyWord;
    if words != [] {
      WordKeepsPosition(s, words[0], line);
      ScanKeepsPosition(ApplyWord(s, words[0], line), words[1..], line);
    }
  }

  lemma {:induction false} WordKeepsPosition(s: Scan, w: Word, line: nat)
    ensures ApplyWord(s, w, line).modal.position == s.modal.position
  {
    hide Round, SilentlyIgnored, ToMillimeters;
  }
}
