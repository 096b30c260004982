/** The three indexes over the source lines of a toolpath, and the searches that must agree with one another. */
module Playback {
  import opened Toolpath
  import opened GCodeParser

  // ----- what the indexes mean -----

  /** How many segments belong to lines up to `line`. */
  function CompletedUpTo(segments: seq<Segment>, line: int): (n: nat)
    ensures n <= |segments|
  {
    if segments == [] then 0 else (if segments[0].sourceLine <= line then 1 else 0) + CompletedUpTo(segments[1..], line)
  }

  /** The distinct source lines in order: a new entry wherever the line differs from the one before it. */
  function LinesAfter(segments: seq<Segment>, last: int): (lines: seq<int>)
    decreases |segments|
  {
    if segments == [] then []
    else if segments[0].sourceLine == last then LinesAfter(segments[1..], last)
    else [segments[0].sourceLine as int] + LinesAfter(segments[1..], segments[0].sourceLine)
  }

  const NO_LINE: int := -0x8000_0000

  function Keyframes(segments: seq<Segment>): (lines: seq<int>)
  {
    LinesAfter(segments, NO_LINE)
  }

  datatype PlaybackFrame = PlaybackFrame(sourceLine: int, startIndex: int, endIndex: int, position: Point)

  /** Frame 0 stands for the start; every other frame is one maximal run of segments of the same line, and the runs
      follow one another up to segment `n - 1`. */
  ghost predicate Tiles(frames: seq<PlaybackFrame>, segments: seq<Segment>, n: nat)
  {
    && segments != [] && n <= |segments| && frames != []
    && frames[0] == PlaybackFrame(0, -1, -1, segments[0].start)
    && frames[|frames| - 1].endIndex == n - 1
    && (forall k :: 0 < k < |frames| ==>
          IsRun(frames[k], segments) && frames[k].startIndex == frames[k - 1].endIndex + 1)
  }

  ghost predicate IsRun(f: PlaybackFrame, segments: seq<Segment>)
  {
    && 0 <= f.startIndex <= f.endIndex < |segments|
    && (forall i :: f.startIndex <= i <= f.endIndex ==> segments[i].sourceLine == f.sourceLine)
    && (f.endIndex + 1 < |segments| ==> segments[f.endIndex + 1].sourceLine != f.sourceLine)
    && f.position == segments[f.endIndex].end
  }

  ghost predicate Ascending(lines: seq<int>)
  {
    forall i, j :: 0 <= i < j < |lines| ==> lines[i] <= lines[j]
  }

  ghost predicate StrictlyAscending(lines: seq<int>)
  {
    forall i, j :: 0 <= i < j < |lines| ==> lines[i] < lines[j]
  }

  function SourceLines(segments: seq<Segment>): (lines: seq<int>)
    ensures |lines| == |segments|
    ensures forall i :: 0 <= i < |lines| ==> lines[i] == segments[i].sourceLine
  {
    if segments == [] then [] else [segments[0].sourceLine as int] + SourceLines(segments[1..])
  }

  function LinesOf(frames: seq<PlaybackFrame>): (lines: seq<int>)
    ensures |lines| == |frames|
    ensures forall i :: 0 <= i < |lines| ==> lines[i] == frames[i].sourceLine
  {
    if frames == [] then [] else [frames[0].sourceLine] + LinesOf(frames[1..])
  }

  /** The number of leading entries up to `line`: where a binary search over sorted lines must end. */
  ghost predicate SplitsAt(lines: seq<int>, line: int, n: nat)
  {
    n <= |lines|
    && (forall i :: 0 <= i < n ==> lines[i] <= line)
    && (forall i :: n <= i < |lines| ==> line < lines[i])
  }

  lemma {:induction false} SplitIsUnique(lines: seq<int>, line: int, n: nat, m: nat)
    requires SplitsAt(lines, line, n) && SplitsAt(lines, line, m)
    ensures n == m
  {
    assert n < |lines| ==> line < lines[n];
    assert m < |lines| ==> line < lines[m];
  }

  // ----- building the frames -----

  method CreatePlaybackFrame(segments: seq<Segment>, sourceLine: int, startIndex: nat, endIndex: nat)
    returns (frame: PlaybackFrame)
    requires endIndex < |segments|
    ensures frame == PlaybackFrame(sourceLine, startIndex, endIndex, segments[endIndex].end)
  {
    frame := PlaybackFrame(sourceLine, startIndex, endIndex, segments[endIndex].end);
  }

  lemma {:induction false} TilesExtend(frames: seq<PlaybackFrame>, segments: seq<Segment>, n: nat, frame: PlaybackFrame)
    requires Tiles(frames, segments, n) && IsRun(frame, segments) && frame.startIndex == n && frame.endIndex + 1 >= 0
    ensures Tiles(frames + [frame], segments, frame.endIndex + 1)
  {
    hide IsRun;
    var all := frames + [frame];
    forall k | 0 < k < |all| ensures IsRun(all[k], segments) && all[k].startIndex == all[k - 1].endIndex + 1 {
      assert k < |frames| ==> all[k] == frames[k] && IsRun(frames[k], segments);
      assert all[k - 1] == frames[k - 1];
    }
    assert frame.endIndex < |segments| by {
      EndsInside(frame, segments);
    }
  }

  lemma {:induction false} EndsInside(frame: PlaybackFrame, segments: seq<Segment>)
    requires IsRun(frame, segments)
    ensures 0 <= frame.endIndex < |segments|
  {
  }

  method BuildPlaybackFrames(segments: seq<Segment>) returns (frames: seq<PlaybackFrame>)
    ensures segments == [] ==> frames == []
    ensures segments != [] ==> Tiles(frames, segments, |segments|)
  {
    if |segments| == 0 {
      return [];
    }
    frames := [PlaybackFrame(0, -1, -1, segments[0].start)];
    assert Tiles(frames, segments, 0);
    hide Tiles;
    var frameStartIndex, currentLine: int, i := 0, segments[0].sourceLine, 1;
    var frame;
    while i < |segments|
      invariant 0 <= frameStartIndex < i <= |segments|
      invariant Tiles(frames, segments, frameStartIndex)
      invariant forall j :: frameStartIndex <= j < i ==> segments[j].sourceLine == currentLine
    {
      if segments[i].sourceLine != currentLine {
        frame := CreatePlaybackFrame(segments, currentLine, frameStartIndex, i - 1);
        TilesExtend(frames, segments, frameStartIndex, frame);
        frames := frames + [frame];
        frameStartIndex := i;
        currentLine := segments[i].sourceLine;
      }
      i := i + 1;
    }
    frame := CreatePlaybackFrame(segments, currentLine, frameStartIndex, |segments| - 1);
    TilesExtend(frames, segments, frameStartIndex, frame);
    frames := frames + [frame];
  }

  // ----- the searches -----

  /** The number of segments whose source line is at most `currentLine`. */
  method ComputeCompletedCount(segmentSourceLines: seq<int>, currentLine: int) returns (result: nat)
    requires Ascending(segmentSourceLines)
    ensures SplitsAt(segmentSourceLines, currentLine, result)
  {
    if |segmentSourceLines| == 0 {
      return 0;
    }
    var lo, hi := 0, |segmentSourceLines| - 1;
    result := 0;
    while lo <= hi
      invariant 0 <= lo <= hi + 1 <= |segmentSourceLines| && result == lo
      invariant forall i :: 0 <= i < lo ==> segmentSourceLines[i] <= currentLine
      invariant forall i :: hi < i < |segmentSourceLines| ==> currentLine < segmentSourceLines[i]
      decreases hi - lo
    {
      var mid := (lo + hi) / 2;
      if segmentSourceLines[mid] <= currentLine {
        result := mid + 1;
        lo := mid + 1;
      } else {
        hi := mid - 1;
      }
    }
  }

  /** The last frame at or before `sourceLine`; frame 0 when all later ones are after it, -1 when there are none. */
  method FindPlaybackFrameIndex(frames: seq<PlaybackFrame>, sourceLine: int) returns (result: int)
    requires Ascending(LinesOf(frames))
    ensures frames == [] ==> result == -1
    ensures frames != [] && sourceLine < frames[0].sourceLine ==> result == 0
    ensures frames != [] && frames[0].sourceLine <= sourceLine ==>
      0 <= result < |frames| && SplitsAt(LinesOf(frames), sourceLine, result + 1)
  {
    hide LinesOf;
    if |frames| == 0 {
      return -1;
    }
    ghost var lines := LinesOf(frames);
    var lo, hi := 0, |frames| - 1;
    result := 0;
    while lo <= hi
      invariant 0 <= lo <= hi + 1 <= |frames| && result == (if lo == 0 then 0 else lo - 1)
      invariant forall i :: 0 <= i < lo ==> lines[i] <= sourceLine
      invariant forall i :: hi < i < |frames| ==> sourceLine < lines[i]
      decreases hi - lo
    {
      var mid := (lo + hi) / 2;
      if frames[mid].sourceLine <= sourceLine {
        result := mid;
        lo := mid + 1;
      } else {
        hi := mid - 1;
      }
    }
  }

  class PlaybackCursor {
    var playbackLineSequence: seq<int>
    var playbackCursorIndex: int

    constructor ()
      ensures playbackLineSequence == [] && playbackCursorIndex == -1
    {
      playbackLineSequence, playbackCursorIndex := [], -1;
    }

    method RebuildPlaybackLineSequence(segments: seq<Segment>)
      modifies this
      ensures playbackLineSequence == Keyframes(segments) && playbackCursorIndex == -1
    {
      playbackCursorIndex := -1;
      if |segments| == 0 {
        playbackLineSequence := [];
        return;
      }
      var lines, lastLine, i := [], NO_LINE, 0;
      while i < |segments|
        invariant 0 <= i <= |segments|
        invariant lines + LinesAfter(segments[i..], lastLine) == Keyframes(segments)
        invariant playbackCursorIndex == -1
      {
        assert segments[i..][1..] == segments[i + 1..];
        if segments[i].sourceLine != lastLine {
          lines := lines + [segments[i].sourceLine];
          lastLine := segments[i].sourceLine;
        }
        i := i + 1;
      }
      playbackLineSequence := lines;
    }

    /** Binary search for the last keyframe at or before `line`, -1 if there is none. */
    method FindKeyframeIndex(line: int) returns (result: int)
      requires Ascending(playbackLineSequence)
      ensures -1 <= result && SplitsAt(playbackLineSequence, line, result + 1)
    {
      var lo, hi := 0, |playbackLineSequence| - 1;
      result := -1;
      while lo <= hi
        invariant 0 <= lo <= hi + 1 <= |playbackLineSequence| && result == lo - 1
        invariant forall i :: 0 <= i < lo ==> playbackLineSequence[i] <= line
        invariant forall i :: hi < i < |playbackLineSequence| ==> line < playbackLineSequence[i]
        decreases hi - lo
      {
        var mid := (lo + hi) / 2;
        if playbackLineSequence[mid] <= line {
          result := mid;
          lo := mid + 1;
        } else {
          hi := mid - 1;
        }
      }
    }

    /** Linear scan from the end for the same keyframe. */
    method ResolvePlaybackStartIndex(currentLine: int) returns (result: int)
      requires Ascending(playbackLineSequence)
      ensures -1 <= result && SplitsAt(playbackLineSequence, currentLine, result + 1)
    {
      if |playbackLineSequence| == 0 {
        return -1;
      }
      var i := |playbackLineSequence| - 1;
      while i >= 0
        invariant -1 <= i < |playbackLineSequence|
        invariant forall j :: i < j < |playbackLineSequence| ==> currentLine < playbackLineSequence[j]
      {
        if playbackLineSequence[i] <= currentLine {
          return i;
        }
        i := i - 1;
      }
      result := -1;
    }
  }

  // ----- the indexes are sorted -----

  lemma {:induction false} OrderMeansAscending(segments: seq<Segment>, first: nat)
    requires InSourceOrder(segments, first)
    ensures Ascending(SourceLines(segments)) && forall k :: 0 <= k < |segments| ==> first <= segments[k].sourceLine
    decreases |segments|
  {
    if segments != [] {
      var rest := segments[1..];
      OrderMeansAscending(rest, segments[0].sourceLine);
      forall i, j | 0 <= i < j < |segments| ensures SourceLines(segments)[i] <= SourceLines(segments)[j] {
        assert segments[j] == rest[j - 1];
        assert i > 0 ==> SourceLines(rest)[i - 1] <= SourceLines(rest)[j - 1];
      }
    }
  }

  lemma {:induction false} TilesAt(frames: seq<PlaybackFrame>, segments: seq<Segment>, k: nat)
    requires Tiles(frames, segments, |segments|) && k < |frames|
    ensures -1 <= frames[k].endIndex < |segments|
    ensures k > 0 ==> IsRun(frames[k], segments) && frames[k].startIndex == frames[k - 1].endIndex + 1
    ensures k == |frames| - 1 ==> frames[k].endIndex == |segments| - 1
  {
  }

  lemma {:induction false} RunEnds(f: PlaybackFrame, segments: seq<Segment>)
    requires IsRun(f, segments)
    ensures 0 <= f.startIndex <= f.endIndex < |segments|
    ensures segments[f.startIndex].sourceLine == f.sourceLine == segments[f.endIndex].sourceLine
    ensures f.endIndex + 1 < |segments| ==> segments[f.endIndex + 1].sourceLine != f.sourceLine
  {
  }

  lemma {:induction false} FramesAscend(frames: seq<PlaybackFrame>, segments: seq<Segment>, k: nat)
    requires Tiles(frames, segments, |segments|) && InSourceOrder(segments, 1) && k + 1 < |frames|
    ensures frames[k].endIndex + 1 < |segments|
    ensures segments[frames[k].endIndex + 1].sourceLine == frames[k + 1].sourceLine
    ensures frames[k].sourceLine < frames[k + 1].sourceLine
  {
    hide InSourceOrder, IsRun, SourceLines, LinesOf;
    OrderMeansAscending(segments, 1);
    TilesAt(frames, segments, k);
    TilesAt(frames, segments, k + 1);
    RunEnds(frames[k + 1], segments);
    if k > 0 {
      var e := frames[k].endIndex;
      RunEnds(frames[k], segments);
      assert SourceLines(segments)[e] <= SourceLines(segments)[e + 1];
    }
  }

  lemma {:induction false} FramesStrictlyAscend(frames: seq<PlaybackFrame>, segments: seq<Segment>, i: nat, j: nat)
    requires Tiles(frames, segments, |segments|) && InSourceOrder(segments, 1) && i < j < |frames|
    ensures frames[i].sourceLine < frames[j].sourceLine
    decreases j
  {
    hide Tiles, InSourceOrder;
    FramesAscend(frames, segments, j - 1);
    if i < j - 1 {
      FramesStrictlyAscend(frames, segments, i, j - 1);
    }
  }

  // ----- frames and keyframes list the same lines -----

  lemma {:induction false} SkipRun(segments: seq<Segment>, i: nat, j: nat, line: int)
    requires i <= j <= |segments| && forall k :: i <= k < j ==> segments[k].sourceLine == line
    ensures LinesAfter(segments[i..], line) == LinesAfter(segments[j..], line)
    decreases j - i
  {
    if i < j {
      assert segments[i..][1..] == segments[i + 1..];
      SkipRun(segments, i + 1, j, line);
    }
  }

  lemma {:induction false} NoLines(last: int)
    ensures LinesAfter([], last) == []
  {
  }

  lemma {:induction false} RunYieldsLine(f: PlaybackFrame, segments: seq<Segment>, last: int)
    requires IsRun(f, segments) && last != f.sourceLine
    ensures LinesAfter(segments[f.startIndex..], last)
         == [f.sourceLine] + LinesAfter(segments[f.endIndex + 1..], f.sourceLine)
  {
    assert segments[f.startIndex..][1..] == segments[f.startIndex + 1..];
    SkipRun(segments, f.startIndex + 1, f.endIndex + 1, f.sourceLine);
  }

  lemma {:induction false} KeyframesOfFrames(frames: seq<PlaybackFrame>, segments: seq<Segment>, k: nat, last: int)
    requires Tiles(frames, segments, |segments|) && InSourceOrder(segments, 1) && 0 < k <= |frames|
    requires k < |frames| ==> last < frames[k].sourceLine
    ensures 0 <= frames[k - 1].endIndex + 1 <= |segments|
    ensures LinesAfter(segments[frames[k - 1].endIndex + 1..], last) == LinesOf(frames[k..])
    decreases |frames| - k
  {
    hide Tiles, InSourceOrder, IsRun, LinesAfter;
    TilesAt(frames, segments, k - 1);
    NoLines(last);
    if k < |frames| {
      TilesAt(frames, segments, k);
      RunYieldsLine(frames[k], segments, last);
      if k + 1 < |frames| {
        FramesAscend(frames, segments, k);
      }
      KeyframesOfFrames(frames, segments, k + 1, frames[k].sourceLine);
      assert frames[k..][1..] == frames[k + 1..];
    } else {
      assert segments[frames[k - 1].endIndex + 1..] == [];
    }
  }

  /** The keyframe lines are the lines of all frames after the first. */
  lemma {:induction false} KeyframesAreFrames(frames: seq<PlaybackFrame>, segments: seq<Segment>)
    requires Tiles(frames, segments, |segments|) && InSourceOrder(segments, 1)
    ensures LinesOf(frames) == [0] + Keyframes(segments)
    ensures StrictlyAscending(LinesOf(frames)) && StrictlyAscending(Keyframes(segments))
  {
    hide InSourceOrder;
    if |frames| > 1 {
      FramesAscend(frames, segments, 0);
    }
    KeyframesOfFrames(frames, segments, 1, NO_LINE);
    assert segments[0..] == segments;
    forall i, j | 0 <= i < j < |frames| ensures LinesOf(frames)[i] < LinesOf(frames)[j] {
      FramesStrictlyAscend(frames, segments, i, j);
    }
    var all := LinesOf(frames);
    assert forall i :: 0 <= i < |Keyframes(segments)| ==> Keyframes(segments)[i] == all[i + 1];
  }

  // ----- agreement -----

  lemma {:induction false} SplitCounts(segments: seq<Segment>, line: int, n: nat)
    requires SplitsAt(SourceLines(segments), line, n)
    ensures CompletedUpTo(segments, line) == n
    decreases |segments|
  {
    if segments != [] {
      var rest := SourceLines(segments[1..]);
      assert forall i :: 0 <= i < |rest| ==> rest[i] == SourceLines(segments)[i + 1];
      SplitCounts(segments[1..], line, if n > 0 then n - 1 else 0);
    }
  }

  lemma {:induction false} FirstFrameIsEmpty(frames: seq<PlaybackFrame>, segments: seq<Segment>)
    requires Tiles(frames, segments, |segments|)
    ensures frames[0].endIndex == -1 && frames[0].sourceLine == 0 && |frames| > 1
  {
  }

  /** The segments up to the end of the found frame are exactly those completed. */
  lemma {:induction false} FrameSplitsSegments(frames: seq<PlaybackFrame>, segments: seq<Segment>, line: int, f: nat)
    requires Tiles(frames, segments, |segments|) && InSourceOrder(segments, 1) && f < |frames|
    requires f > 0 ==> frames[f].sourceLine <= line
    requires f + 1 < |frames| ==> line < frames[f + 1].sourceLine
    ensures frames[f].endIndex + 1 >= 0 && SplitsAt(SourceLines(segments), line, frames[f].endIndex + 1)
  {
    hide InSourceOrder, IsRun, Tiles, SourceLines, LinesOf;
    OrderMeansAscending(segments, 1);
    TilesAt(frames, segments, f);
    var lines, e := SourceLines(segments), frames[f].endIndex;
    if f > 0 {
      RunEnds(frames[f], segments);
    } else {
      FirstFrameIsEmpty(frames, segments);
    }
    forall i | 0 <= i <= e ensures lines[i] <= line {
      assert lines[i] <= lines[e];
    }
    if f + 1 < |frames| {
      FramesAscend(frames, segments, f);
      forall i | e < i < |lines| ensures line < lines[i] {
        assert lines[e + 1] <= lines[i];
      }
    }
  }

  lemma {:induction false} FrameAround(frames: seq<PlaybackFrame>, line: int, frame: nat)
    requires StrictlyAscending(LinesOf(frames)) && frames != []
    requires if line < frames[0].sourceLine then frame == 0
             else 0 <= frame < |frames| && SplitsAt(LinesOf(frames), line, frame + 1)
    ensures frame > 0 ==> frames[frame].sourceLine <= line
    ensures frame + 1 < |frames| ==> line < frames[frame + 1].sourceLine
  {
    assert forall i :: 0 <= i < |frames| ==> LinesOf(frames)[i] == frames[i].sourceLine;
  }

  /** Keyframes are the frames after frame 0, which lies before every segment. */
  lemma {:induction false} SplitOfKeyframes(keys: seq<int>, line: int, frame: nat)
    requires if line < 0 then frame == 0 else SplitsAt([0] + keys, line, frame + 1)
    requires StrictlyAscending([0] + keys)
    ensures SplitsAt(keys, line, frame)
  {
    var all := [0] + keys;
    forall i | 0 <= i < |keys| ensures keys[i] == all[i + 1] > all[0] {
    }
  }

  /** For every line the three indexes agree: the completed count is the number of segments up to that line and the end
      of the found frame, and the frame's index is one more than the keyframe both keyframe searches find. */
  lemma {:induction false} IndexesAgree(segments: seq<Segment>, frames: seq<PlaybackFrame>, line: int, count: nat,
                                        frame: int, keyframe: int)
    requires InSourceOrder(segments, 1) && Tiles(frames, segments, |segments|)
    requires SplitsAt(SourceLines(segments), line, count)
    requires -1 <= keyframe && SplitsAt(Keyframes(segments), line, keyframe + 1)
    requires if line < frames[0].sourceLine then frame == 0
             else 0 <= frame < |frames| && SplitsAt(LinesOf(frames), line, frame + 1)
    ensures frame == keyframe + 1 && 0 <= frame < |frames|
    ensures count == CompletedUpTo(segments, line) == frames[frame].endIndex + 1
  {
    hide InSourceOrder, Tiles, CompletedUpTo, Keyframes, SourceLines, StrictlyAscending, SplitsAt;
    KeyframesAreFrames(frames, segments);
    assert frames[0].sourceLine == LinesOf(frames)[0];
    SplitOfKeyframes(Keyframes(segments), line, frame);
    SplitIsUnique(Keyframes(segments), line, frame, keyframe + 1);
    FrameAround(frames, line, frame);
    FrameSplitsSegments(frames, segments, line, frame);
    SplitIsUnique(SourceLines(segments), line, count, frames[frame].endIndex + 1);
    SplitCounts(segments, line, count);
  }

  /** Every parsed program meets what the three searches ask for. */
  lemma {:induction false} PreviewIsSearchable(lines: seq<Line>, frames: seq<PlaybackFrame>)
    requires Preview(lines) == [] || Tiles(frames, Preview(lines), |Preview(lines)|)
    requires Preview(lines) == [] ==> frames == []
    ensures InSourceOrder(Preview(lines), 1)
    ensures Ascending(SourceLines(Preview(lines))) && Ascending(LinesOf(frames)) && Ascending(Keyframes(Preview(lines)))
  {
    hide Preview, InSourceOrder, Tiles;
    PreviewInSourceOrder(lines);
    OrderMeansAscending(Preview(lines), 1);
    if Preview(lines) != [] {
      KeyframesAreFrames(frames, Preview(lines));
    }
  }
}
