/** The desktop's windowed upload: up to eight chunks in flight, cumulative acknowledgements, whole-window resends. */
module UploadSender {
  import opened Bytes
  import opened Wrappers
  import opened Chunks
  import opened Firmware
  import Crc32

  const WINDOW: nat := 8
  const MAX_RETRIES: nat := 3

  /** A chunk that was sent and not yet acknowledged; also what one data frame carries. */
  datatype PendingChunk = PendingChunk(sequence: U32, data: seq<Byte>)

  /** Chunks `from` to `end - 1` of the file. */
  function Slices(source: seq<Byte>, from: nat, end: nat): (chunks: seq<PendingChunk>)
    requires from <= end <= ChunkCount(|source|) <= ALL_ONES
    ensures |chunks| == end - from
  {
    seq(end - from, i requires 0 <= i < end - from => PendingChunk(from + i, Chunk(source, from + i)))
  }

  lemma {:induction false} SliceOne(source: seq<Byte>, k: nat)
    requires k < ChunkCount(|source|) <= ALL_ONES
    ensures Slices(source, k, k + 1) == [PendingChunk(k, Chunk(source, k))]
  {
  }

  // ----- the sender's state -----

  datatype Sender = Sender(
    inFlight: seq<PendingChunk>, next: nat, highestAcked: U32, committed: nat, retries: nat, crc: U32)
  {
    /** The first chunk not yet acknowledged; `highestAcked` starts at the largest value and wraps to zero. */
    function Base(): (b: nat)
    {
      if highestAcked == ALL_ONES then 0 else highestAcked + 1
    }
  }

  /** What the state must be once chunks below `base` are acknowledged and chunks below `next` are sent. */
  ghost predicate SenderInv(s: Sender, source: seq<Byte>)
  {
    && ChunkCount(|source|) < ALL_ONES
    && s.Base() <= s.next <= ChunkCount(|source|) && s.next - s.Base() <= WINDOW
    && s.inFlight == Slices(source, s.Base(), s.next)
    && s.committed >= Committed(|source|, s.Base())
    && s.crc == Crc32.Running(source[..Committed(|source|, s.next)])
  }

  const START := Sender([], 0, ALL_ONES, 0, 0, ALL_ONES)

  /** The sender after reading, checking and sending one more chunk. */
  function Sent(s: Sender, source: seq<Byte>): (t: Sender)
    requires s.next < ChunkCount(|source|) <= ALL_ONES
  {
    var data := Chunk(source, s.next);
    s.(inFlight := s.inFlight + [PendingChunk(s.next, data)], next := s.next + 1, crc := Crc32.Register(s.crc, data))
  }

  /** The sender after filling its window. */
  function Filled(s: Sender, source: seq<Byte>): (t: Sender)
    requires ChunkCount(|source|) <= ALL_ONES
    decreases ChunkCount(|source|) - s.next
  {
    if s.next < ChunkCount(|source|) && |s.inFlight| < WINDOW then Filled(Sent(s, source), source) else s
  }

  // ----- acknowledgements -----

  datatype Ack = Ack(sequence: U32, committed: U32)

  predicate IsCommittedUploadAck(ack: Ack, committed: nat, chunkSize: nat, fileSize: nat)
  {
    if chunkSize <= 0 then ack.committed > committed
    else
      var expected := if fileSize < (ack.sequence + 1) * chunkSize then fileSize else (ack.sequence + 1) * chunkSize;
      ack.committed >= expected && ack.committed > committed
  }

  /** The test that ends the wait for an acknowledgement. */
  predicate Accepts(s: Sender, ack: Ack, size: nat)
  {
    && s.inFlight != [] && s.inFlight[0].sequence <= ack.sequence < s.next
    && IsCommittedUploadAck(ack, s.committed, CHUNK_SIZE, size)
  }

  /** The window without its acknowledged front. */
  function Remaining(inFlight: seq<PendingChunk>, sequence: U32): (rest: seq<PendingChunk>)
  {
    if inFlight != [] && inFlight[0].sequence <= sequence then Remaining(inFlight[1..], sequence) else inFlight
  }

  function Acked(s: Sender, ack: Ack): (t: Sender)
  {
    s.(inFlight := Remaining(s.inFlight, ack.sequence), highestAcked := ack.sequence,
       committed := if s.committed < ack.committed then ack.committed else s.committed, retries := 0)
  }

  /** In a window of consecutive chunks, dropping what is acknowledged leaves the chunks after it. */
  lemma {:induction false} RemainingSlices(source: seq<Byte>, from: nat, end: nat, sequence: U32)
    requires from <= sequence + 1 <= end <= ChunkCount(|source|) <= ALL_ONES
    ensures Remaining(Slices(source, from, end), sequence) == Slices(source, sequence + 1, end)
    decreases end - from
  {
    hide Chunk, ChunkCount;
    if from <= sequence {
      SlicesSplit(source, from, from + 1, end);
      RemainingSlices(source, from + 1, end, sequence);
    }
  }

  lemma {:induction false} SlicesSplit(source: seq<Byte>, from: nat, mid: nat, end: nat)
    requires from <= mid <= end <= ChunkCount(|source|) <= ALL_ONES
    ensures Slices(source, from, end) == Slices(source, from, mid) + Slices(source, mid, end)
    ensures Slices(source, from, end)[mid - from..] == Slices(source, mid, end)
  {
    hide Chunk, Committed;
    var all := Slices(source, from, end);
    assert forall i :: 0 <= i < |all| ==> all[i] == PendingChunk(from + i, Chunk(source, from + i));
  }

  lemma {:induction false} SlicesEmpty(source: seq<Byte>, k: nat)
    requires k <= ChunkCount(|source|) <= ALL_ONES
    ensures Slices(source, k, k) == []
  {
  }

  lemma {:induction false} CommittedCovers(ack: Ack, committed: nat, size: nat)
    requires IsCommittedUploadAck(ack, committed, CHUNK_SIZE, size)
    ensures Committed(size, ack.sequence + 1) <= ack.committed && committed < ack.committed
  {
  }

  lemma {:induction false} SentKeepsInv(s: Sender, source: seq<Byte>)
    requires SenderInv(s, source) && s.next < ChunkCount(|source|) && |s.inFlight| < WINDOW
    ensures SenderInv(Sent(s, source), source)
  {
    hide Slices, Chunk, Crc32.Register, Crc32.Running, Committed, ChunkCount;
    NextCrc(source, s.next);
    SliceOne(source, s.next);
    SlicesSplit(source, s.Base(), s.next, s.next + 1);
  }

  lemma {:induction false} FilledKeepsInv(s: Sender, source: seq<Byte>)
    requires SenderInv(s, source)
    ensures SenderInv(Filled(s, source), source)
    ensures s.next <= Filled(s, source).next && Filled(s, source).Base() == s.Base()
    ensures Filled(s, source).committed == s.committed && Filled(s, source).retries == s.retries
    ensures Filled(s, source).next == ChunkCount(|source|) || |Filled(s, source).inFlight| >= WINDOW
    ensures |s.inFlight| <= |Filled(s, source).inFlight|
    decreases ChunkCount(|source|) - s.next
  {
    hide Slices, Chunk, Crc32.Register, Crc32.Running, Committed;
    if s.next < ChunkCount(|source|) && |s.inFlight| < WINDOW {
      SentKeepsInv(s, source);
      FilledKeepsInv(Sent(s, source), source);
    }
  }

  lemma {:induction false} WindowFront(s: Sender, source: seq<Byte>)
    requires SenderInv(s, source)
    ensures |s.inFlight| == s.next - s.Base()
    ensures forall j :: 0 <= j < |s.inFlight| ==>
              s.inFlight[j] == PendingChunk(s.Base() + j, Chunk(source, s.Base() + j))
  {
  }

  lemma {:induction false} AckedKeepsInv(s: Sender, source: seq<Byte>, ack: Ack)
    requires SenderInv(s, source) && Accepts(s, ack, |source|)
    ensures SenderInv(Acked(s, ack), source)
    ensures Acked(s, ack).Base() == ack.sequence + 1 > s.Base()
    ensures Acked(s, ack).committed == ack.committed
  {
    WindowFront(s, source);
    CommittedCovers(ack, s.committed, |source|);
    hide Slices, Chunk, Crc32.Register, Crc32.Running, IsCommittedUploadAck, Committed, ChunkCount;
    assert Acked(s, ack).Base() == ack.sequence + 1;
    RemainingSlices(source, s.Base(), s.next, ack.sequence);
  }

  /** Every acknowledgement the firmware can emit is accepted exactly when it advances the window. */
  lemma {:induction false} AcceptedIffAdvances(s: Sender, source: seq<Byte>, ack: Ack)
    requires SenderInv(s, source) && s.inFlight != [] && s.committed == Committed(|source|, s.Base())
    requires ack.sequence < s.next && ack.committed == Committed(|source|, ack.sequence + 1)
    ensures Accepts(s, ack, |source|) <==> ack.sequence >= s.Base()
  {
  }

  // ----- what the sender puts on the link -----

  /** Every frame carries its own chunk of the file. */
  ghost predicate Genuine(sent: seq<PendingChunk>, source: seq<Byte>, next: nat)
  {
    next <= ChunkCount(|source|)
    && forall i :: 0 <= i < |sent| ==> sent[i].sequence < next && sent[i].data == Chunk(source, sent[i].sequence)
  }

  /** Where a receiver that only takes chunks in order stands after `frames`, or None if it met a gap. */
  function Accepted(expected: nat, frames: seq<PendingChunk>): (after: Option<nat>)
    decreases |frames|
  {
    if frames == [] then Some(expected)
    else if frames[0].sequence < expected then Accepted(expected, frames[1..])
    else if frames[0].sequence == expected then Accepted(expected + 1, frames[1..])
    else None
  }

  lemma {:induction false} AcceptedAppend(expected: nat, a: seq<PendingChunk>, b: seq<PendingChunk>)
    ensures Accepted(expected, a + b)
         == if Accepted(expected, a).None? then None else Accepted(Accepted(expected, a).value, b)
    decreases |a|
  {
    if a == [] {
      assert a + b == b;
    } else {
      assert (a + b)[1..] == a[1..] + b;
      AcceptedAppend(if a[0].sequence < expected then expected else expected + 1, a[1..], b);
    }
  }

  lemma {:induction false} AlreadyAccepted(expected: nat, frames: seq<PendingChunk>)
    requires forall i :: 0 <= i < |frames| ==> frames[i].sequence < expected
    ensures Accepted(expected, frames) == Some(expected)
    decreases |frames|
  {
    if frames != [] {
      AlreadyAccepted(expected, frames[1..]);
    }
  }

  // ----- the send loop -----

  /** What the acknowledgement channel yields next; the user may cancel and the file stream may fail in between. */
  datatype ChannelItem =
    | ChunkOk(transferId: Byte, ack: Ack)
    | Failed
    | Aborted
    | Other
    | Timeout
    | Cancel
    | ReadError

  datatype Waited = Got(ack: Ack) | TimedOut | Rejected | Cancelled

  datatype UploadResult = Finalizing(crc: U32) | GaveUp | ControllerFailed | UserCancelled | ReadFailed

  /** Waits for an acknowledgement that advances the window; anything else from the controller is discarded. */
  function Await(s: Sender, size: nat, transferId: Byte, channel: seq<ChannelItem>): (r: (Waited, seq<ChannelItem>))
    ensures r.0.Got? ==> Accepts(s, r.0.ack, size)
    ensures r.0 == Cancelled || |r.1| < |channel|
    decreases |channel|
  {
    if channel == [] then (Cancelled, [])
    else
      match channel[0]
      case Timeout => (TimedOut, channel[1..])
      case Failed => (Rejected, channel[1..])
      case Aborted => (Rejected, channel[1..])
      case Cancel => (Cancelled, channel[1..])
      case Other => Await(s, size, transferId, channel[1..])
      case ReadError => Await(s, size, transferId, channel[1..])
      case ChunkOk(id, ack) =>
        if id == transferId && Accepts(s, ack, size) then (Got(ack), channel[1..])
        else Await(s, size, transferId, channel[1..])
  }

  /** What ends the loop before a window is sent: a cancellation, or a failing read if there is anything to read. Chunks
      read before the failing one are never sent, so the failure is placed at the first read. */
  function Interruption(s: Sender, source: seq<Byte>, channel: seq<ChannelItem>): (r: Option<UploadResult>)
    ensures r.Some? ==> channel != [] && (r.value.UserCancelled? || r.value.ReadFailed?)
  {
    if channel == [] then None
    else if channel[0].Cancel? then Some(UserCancelled)
    else if channel[0].ReadError? && s.next < ChunkCount(|source|) && |s.inFlight| < WINDOW then Some(ReadFailed)
    else None
  }

  /** A finished transfer: its result, the sender's last state, every data frame in order, and the iterations taken. */
  datatype Transfer = Transfer(result: UploadResult, sender: Sender, frames: seq<PendingChunk>, iterations: nat)
  {
    function After(earlier: seq<PendingChunk>, n: nat): (whole: Transfer)
    {
      this.(frames := earlier + frames, iterations := n + iterations)
    }
  }

  /** The whole send loop, for any sequence of messages and timeouts on the acknowledgement channel. */
  function SendLoop(s: Sender, source: seq<Byte>, id: Byte, channel: seq<ChannelItem>): (u: Transfer)
    requires ChunkCount(|source|) <= ALL_ONES
    decreases |channel|
  {
    if s.Base() >= ChunkCount(|source|) then Transfer(Finalizing(ALL_ONES - s.crc), s, [], 0)
    else if Interruption(s, source, channel).Some? then Transfer(Interruption(s, source, channel).value, s, [], 1)
    else
      var t := Filled(s, source);
      var batch := if |s.inFlight| <= |t.inFlight| then t.inFlight[|s.inFlight|..] else [];
      var (waited, rest) := Await(t, |source|, id, channel);
      match waited
      case TimedOut =>
        var t1 := t.(retries := t.retries + 1);
        if t1.retries >= MAX_RETRIES then Transfer(GaveUp, t1, batch, 1)
        else SendLoop(t1, source, id, rest).After(batch + t.inFlight, 1)
      case Rejected => Transfer(ControllerFailed, t, batch, 1)
      case Cancelled => Transfer(UserCancelled, t, batch, 1)
      case Got(ack) => SendLoop(Acked(t, ack), source, id, rest).After(batch, 1)
  }

  lemma {:induction false} UnrollTimeout(s: Sender, source: seq<Byte>, id: Byte, channel: seq<ChannelItem>,
                                         f: seq<PendingChunk>, n: nat)
    requires s.Base() < ChunkCount(|source|) <= ALL_ONES && Interruption(s, source, channel).None?
    requires Await(Filled(s, source), |source|, id, channel).0.TimedOut?
    requires |s.inFlight| <= |Filled(s, source).inFlight| && Filled(s, source).retries + 1 < MAX_RETRIES
    ensures var t := Filled(s, source);
            SendLoop(s, source, id, channel).After(f, n) ==
            SendLoop(t.(retries := t.retries + 1), source, id, Await(t, |source|, id, channel).1)
              .After(f + t.inFlight[|s.inFlight|..] + t.inFlight, n + 1)
  {
    hide Filled, Await, Acked, ChunkCount, Interruption;
    var t := Filled(s, source);
    var u := SendLoop(t.(retries := t.retries + 1), source, id, Await(t, |source|, id, channel).1);
    var batch := t.inFlight[|s.inFlight|..];
    assert f + ((batch + t.inFlight) + u.frames) == (f + batch + t.inFlight) + u.frames;
  }

  lemma {:induction false} UnrollAck(s: Sender, source: seq<Byte>, id: Byte, channel: seq<ChannelItem>,
                                     f: seq<PendingChunk>, n: nat)
    requires s.Base() < ChunkCount(|source|) <= ALL_ONES && Interruption(s, source, channel).None?
    requires Await(Filled(s, source), |source|, id, channel).0.Got?
    requires |s.inFlight| <= |Filled(s, source).inFlight|
    ensures var t := Filled(s, source);
            var (waited, rest) := Await(t, |source|, id, channel);
            SendLoop(s, source, id, channel).After(f, n) ==
            SendLoop(Acked(t, waited.ack), source, id, rest).After(f + t.inFlight[|s.inFlight|..], n + 1)
  {
    hide Filled, Await, Acked, ChunkCount, Interruption;
    var t := Filled(s, source);
    var (waited, rest) := Await(t, |source|, id, channel);
    var u := SendLoop(Acked(t, waited.ack), source, id, rest);
    var batch := t.inFlight[|s.inFlight|..];
    assert f + (batch + u.frames) == (f + batch) + u.frames;
  }

  lemma {:induction false} UnrollStop(s: Sender, source: seq<Byte>, id: Byte, channel: seq<ChannelItem>,
                                      f: seq<PendingChunk>, n: nat)
    requires s.Base() < ChunkCount(|source|) <= ALL_ONES && |s.inFlight| <= |Filled(s, source).inFlight|
    requires Interruption(s, source, channel).None?
    ensures var t := Filled(s, source);
            var u, waited := SendLoop(s, source, id, channel).After(f, n), Await(t, |source|, id, channel).0;
            var batch := f + t.inFlight[|s.inFlight|..];
            && (waited.Rejected? ==> u == Transfer(ControllerFailed, t, batch, n + 1))
            && (waited.Cancelled? ==> u == Transfer(UserCancelled, t, batch, n + 1))
            && (waited.TimedOut? && t.retries + 1 >= MAX_RETRIES ==>
                  u == Transfer(GaveUp, t.(retries := t.retries + 1), batch, n + 1))
  {
    hide Filled, Await, Acked, ChunkCount, Interruption;
  }

  lemma {:induction false} UnrollInterruption(s: Sender, source: seq<Byte>, id: Byte, channel: seq<ChannelItem>,
                                              f: seq<PendingChunk>, n: nat)
    requires s.Base() < ChunkCount(|source|) <= ALL_ONES && Interruption(s, source, channel).Some?
    ensures SendLoop(s, source, id, channel).After(f, n)
         == Transfer(Interruption(s, source, channel).value, s, f, n + 1)
  {
    assert f + [] == f;
  }

  lemma {:induction false} UnrollEnd(s: Sender, source: seq<Byte>, id: Byte, channel: seq<ChannelItem>,
                                     f: seq<PendingChunk>, n: nat)
    requires ChunkCount(|source|) <= s.Base() && ChunkCount(|source|) <= ALL_ONES
    ensures SendLoop(s, source, id, channel).After(f, n) == Transfer(Finalizing(ALL_ONES - s.crc), s, f, n)
  {
    assert f + [] == f;
  }

  /** The state from which every iteration starts. */
  ghost predicate AtLoopHead(s: Sender, source: seq<Byte>)
  {
    SenderInv(s, source) && s.retries < MAX_RETRIES && (s.Base() < ChunkCount(|source|) || s.retries == 0)
  }

  /** What one iteration has to work with: a non-empty window, whose new chunks continue where the last batch ended. */
  lemma {:induction false} FillAtLoopHead(s: Sender, source: seq<Byte>)
    requires AtLoopHead(s, source) && s.Base() < ChunkCount(|source|)
    ensures var t := Filled(s, source);
            && SenderInv(t, source) && t.inFlight != []
            && t.Base() == s.Base() && s.next <= t.next && t.retries == s.retries
            && |s.inFlight| <= |t.inFlight| && t.inFlight[|s.inFlight|..] == Slices(source, s.next, t.next)
  {
    hide Chunk, Crc32.Register, Crc32.Running, Committed, Filled;
    FilledKeepsInv(s, source);
    var t := Filled(s, source);
    WindowFront(s, source);
    WindowFront(t, source);
  }

  /** At most three iterations for each chunk; the final check is sent only once every chunk has been acknowledged, and
      it is the check of the whole file. */
  lemma {:induction false} SendLoopEnds(s: Sender, source: seq<Byte>, id: Byte, channel: seq<ChannelItem>)
    requires AtLoopHead(s, source)
    ensures var u := SendLoop(s, source, id, channel);
      && u.iterations + 3 * s.Base() + s.retries <= 3 * ChunkCount(|source|)
      && (u.result.Finalizing? ==>
            u.sender.Base() == u.sender.next == ChunkCount(|source|) && u.result.crc == Crc32.Checksum(source))
    decreases |channel|
  {
    hide Slices, Chunk, Crc32.Register, Crc32.Running, Committed, Filled, IsCommittedUploadAck, Await, Accepts, Acked,
         ChunkCount, Interruption;
    if s.Base() < ChunkCount(|source|) {
      FillAtLoopHead(s, source);
      var t := Filled(s, source);
      var (waited, rest) := Await(t, |source|, id, channel);
      if waited.TimedOut? && t.retries + 1 < MAX_RETRIES {
        SendLoopEnds(t.(retries := t.retries + 1), source, id, rest);
      } else if waited.Got? {
        AckedKeepsInv(t, source, waited.ack);
        AckedResetsRetries(t, waited.ack);
        SendLoopEnds(Acked(t, waited.ack), source, id, rest);
      }
    } else {
      AllCommitted(|source|);
      assert source[..|source|] == source;
    }
  }

  lemma {:induction false} AckedResetsRetries(s: Sender, ack: Ack)
    ensures Acked(s, ack).retries == 0 && Acked(s, ack).next == s.next
  {
  }

  lemma {:induction false} GenuineAppend(a: seq<PendingChunk>, b: seq<PendingChunk>, source: seq<Byte>, m: nat, n: nat)
    requires Genuine(a, source, m) && Genuine(b, source, n) && m <= n
    ensures Genuine(a + b, source, n)
  {
    forall i | 0 <= i < |a + b|
      ensures (a + b)[i].sequence < n && (a + b)[i].data == Chunk(source, (a + b)[i].sequence)
    {
      assert (a + b)[i] == if i < |a| then a[i] else b[i - |a|];
    }
  }

  /** Whatever the channel yields, every frame on the link carries its own chunk of the file. */
  lemma {:induction false} SendLoopIsGenuine(s: Sender, source: seq<Byte>, id: Byte, channel: seq<ChannelItem>)
    requires AtLoopHead(s, source)
    ensures var u := SendLoop(s, source, id, channel);
            s.next <= u.sender.next && Genuine(u.frames, source, u.sender.next)
    decreases |channel|
  {
    hide Slices, Chunk, Crc32.Register, Crc32.Running, Committed, Filled, Await, Accepts, Acked, ChunkCount, Genuine,
         Interruption;
    NewChunksAreNext(source, s.next, s.next);
    SlicesEmpty(source, s.next);
    if s.Base() < ChunkCount(|source|) {
      FillAtLoopHead(s, source);
      var t := Filled(s, source);
      var batch := t.inFlight[|s.inFlight|..];
      var (waited, rest) := Await(t, |source|, id, channel);
      NewChunksAreNext(source, s.next, t.next);
      if waited.TimedOut? && t.retries + 1 < MAX_RETRIES {
        var u := SendLoop(t.(retries := t.retries + 1), source, id, rest);
        SendLoopIsGenuine(t.(retries := t.retries + 1), source, id, rest);
        OldChunksAreKnown(t, source);
        GenuineAppend(batch, t.inFlight, source, t.next, t.next);
        GenuineAppend(batch + t.inFlight, u.frames, source, t.next, u.sender.next);
      } else if waited.Got? {
        var u := SendLoop(Acked(t, waited.ack), source, id, rest);
        AckedKeepsInv(t, source, waited.ack);
        AckedResetsRetries(t, waited.ack);
        SendLoopIsGenuine(Acked(t, waited.ack), source, id, rest);
        GenuineAppend(batch, u.frames, source, t.next, u.sender.next);
      }
    }
  }

  /** Whatever the channel yields, the frames on the link leave no gap before the next chunk. */
  lemma {:induction false} SendLoopLeavesNoGap(s: Sender, source: seq<Byte>, id: Byte, channel: seq<ChannelItem>)
    requires AtLoopHead(s, source)
    ensures var t := SendLoop(s, source, id, channel);
            Accepted(s.next, t.frames) == Some(t.sender.next)
    decreases |channel|
  {
    hide Slices, Chunk, Crc32.Register, Crc32.Running, Committed, Filled, Await, Accepts, Acked, ChunkCount, Genuine,
         Interruption;
    if s.Base() < ChunkCount(|source|) {
      FillAtLoopHead(s, source);
      var t := Filled(s, source);
      var batch := t.inFlight[|s.inFlight|..];
      var (waited, rest) := Await(t, |source|, id, channel);
      NewChunksAreNext(source, s.next, t.next);
      if waited.TimedOut? && t.retries + 1 < MAX_RETRIES {
        var t1 := t.(retries := t.retries + 1);
        SendLoopLeavesNoGap(t1, source, id, rest);
        OldChunksAreKnown(t, source);
        AcceptedAppend(s.next, batch, t.inFlight);
        AcceptedAppend(s.next, batch + t.inFlight, SendLoop(t1, source, id, rest).frames);
      } else if waited.Got? {
        AckedKeepsInv(t, source, waited.ack);
        AckedResetsRetries(t, waited.ack);
        var t1 := Acked(t, waited.ack);
        SendLoopLeavesNoGap(t1, source, id, rest);
        AcceptedAppend(s.next, batch, SendLoop(t1, source, id, rest).frames);
      }
    }
  }

  lemma {:induction false} OldChunksAreKnown(s: Sender, source: seq<Byte>)
    requires SenderInv(s, source)
    ensures Genuine(s.inFlight, source, s.next) && Accepted(s.next, s.inFlight) == Some(s.next)
  {
    WindowFront(s, source);
    AlreadyAccepted(s.next, s.inFlight);
  }

  lemma {:induction false} NewChunksAreNext(source: seq<Byte>, from: nat, end: nat)
    requires from <= end <= ChunkCount(|source|) <= ALL_ONES
    ensures Genuine(Slices(source, from, end), source, end)
    ensures Accepted(from, Slices(source, from, end)) == Some(end)
    decreases end - from
  {
    hide Chunk, ChunkCount;
    if from < end {
      SlicesSplit(source, from, from + 1, end);
      NewChunksAreNext(source, from + 1, end);
    }
  }

  lemma {:induction false} InvBounds(s: Sender, source: seq<Byte>, retries: nat)
    requires SenderInv(s, source)
    ensures ChunkCount(|source|) <= ALL_ONES && SenderInv(s.(retries := retries), source)
  {
  }

  class WindowedUpload {
    const source: seq<Byte>
    const transferId: Byte
    var inFlight: seq<PendingChunk>
    var nextSequenceToSend: nat
    var highestAckedSequence: U32
    var highestCommittedBytes: nat
    var retries: nat
    var uploadCrc: U32
    var streamPosition: nat
    var channel: seq<ChannelItem>
    /** Every data frame written so far, in order. */
    var sent: seq<PendingChunk>
    const table: seq<U32>

    function State(): (s: Sender)
      reads this
    {
      Sender(inFlight, nextSequenceToSend, highestAckedSequence, highestCommittedBytes, retries, uploadCrc)
    }

    ghost predicate Valid()
      reads this
    {
      Crc32.IsTable(table) && SenderInv(State(), source) && streamPosition == Committed(|source|, nextSequenceToSend)
    }

    constructor (source: seq<Byte>, transferId: Byte, channel: seq<ChannelItem>)
      requires |source| <= ALL_ONES
      ensures Valid() && State() == START && sent == []
      ensures this.source == source && this.transferId == transferId && this.channel == channel
    {
      this.source, this.transferId, this.channel := source, transferId, channel;
      inFlight, nextSequenceToSend, highestAckedSequence := [], 0, ALL_ONES;
      highestCommittedBytes, retries, uploadCrc, streamPosition, sent := 0, 0, ALL_ONES, 0, [];
      var t := Crc32.BuildTable();
      table := t[..];
    }

    /** A full-size read from the file stream, or what is left at its end. */
    method ReadChunk() returns (payload: seq<Byte>)
      requires nextSequenceToSend < ChunkCount(|source|) && streamPosition == Committed(|source|, nextSequenceToSend)
      modifies this`streamPosition
      ensures payload == Chunk(source, nextSequenceToSend)
      ensures streamPosition == Committed(|source|, nextSequenceToSend + 1)
    {
      NextRead(source, nextSequenceToSend);
      var length := if |source| - streamPosition < CHUNK_SIZE then |source| - streamPosition else CHUNK_SIZE;
      payload := source[streamPosition..streamPosition + length];
      streamPosition := streamPosition + length;
    }

    /** Reads the next chunk from the file, adds it to the window and to the outgoing batch. */
    method SendNextChunk()
      requires Valid() && nextSequenceToSend < ChunkCount(|source|) && |inFlight| < WINDOW
      modifies this`inFlight, this`nextSequenceToSend, this`uploadCrc, this`streamPosition, this`sent
      ensures Valid() && State() == Sent(old(State()), source)
      ensures sent == old(sent) + [inFlight[|inFlight| - 1]]
    {
      hide Slices, Crc32.Register, Crc32.Running, Crc32.IsTable, Chunk, Committed, ChunkCount;
      SentKeepsInv(State(), source);
      var payload := ReadChunk();
      uploadCrc := Crc32.Update(table, uploadCrc, payload);
      var pending := PendingChunk(nextSequenceToSend, payload);
      inFlight, sent := inFlight + [pending], sent + [pending];
      nextSequenceToSend := nextSequenceToSend + 1;
    }

    /** Sends chunks until the window is full or the file ends. */
    method FillWindow()
      requires Valid()
      modifies this`inFlight, this`nextSequenceToSend, this`uploadCrc, this`streamPosition, this`sent
      ensures Valid() && State() == Filled(old(State()), source)
      ensures |old(inFlight)| <= |inFlight| && sent == old(sent) + inFlight[|old(inFlight)|..]
    {
      hide Slices, Crc32.Register, Crc32.Running, Chunk, Committed;
      var totalChunks := (|source| + CHUNK_SIZE - 1) / CHUNK_SIZE;
      while nextSequenceToSend < totalChunks && |inFlight| < WINDOW
        invariant Valid() && Filled(State(), source) == Filled(old(State()), source)
        invariant |old(inFlight)| <= |inFlight| && sent == old(sent) + inFlight[|old(inFlight)|..]
      {
        SendNextChunk();
      }
    }

    method ReadUploadChunkAck() returns (waited: Waited)
      modifies this`channel
      ensures (waited, channel) == Await(State(), |source|, transferId, old(channel))
    {
      hide Accepts;
      while channel != []
        invariant Await(State(), |source|, transferId, channel) == Await(State(), |source|, transferId, old(channel))
        decreases |channel|
      {
        var item := channel[0];
        channel := channel[1..];
        if item == Timeout {
          return TimedOut;
        }
        if item == Failed || item == Aborted {
          return Rejected;
        }
        if item == Cancel {
          return Cancelled;
        }
        if item.ChunkOk? && item.transferId == transferId && Accepts(State(), item.ack, |source|) {
          return Got(item.ack);
        }
      }
      waited := Cancelled;
    }

    /** Removes acknowledged chunks from the front of the window. */
    method TakeAck(ack: Ack)
      requires Valid() && Accepts(State(), ack, |source|)
      modifies this`inFlight, this`highestAckedSequence, this`highestCommittedBytes, this`retries
      ensures Valid() && State() == Acked(old(State()), ack) && State().Base() > old(State()).Base()
    {
      hide Slices, Crc32.Register, Crc32.Running, Crc32.IsTable, Chunk, Committed, ChunkCount, IsCommittedUploadAck,
           Genuine;
      AckedKeepsInv(State(), source, ack);
      retries := 0;
      while |inFlight| > 0 && inFlight[0].sequence <= ack.sequence
        invariant Remaining(inFlight, ack.sequence) == Remaining(old(inFlight), ack.sequence)
        modifies this`inFlight
        decreases |inFlight|
      {
        inFlight := inFlight[1..];
      }
      highestAckedSequence := ack.sequence;
      highestCommittedBytes := if highestCommittedBytes < ack.committed then ack.committed else highestCommittedBytes;
    }

    /** The send loop. The way out for an empty window is never taken. */
    method DoUpload() returns (result: UploadResult, ghost iterations: nat)
      requires Valid() && State() == START && sent == []
      modifies this
      ensures Transfer(result, State(), sent, iterations) == SendLoop(START, source, transferId, old(channel))
    {
      hide Slices, Crc32.Register, Crc32.Running, Crc32.IsTable, Chunk, Committed, IsCommittedUploadAck, Filled, Await,
           Accepts, Acked, SendLoop, Interruption, SenderInv;
      var totalChunks := (|source| + CHUNK_SIZE - 1) / CHUNK_SIZE;
      iterations := 0;
      InvBounds(State(), source, 0);
      ghost var whole := SendLoop(START, source, transferId, channel);
      assert [] + whole.frames == whole.frames;
      while State().Base() < totalChunks
        invariant Valid()
        invariant whole == SendLoop(State(), source, transferId, channel).After(sent, iterations)
        decreases |channel|
      {
        ghost var s, c, f := State(), channel, sent;
        var interrupted := Interruption(State(), source, channel);
        if interrupted.Some? {
          UnrollInterruption(s, source, transferId, c, f, iterations);
          return interrupted.value, iterations + 1;
        }
        FilledKeepsInv(s, source);
        InvBounds(Filled(s, source), source, retries + 1);
        WindowFront(Filled(s, source), source);
        UnrollStop(s, source, transferId, c, f, iterations);
        FillWindow();
        if |inFlight| == 0 {
          break;
        }
        var waited := ReadUploadChunkAck();
        match waited
        case TimedOut =>
          retries := retries + 1;
          iterations := iterations + 1;
          if retries >= MAX_RETRIES {
            return GaveUp, iterations;
          }
          UnrollTimeout(s, source, transferId, c, f, iterations - 1);
          sent := sent + inFlight;
        case Rejected => return ControllerFailed, iterations + 1;
        case Cancelled => return UserCancelled, iterations + 1;
        case Got(ack) =>
          UnrollAck(s, source, transferId, c, f, iterations);
          TakeAck(ack);
          iterations := iterations + 1;
      }
      UnrollEnd(State(), source, transferId, channel, sent, iterations);
      result := Finalizing(ALL_ONES - uploadCrc);
    }
  }
}
