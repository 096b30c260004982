/** An upload over a link that delivers every data frame once and in order, whatever happens to acknowledgements. */
module LosslessUpload {
  import opened Bytes
  import opened Wrappers
  import opened Chunks
  import opened Firmware
  import opened UploadSender
  import opened TransferIds
  import opened UploadSystem
  import Crc32
  import L = Lifecycle

  const GAP := StorageError(BadSequence, Operation.Upload)

  // ----- no gap, no BAD_SEQUENCE -----

  /** The data frames of one transfer among all commands the controller receives. */
  function DataOf(commands: seq<Command>, id: Byte): (chunks: seq<PendingChunk>)
    decreases |commands|
  {
    if commands == [] then []
    else if commands[0].UploadData? && commands[0].transferId == id
    then [PendingChunk(commands[0].sequence, commands[0].payload)] + DataOf(commands[1..], id)
    else DataOf(commands[1..], id)
  }

  /** What the controller answers during the session of one transfer, and to late data frames of that transfer. */
  function RepliesIn(c: Controller, commands: seq<Command>, id: Byte): (replies: seq<Reply>)
    requires AllWellFormed(commands)
    decreases |commands|
  {
    if commands == [] then []
    else
      (if Owns(c, id) || (commands[0].UploadData? && commands[0].transferId == id)
       then Handle(c, commands[0]).replies else [])
      + RepliesIn(Handle(c, commands[0]).next, commands[1..], id)
  }

  /** Either the frames still to come continue where the session stands, or this transfer has no session any more. */
  ghost predicate InStep(c: Controller, id: Byte, coming: seq<PendingChunk>)
  {
    && (c.session.active ==> c.session.file.Some?)
    && (Owns(c, id) ==> Accepted(c.session.expectedSeq, coming).Some?)
  }

  lemma {:induction false} DataStaysInStep(c: Controller, id: Byte, chunk: PendingChunk, written: nat, unlinked: bool,
                        coming: seq<PendingChunk>)
    requires InStep(c, id, [chunk] + coming) && chunk.sequence < ALL_ONES && written <= |chunk.data| <= CHUNK_SIZE
    ensures var o := HandleUploadData(c, id, chunk.sequence, chunk.data, written, unlinked);
      InStep(o.next, id, coming) && GAP !in o.replies
  {
    hide Crc32.Register, Crc32.Running, Stored;
    assert ([chunk] + coming)[1..] == coming;
  }

  lemma {:induction false} OthersStayInStep(c: Controller, id: Byte, command: Command, coming: seq<PendingChunk>)
    requires InStep(c, id, coming) && command.WellFormed()
    requires command.UploadData? ==> command.transferId != id
    requires StartsUpload(c, command) ==> c.nextUploadId != id
    ensures InStep(Handle(c, command).next, id, coming)
    ensures Owns(c, id) ==> GAP !in Handle(c, command).replies
  {
    hide Crc32.Register, Crc32.Running, Stored, NameOf, ValidName, Accepted;
  }

  lemma {:induction false} InStepNeverGaps(c: Controller, id: Byte, commands: seq<Command>)
    requires AllWellFormed(commands) && NeverGivenOut(c, commands, id)
    requires InStep(c, id, DataOf(commands, id))
    requires forall i :: 0 <= i < |DataOf(commands, id)| ==> DataOf(commands, id)[i].sequence < ALL_ONES
    ensures GAP !in RepliesIn(c, commands, id)
    decreases |commands|
  {
    hide InStep, Handle, HandleUploadData, StartsUpload, Owns;
    if commands != [] {
      var command, rest := commands[0], commands[1..];
      var coming := DataOf(rest, id);
      if command.UploadData? && command.transferId == id {
        var chunk := PendingChunk(command.sequence, command.payload);
        assert DataOf(commands, id) == [chunk] + coming && DataOf(commands, id)[0] == chunk;
        assert forall i :: 0 <= i < |coming| ==> coming[i] == DataOf(commands, id)[i + 1];
        DataStaysInStep(c, id, chunk, command.written, command.unlinked, coming);
        L.HandleData(c, command);
      } else {
        OthersStayInStep(c, id, command, coming);
      }
      InStepNeverGaps(Handle(c, command).next, id, rest);
    }
  }

  /** Whatever timeouts, whole-window resends and lost acknowledgements there were, and whatever other commands and
      other uploads came in between and after: as long as the data frames of this transfer arrive in order and none is
      lost, the controller reports no gap, neither during its session nor to any frame of it. */
  lemma {:induction false} LosslessNeverGaps(c: Controller, source: seq<Byte>, channel: seq<ChannelItem>,
                                             commands: seq<Command>)
    requires |source| <= ALL_ONES && c.session.active && c.session.file.Some? && c.session.expectedSeq == 0
    requires AllWellFormed(commands) && NeverGivenOut(c, commands, c.session.transferId)
    requires DataOf(commands, c.session.transferId) <= SendLoop(START, source, c.session.transferId, channel).frames
    ensures GAP !in RepliesIn(c, commands, c.session.transferId)
  {
    hide SendLoop, DataOf, RepliesIn, NeverGivenOut, Accepted;
    var id := c.session.transferId;
    PrefixFollows(source, id, channel, DataOf(commands, id));
    InStepNeverGaps(c, id, commands);
  }

  /** Any first part of what the sender writes is free of gaps. */
  lemma {:induction false} PrefixFollows(source: seq<Byte>, id: Byte, channel: seq<ChannelItem>,
                                         arrived: seq<PendingChunk>)
    requires |source| <= ALL_ONES && arrived <= SendLoop(START, source, id, channel).frames
    ensures Accepted(0, arrived).Some?
    ensures forall i :: 0 <= i < |arrived| ==> arrived[i].sequence < ALL_ONES
  {
    hide Slices, SendLoop, Accepted, Chunk;
    var frames := SendLoop(START, source, id, channel).frames;
    StartAtLoopHead(source);
    SendLoopIsGenuine(START, source, id, channel);
    SendLoopLeavesNoGap(START, source, id, channel);
    AcceptedAppend(0, arrived, frames[|arrived|..]);
    assert arrived + frames[|arrived|..] == frames;
    assert forall i :: 0 <= i < |arrived| ==> arrived[i] == frames[i];
  }

  lemma {:induction false} StartAtLoopHead(source: seq<Byte>)
    requires |source| <= ALL_ONES
    ensures AtLoopHead(START, source)
  {
    SlicesEmpty(source, 0);
    assert source[..0] == [];
  }

  // ----- completion -----

  /** The controller after a run of completely written data frames, and all its answers. */
  function DeliverAll(c: Controller, id: Byte, chunks: seq<PendingChunk>, unlinked: bool): (o: Outcome)
    requires AllOneChunk(chunks)
    decreases |chunks|
  {
    if chunks == [] then Outcome(c, [])
    else
      var data := chunks[0].data;
      var first := HandleUploadData(c, id, chunks[0].sequence, data, |data|, unlinked);
      var later := DeliverAll(first.next, id, chunks[1..], unlinked);
      Outcome(later.next, first.replies + later.replies)
  }

  predicate AllOneChunk(chunks: seq<PendingChunk>)
  {
    forall i :: 0 <= i < |chunks| ==> |chunks[i].data| <= CHUNK_SIZE
  }

  /** No frame numbered above `reached` comes before the frame with the number below its own has come. */
  ghost predicate GapFree(chunks: seq<PendingChunk>, reached: nat)
  {
    forall i :: 0 <= i < |chunks| && chunks[i].sequence > reached ==> Comes(chunks[..i], chunks[i].sequence - 1)
  }

  ghost predicate Comes(chunks: seq<PendingChunk>, number: nat)
  {
    exists i :: 0 <= i < |chunks| && chunks[i].sequence == number
  }

  /** Every chunk from `reached` up to the `k`-th has come, but not the `k`-th. */
  ghost predicate FirstMissing(chunks: seq<PendingChunk>, reached: nat, k: nat)
  {
    reached <= k && !Comes(chunks, k) && forall j: nat :: reached <= j < k ==> Comes(chunks, j)
  }

  lemma {:induction false} ComesInMore(chunks: seq<PendingChunk>, last: PendingChunk, number: nat)
    ensures Comes(chunks + [last], number) <==> Comes(chunks, number) || last.sequence == number
  {
    var all := chunks + [last];
    assert all[|chunks|] == last;
    if Comes(chunks, number) {
      var i :| 0 <= i < |chunks| && chunks[i].sequence == number;
      assert all[i].sequence == number;
    }
    if Comes(all, number) && last.sequence != number {
      var i :| 0 <= i < |all| && all[i].sequence == number;
      assert chunks[i].sequence == number;
    }
  }

  lemma {:induction false} AcceptedNumbers(reached: nat, chunks: seq<PendingChunk>)
    requires Accepted(reached, chunks).Some?
    ensures Accepted(reached, chunks).value >= reached
    ensures forall i :: 0 <= i < |chunks| ==> chunks[i].sequence < Accepted(reached, chunks).value
    ensures forall k :: reached <= k < Accepted(reached, chunks).value ==> Comes(chunks, k)
    decreases |chunks|
  {
    if chunks != [] {
      var n := |chunks| - 1;
      assert chunks == chunks[..n] + [chunks[n]];
      AcceptedAppend(reached, chunks[..n], [chunks[n]]);
      AcceptedNumbers(reached, chunks[..n]);
      AcceptedOne(Accepted(reached, chunks[..n]).value, chunks[n]);
      forall k | reached <= k < Accepted(reached, chunks).value ensures Comes(chunks, k) {
        ComesInMore(chunks[..n], chunks[n], k);
      }
    }
  }

  lemma {:induction false} AcceptedOne(expected: nat, chunk: PendingChunk)
    ensures Accepted(expected, [chunk])
         == if chunk.sequence < expected then Some(expected)
            else if chunk.sequence == expected then Some(expected + 1) else None
  {
    assert [chunk][1..] == [];
  }

  /** A receiver that only takes chunks in order gets through the frames if and only if their numbers leave no gap. */
  lemma {:induction false} AcceptedIffGapFree(chunks: seq<PendingChunk>, reached: nat)
    ensures Accepted(reached, chunks).Some? <==> GapFree(chunks, reached)
    decreases |chunks|
  {
    if chunks != [] {
      var n := |chunks| - 1;
      var before := chunks[..n];
      assert chunks == before + [chunks[n]];
      AcceptedAppend(reached, before, [chunks[n]]);
      AcceptedIffGapFree(before, reached);
      GapFreeStep(chunks, reached);
      if Accepted(reached, before).Some? {
        var expected := Accepted(reached, before).value;
        AcceptedNumbers(reached, before);
        AcceptedOne(expected, chunks[n]);
        NothingAbove(before, expected);
      }
    }
  }

  lemma {:induction false} NothingAbove(chunks: seq<PendingChunk>, expected: nat)
    requires forall i :: 0 <= i < |chunks| ==> chunks[i].sequence < expected
    ensures forall k: nat :: k >= expected ==> !Comes(chunks, k)
  {
  }

  lemma {:induction false} GapFreeStep(chunks: seq<PendingChunk>, reached: nat)
    requires chunks != []
    ensures var n := |chunks| - 1;
      GapFree(chunks, reached) <==>
        && GapFree(chunks[..n], reached)
        && (chunks[n].sequence > reached ==> Comes(chunks[..n], chunks[n].sequence - 1))
  {
    hide Comes;
    var n := |chunks| - 1;
    assert forall i :: 0 <= i < n ==> chunks[..n][i] == chunks[i] && chunks[..n][..i] == chunks[..i];
    if GapFree(chunks, reached) {
      assert forall i :: 0 <= i < n && chunks[i].sequence > reached ==> Comes(chunks[..i], chunks[i].sequence - 1);
    }
  }

  /** A frame beyond the expected one destroys the session, and nothing later revives it. */
  lemma {:induction false} GapEndsSession(c: Controller, source: seq<Byte>, path: string, id: Byte, reached: nat,
                                          chunk: PendingChunk, unlinked: bool)
    requires Owns(c, id) && Holds(c, source, path, id, reached, false)
    requires chunk.sequence > reached && |chunk.data| <= CHUNK_SIZE && path != ""
    ensures var o := HandleUploadData(c, id, chunk.sequence, chunk.data, |chunk.data|, unlinked);
      && o.next == CloseSession(c, true, unlinked) && o.replies == [GAP]
      && (path in o.next.storage.files <==> !unlinked)
  {
    hide Crc32.Register, Crc32.Running;
  }

  lemma {:induction false} ClosedStaysClosed(c: Controller, id: Byte, chunks: seq<PendingChunk>, unlinked: bool)
    requires !c.session.active && AllOneChunk(chunks)
    ensures DeliverAll(c, id, chunks, unlinked).next == c
    decreases |chunks|
  {
    hide Crc32.Register, Crc32.Running, Stored;
    if chunks != [] {
      ClosedStaysClosed(c, id, chunks[1..], unlinked);
    }
  }

  lemma {:induction false} InOrderDelivery(c: Controller, source: seq<Byte>, path: string, id: Byte, reached: nat,
                                           chunks: seq<PendingChunk>, next: nat, unlinked: bool)
    requires |source| <= ALL_ONES && path != "" && Genuine(chunks, source, next) && AllOneChunk(chunks)
    requires Owns(c, id) && Holds(c, source, path, id, reached, false)
    ensures var o, after := DeliverAll(c, id, chunks, unlinked), Accepted(reached, chunks);
      && (GAP in o.replies <==> after.None?)
      && (after.None? ==> !o.next.session.active && (path in o.next.storage.files <==> !unlinked))
      && (after.Some? ==> Owns(o.next, id) && Holds(o.next, source, path, id, after.value, false))
    decreases |chunks|
  {
    hide Holds, HandleUploadData, Chunk, ChunkCount;
    if chunks != [] {
      var chunk, rest := chunks[0], chunks[1..];
      var o := HandleUploadData(c, id, chunk.sequence, chunk.data, |chunk.data|, unlinked);
      assert |chunk.data| <= CHUNK_SIZE && chunk.data == Chunk(source, chunk.sequence);
      if chunk.sequence > reached {
        GapEndsSession(c, source, path, id, reached, chunk, unlinked);
        ClosedStaysClosed(o.next, id, rest, unlinked);
        assert o.replies[0] == GAP;
      } else if chunk.sequence == reached {
        NextChunkHolds(c, source, path, id, reached, false, unlinked);
        InOrderDelivery(o.next, source, path, id, reached + 1, rest, next, unlinked);
      } else {
        DuplicateHolds(c, source, path, id, reached, chunk, unlinked);
        InOrderDelivery(o.next, source, path, id, reached, rest, next, unlinked);
      }
    }
  }

  /** The exact condition for losing the upload: the controller reports a gap, and removes the file if the card lets it,
      if and only if some frame above the expected one comes before its predecessor has come; otherwise the session goes
      on and has stored every chunk up to the first missing one. */
  lemma {:induction false} GapReportedIff(c: Controller, source: seq<Byte>, path: string, id: Byte, reached: nat,
                                          chunks: seq<PendingChunk>, next: nat, unlinked: bool)
    requires |source| <= ALL_ONES && path != "" && Genuine(chunks, source, next) && AllOneChunk(chunks)
    requires Owns(c, id) && Holds(c, source, path, id, reached, false)
    ensures var o := DeliverAll(c, id, chunks, unlinked);
      && (GAP in o.replies <==> !GapFree(chunks, reached))
      && (!GapFree(chunks, reached) ==> !o.next.session.active && (path in o.next.storage.files <==> !unlinked))
      && (GapFree(chunks, reached) ==>
            && Owns(o.next, id)
            && exists k: nat :: FirstMissing(chunks, reached, k) && Holds(o.next, source, path, id, k, false))
  {
    hide Holds, DeliverAll, GapFree, Genuine, Accepted, Comes;
    AcceptedIffGapFree(chunks, reached);
    InOrderDelivery(c, source, path, id, reached, chunks, next, unlinked);
    if Accepted(reached, chunks).Some? {
      AcceptedNumbers(reached, chunks);
      NothingAbove(chunks, Accepted(reached, chunks).value);
      assert FirstMissing(chunks, reached, Accepted(reached, chunks).value);
    }
  }

  lemma {:induction false} DuplicateHolds(c: Controller, source: seq<Byte>, path: string, id: Byte, reached: nat,
                                          chunk: PendingChunk, unlinked: bool)
    requires Owns(c, id) && Holds(c, source, path, id, reached, false)
    requires chunk.sequence < reached && |chunk.data| <= CHUNK_SIZE
    ensures var o := HandleUploadData(c, id, chunk.sequence, chunk.data, |chunk.data|, unlinked);
      o.next == c && |o.replies| == 1 && o.replies[0].UploadAck?
  {
    hide Crc32.Register, Crc32.Running;
  }

  /** An upload whose frames all arrive in order and are all written ends with the file on the card: when the send loop
      reaches its final check, that check succeeds and the stored bytes are the source. */
  lemma {:induction false} LosslessUploadCompletes(c: Controller, source: seq<Byte>, path: string,
                                                   channel: seq<ChannelItem>, unlinked: bool)
    requires |source| <= ALL_ONES && path != "" && c.session.active
    requires Holds(c, source, path, c.session.transferId, 0, false)
    ensures var id := c.session.transferId;
      var u := SendLoop(START, source, id, channel);
      && AllOneChunk(u.frames)
      && (u.result.Finalizing? ==>
            var end := FinishUpload(DeliverAll(c, id, u.frames, unlinked).next, u.result.crc, unlinked);
            && end.replies == [UploadEnd(id, |source|)]
            && path in end.next.storage.files && end.next.storage.files[path] == source)
  {
    hide Slices, SendLoop, Holds, DeliverAll, FinishUpload, Chunk, ChunkCount;
    StartAtLoopHead(source);
    var id := c.session.transferId;
    var u := SendLoop(START, source, id, channel);
    SendLoopIsGenuine(START, source, id, channel);
    SendLoopLeavesNoGap(START, source, id, channel);
    SendLoopEnds(START, source, id, channel);
    GenuineIsOneChunk(u.frames, source, u.sender.next);
    InOrderDelivery(c, source, path, id, 0, u.frames, u.sender.next, unlinked);
    if u.result.Finalizing? {
      WholeFileFinishes(DeliverAll(c, id, u.frames, unlinked).next, source, path, id, unlinked);
    }
  }

  lemma {:induction false} GenuineIsOneChunk(chunks: seq<PendingChunk>, source: seq<Byte>, next: nat)
    requires Genuine(chunks, source, next)
    ensures AllOneChunk(chunks)
  {
    forall i | 0 <= i < |chunks| ensures |chunks[i].data| <= CHUNK_SIZE {
      assert chunks[i].data == Chunk(source, chunks[i].sequence);
    }
  }

  lemma {:induction false} WholeFileFinishes(c: Controller, source: seq<Byte>, path: string, id: Byte, unlinked: bool)
    requires Owns(c, id) && Holds(c, source, path, id, ChunkCount(|source|), false)
    ensures var end := FinishUpload(c, Crc32.Checksum(source), unlinked);
      && end.replies == [UploadEnd(id, |source|)]
      && path in end.next.storage.files && end.next.storage.files[path] == source
  {
    hide Crc32.Register, Crc32.Running;
    AllCommitted(|source|);
    assert source[..|source|] == source;
  }

  // ----- a link that loses nothing in either direction -----

  /** The acknowledgements of chunks `from` to the last, one each. */
  function AcksFrom(size: nat, from: nat): (acks: seq<Ack>)
    requires from <= ChunkCount(size) <= ALL_ONES && size <= ALL_ONES
    decreases ChunkCount(size) - from
  {
    if from == ChunkCount(size) then [] else [Ack(from, Committed(size, from + 1))] + AcksFrom(size, from + 1)
  }

  function AsItems(id: Byte, acks: seq<Ack>): (items: seq<ChannelItem>)
  {
    if acks == [] then [] else [ChunkOk(id, acks[0])] + AsItems(id, acks[1..])
  }

  function AsReplies(id: Byte, acks: seq<Ack>): (replies: seq<Reply>)
  {
    if acks == [] then [] else [UploadAck(id, acks[0].sequence, acks[0].committed)] + AsReplies(id, acks[1..])
  }

  lemma {:induction false} LoopHeadBounds(s: Sender, source: seq<Byte>)
    requires AtLoopHead(s, source)
    ensures SenderInv(s, source) && ChunkCount(|source|) < ALL_ONES && s.Base() <= s.next <= ChunkCount(|source|)
  {
  }

  /** One iteration that meets the acknowledgement of the oldest chunk. */
  lemma {:induction false} OneAck(s: Sender, source: seq<Byte>, id: Byte, later: seq<ChannelItem>)
    requires |source| <= ALL_ONES && AtLoopHead(s, source) && s.committed == Committed(|source|, s.Base())
    requires s.Base() < ChunkCount(|source|) <= ALL_ONES
    ensures var t, ack := Filled(s, source), Ack(s.Base(), Committed(|source|, s.Base() + 1));
      var items := [ChunkOk(id, ack)] + later;
      && Interruption(s, source, items).None? && Await(t, |source|, id, items) == (Got(ack), later)
      && s.next <= t.next <= ChunkCount(|source|)
      && |s.inFlight| <= |t.inFlight| && t.inFlight[|s.inFlight|..] == Slices(source, s.next, t.next)
      && AtLoopHead(Acked(t, ack), source)
      && Acked(t, ack).Base() == s.Base() + 1 && Acked(t, ack).committed == ack.committed
      && Acked(t, ack).next == t.next
  {
    hide Slices, Chunk, Crc32.Register, Crc32.Running, Committed, Filled, Accepts, Acked, ChunkCount;
    var t, ack := Filled(s, source), Ack(s.Base(), Committed(|source|, s.Base() + 1));
    FillAtLoopHead(s, source);
    FilledKeepsInv(s, source);
    WindowFront(t, source);
    AcceptedIffAdvances(t, source, ack);
    AckedKeepsInv(t, source, ack);
    AckedResetsRetries(t, ack);
    assert ([ChunkOk(id, ack)] + later)[1..] == later;
  }

  lemma {:induction false} AcksFinishLoop(s: Sender, source: seq<Byte>, id: Byte)
    requires |source| <= ALL_ONES && AtLoopHead(s, source) && s.committed == Committed(|source|, s.Base())
    ensures var u := SendLoop(s, source, id, AsItems(id, AcksFrom(|source|, s.Base())));
            u.result.Finalizing? && u.frames == Slices(source, s.next, ChunkCount(|source|))
    decreases ChunkCount(|source|) - s.Base()
  {
    hide Slices, Committed, Filled, Await, Acked, ChunkCount, SenderInv, SendLoop;
    LoopHeadBounds(s, source);
    if s.Base() < ChunkCount(|source|) {
      var t := Filled(s, source);
      var ack := Ack(s.Base(), Committed(|source|, s.Base() + 1));
      var later := AcksFrom(|source|, s.Base() + 1);
      var items := [ChunkOk(id, ack)] + AsItems(id, later);
      assert ([ack] + later)[1..] == later;
      OneAck(s, source, id, AsItems(id, later));
      UnrollAck(s, source, id, items, [], 0);
      var u, v := SendLoop(s, source, id, items), SendLoop(Acked(t, ack), source, id, AsItems(id, later));
      assert [] + u.frames == u.frames && [] + t.inFlight[|s.inFlight|..] == t.inFlight[|s.inFlight|..];
      AcksFinishLoop(Acked(t, ack), source, id);
      SlicesSplit(source, s.next, t.next, ChunkCount(|source|));
    } else {
      SlicesEmpty(source, s.next);
      UnrollEnd(s, source, id, AsItems(id, AcksFrom(|source|, s.Base())), [], 0);
    }
  }

  lemma {:induction false} SlicesAreAcked(c: Controller, source: seq<Byte>, path: string, id: Byte, from: nat,
                                          unlinked: bool)
    requires |source| <= ALL_ONES && from <= ChunkCount(|source|) <= ALL_ONES && Owns(c, id)
    requires Holds(c, source, path, id, from, false)
    ensures var chunks := Slices(source, from, ChunkCount(|source|));
      AllOneChunk(chunks) && DeliverAll(c, id, chunks, unlinked).replies == AsReplies(id, AcksFrom(|source|, from))
    decreases ChunkCount(|source|) - from
  {
    hide Chunk, Committed, Holds, HandleUploadData, ChunkCount;
    var chunks := Slices(source, from, ChunkCount(|source|));
    NewChunksAreNext(source, from, ChunkCount(|source|));
    GenuineIsOneChunk(chunks, source, ChunkCount(|source|));
    if from < ChunkCount(|source|) {
      NextChunkHolds(c, source, path, id, from, false, unlinked);
      SlicesSplit(source, from, from + 1, ChunkCount(|source|));
      var data := Chunk(source, from);
      SlicesAreAcked(HandleUploadData(c, id, from, data, |data|, unlinked).next, source, path, id, from + 1, unlinked);
      var ack, later := Ack(from, Committed(|source|, from + 1)), AcksFrom(|source|, from + 1);
      assert ([ack] + later)[1..] == later;
      assert chunks[0] == PendingChunk(from, data) && chunks[1..] == Slices(source, from + 1, ChunkCount(|source|));
    }
  }

  /** Both ends and a link that loses nothing: the controller answers the sender's frames with exactly the
      acknowledgements that let the send loop finish, so the upload completes and the file is stored. */
  lemma {:induction false} LosslessLinkCompletes(c: Controller, source: seq<Byte>, path: string, unlinked: bool)
    requires |source| <= ALL_ONES && path != "" && c.session.active
    requires Holds(c, source, path, c.session.transferId, 0, false)
    ensures ChunkCount(|source|) <= ALL_ONES
    ensures var id, acks := c.session.transferId, AcksFrom(|source|, 0);
      var u := SendLoop(START, source, id, AsItems(id, acks));
      && u.result.Finalizing? && AllOneChunk(u.frames)
      && DeliverAll(c, id, u.frames, unlinked).replies == AsReplies(id, acks)
      && var end := FinishUpload(DeliverAll(c, id, u.frames, unlinked).next, u.result.crc, unlinked);
         && end.replies == [UploadEnd(id, |source|)]
         && path in end.next.storage.files && end.next.storage.files[path] == source
  {
    hide Slices, SendLoop, Holds, DeliverAll, FinishUpload, Chunk, AsReplies, AsItems;
    StartAtLoopHead(source);
    var id, acks := c.session.transferId, AcksFrom(|source|, 0);
    AcksFinishLoop(START, source, id);
    SlicesAreAcked(c, source, path, id, 0, unlinked);
    LosslessUploadCompletes(c, source, path, AsItems(id, acks), unlinked);
  }
}
