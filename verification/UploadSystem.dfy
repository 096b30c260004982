/** Both ends of one upload and the link between them, which may lose, repeat and reorder whatever is sent. */
module UploadSystem {
  import opened Bytes
  import opened Wrappers
  import opened Chunks
  import opened Firmware
  import opened UploadSender
  import Crc32

  /** `data` and `acks` hold everything ever sent in each direction; a frame is delivered any number of times, or never.
      `reached` is the highest sequence number the session came to expect, `deleted` whether the file was deleted by
      name. */
  datatype System = System(
    source: seq<Byte>, path: string, id: Byte, sender: Sender, controller: Controller,
    data: set<PendingChunk>, acks: set<Ack>, reached: nat, deleted: bool)

  datatype Step =
    | Fill
    | Resend
    | DeliverAck(ack: Ack)
    | DeliverData(chunk: PendingChunk, written: nat, unlinked: bool)
    | DeliverEnd(crc: U32, unlinked: bool)
    | OtherCommand(command: Command)

  /** Only what was sent can be delivered. Other commands are unrestricted, uploads before and after this one with their
      own data frames included, as long as no other upload uses this one's identifier. */
  predicate Enabled(y: System, step: Step)
  {
    match step
    case DeliverAck(ack) => ack in y.acks
    case DeliverData(chunk, written, _) => chunk in y.data && written <= |chunk.data| <= CHUNK_SIZE
    case OtherCommand(command) =>
      && command.WellFormed() && !command.FileUploadEnd?
      && (command.UploadData? ==> command.transferId != y.id)
      && (command.FileUpload? ==> y.controller.session.active || y.controller.nextUploadId != y.id)
    case _ => true
  }

  function Elements(chunks: seq<PendingChunk>): (all: set<PendingChunk>)
  {
    set chunk | chunk in chunks
  }

  function AcksIn(replies: seq<Reply>): (acks: set<Ack>)
  {
    if |replies| == 1 && replies[0].UploadAck? then {Ack(replies[0].sequence, replies[0].committed)} else {}
  }

  /** What the controller makes of a step; the desktop's own steps do not reach it. */
  function React(y: System, step: Step): (o: Outcome)
    requires Enabled(y, step)
  {
    match step
    case DeliverData(chunk, written, unlinked) =>
      HandleUploadData(y.controller, y.id, chunk.sequence, chunk.data, written, unlinked)
    case DeliverEnd(crc, unlinked) => FinishUpload(y.controller, crc, unlinked)
    case OtherCommand(command) => Handle(y.controller, command)
    case _ => Outcome(y.controller, [])
  }

  function StepSender(y: System, step: Step): (s: Sender)
    requires |y.source| <= ALL_ONES
  {
    var s := y.sender;
    match step
    case Fill => Filled(s, y.source)
    case Resend => s.(retries := s.retries + 1)
    case DeliverAck(ack) => if Accepts(s, ack, |y.source|) then Acked(s, ack) else s
    case _ => s
  }

  function ReachedBy(c: Controller, id: Byte, before: nat): (reached: nat)
  {
    if Owns(c, id) then c.session.expectedSeq else before
  }

  predicate DeletedBy(y: System, step: Step, next: Controller)
  {
    && Owns(y.controller, y.id) && step.OtherCommand? && step.command.FileDelete?
    && y.path in y.controller.storage.files && y.path !in next.storage.files
  }

  function Apply(y: System, step: Step): (z: System)
    requires Enabled(y, step) && |y.source| <= ALL_ONES
  {
    var o, s := React(y, step), StepSender(y, step);
    y.(sender := s, controller := o.next,
       data := y.data + Elements(s.inFlight),
       acks := y.acks + if step.DeliverData? then AcksIn(o.replies) else {},
       reached := ReachedBy(o.next, y.id, y.reached),
       deleted := y.deleted || DeletedBy(y, step, o.next))
  }

  // ----- the invariant -----

  ghost predicate AllGenuine(data: set<PendingChunk>, source: seq<Byte>, next: nat)
  {
    next <= ChunkCount(|source|)
    && forall chunk :: chunk in data ==> chunk.sequence < next && chunk.data == Chunk(source, chunk.sequence)
  }

  ghost predicate Truthful(acks: set<Ack>, size: nat, reached: nat)
  {
    forall ack :: ack in acks ==> ack.sequence < reached && ack.committed == Committed(size, ack.sequence + 1)
  }

  /** As long as this transfer has the session, it holds exactly the first `reached` chunks of the file, in its
      counters, its check and on the card. */
  ghost predicate Holds(c: Controller, source: seq<Byte>, path: string, id: Byte, reached: nat, deleted: bool)
  {
    var s, stored := c.session, source[..Committed(|source|, reached)];
    Owns(c, id) ==>
      && s.path == path && s.file == Some(path) && s.expectedSize == |source|
      && s.expectedSeq == reached && s.bytesWritten == |stored| && s.crc == Crc32.Running(stored)
      && (path in c.storage.files ==> c.storage.files[path] == stored)
      && (path in c.storage.files <==> !deleted)
  }

  ghost predicate Inv(y: System)
  {
    && |y.source| <= ALL_ONES
    && SenderInv(y.sender, y.source)
    && y.sender.committed == Committed(|y.source|, y.sender.Base())
    && y.sender.Base() <= y.reached <= y.sender.next
    && AllGenuine(y.data, y.source, y.sender.next)
    && Truthful(y.acks, |y.source|, y.reached)
    && Holds(y.controller, y.source, y.path, y.id, y.reached, y.deleted)
  }

  /** The controller has just answered that it is ready for this file. */
  ghost predicate Initial(y: System)
  {
    && |y.source| <= ALL_ONES && y.sender == START && y.data == {} && y.acks == {} && y.reached == 0 && !y.deleted
    && y.controller.session == Session(true, y.id, |y.source|, 0, 0, ALL_ONES, y.path, Some(y.path))
    && y.path in y.controller.storage.files && y.controller.storage.files[y.path] == []
  }

  lemma {:induction false} InitialInv(y: System)
    requires Initial(y)
    ensures Inv(y)
  {
    SlicesEmpty(y.source, 0);
    assert y.source[..0] == [];
    assert ChunkCount(|y.source|) < ALL_ONES;
  }

  /** An accepted upload request is where an upload starts: an empty file and a session that expects the first chunk. */
  lemma {:induction false} ReadyIsInitial(c: Controller, rawName: string, source: seq<Byte>, overwrite: bool,
                                          free: Option<int>, openOk: bool)
    requires |source| <= ALL_ONES
    requires var o := BeginUpload(c, rawName, |source|, overwrite, free, openOk);
      |o.replies| == 1 && o.replies[0].UploadReady?
    ensures var o, path := BeginUpload(c, rawName, |source|, overwrite, free, openOk), PathOf(NameOf(rawName));
      && o.replies[0] == UploadReady(c.nextUploadId, |source|, CHUNK_SIZE) && o.next.session.active
      && Holds(o.next, source, path, c.nextUploadId, 0, false)
      && Initial(System(source, path, c.nextUploadId, START, o.next, {}, {}, 0, false))
  {
    assert source[..0] == [];
  }

  // ----- every step keeps the invariant -----

  lemma {:induction false} SenderStepKeepsInv(y: System, step: Step)
    requires Inv(y) && Enabled(y, step)
    ensures var s := StepSender(y, step);
            && SenderInv(s, y.source) && s.committed == Committed(|y.source|, s.Base())
            && s.Base() <= y.reached && y.sender.next <= s.next
  {
    hide Chunk, ChunkCount, Slices, Crc32.Register, Crc32.Running, Accepts, Filled, Holds, AllGenuine, Committed;
    match step
    case Fill => FilledKeepsInv(y.sender, y.source);
    case DeliverAck(ack) =>
      if Accepts(y.sender, ack, |y.source|) {
        AckedKeepsInv(y.sender, y.source, ack);
        AckedResetsRetries(y.sender, ack);
      }
    case _ =>
  }

  lemma {:induction false} WindowIsGenuine(data: set<PendingChunk>, s: Sender, source: seq<Byte>, next: nat)
    requires SenderInv(s, source) && next <= s.next && AllGenuine(data, source, next)
    ensures AllGenuine(data + Elements(s.inFlight), source, s.next)
  {
    hide Chunk, Crc32.Register, Crc32.Running, Slices, Committed;
    WindowFront(s, source);
  }

  /** A frame with the expected number that still fits and is completely written. */
  lemma {:induction false} TakesFrame(c: Controller, data: seq<Byte>, unlinked: bool)
    requires var s := c.session;
      && |data| <= CHUNK_SIZE && s.active && s.file.Some?
      && s.bytesWritten + |data| <= s.expectedSize && s.expectedSeq < ALL_ONES
    ensures var s := c.session;
      var t := s.(crc := Crc32.Register(s.crc, data),
                  bytesWritten := s.bytesWritten + |data|, expectedSeq := s.expectedSeq + 1);
      HandleUploadData(c, s.transferId, s.expectedSeq, data, |data|, unlinked) ==
      Outcome(c.(session := t, storage := c.storage.(files := Stored(c.storage.files, s.file.value, data))),
              [UploadAck(t.transferId, s.expectedSeq, t.bytesWritten)])
  {
    hide Crc32.Register, Crc32.Running, Stored;
    assert data[..|data|] == data;
  }

  /** The expected chunk, completely written: counters, check and file move on by one chunk. */
  lemma {:induction false} NextChunkHolds(c: Controller, source: seq<Byte>, path: string, id: Byte, reached: nat,
                                          deleted: bool, unlinked: bool)
    requires reached < ChunkCount(|source|) && |source| <= ALL_ONES
    requires Owns(c, id) && Holds(c, source, path, id, reached, deleted)
    ensures var data := Chunk(source, reached);
      var o := HandleUploadData(c, id, reached, data, |data|, unlinked);
      && Owns(o.next, id)
      && Holds(o.next, source, path, id, reached + 1, deleted)
      && o.replies == [UploadAck(id, reached, Committed(|source|, reached + 1))]
  {
    hide Crc32.Register, Crc32.Running, Chunk, HandleUploadData;
    ChunksConcatenate(source, reached);
    NextCrc(source, reached);
    TakesFrame(c, Chunk(source, reached), unlinked);
  }

  /** Any other frame of this transfer leaves the session as it is and is acknowledged again, or ends the session. */
  lemma {:induction false} OtherChunkHolds(c: Controller, source: seq<Byte>, path: string, id: Byte, reached: nat,
                                           deleted: bool, chunk: PendingChunk, written: nat, unlinked: bool)
    requires Holds(c, source, path, id, reached, deleted)
    requires written <= |chunk.data| <= CHUNK_SIZE
    requires Owns(c, id) && chunk.sequence == reached ==> written != |chunk.data|
    ensures var o := HandleUploadData(c, id, chunk.sequence, chunk.data, written, unlinked);
      && Holds(o.next, source, path, id, reached, deleted)
      && (Owns(o.next, id) ==>
            Owns(c, id) && chunk.sequence < reached
            && o.replies == [UploadAck(id, reached - 1, Committed(|source|, reached))])
      && (!Owns(o.next, id) ==> |o.replies| == 1 && !o.replies[0].UploadAck?)
  {
    hide Crc32.Register, Crc32.Running, Chunk;
  }

  /** One delivered frame: the session takes the chunk it expects, acknowledges again what it has, and ends on a gap. */
  lemma {:induction false} DataStepHolds(y: System, chunk: PendingChunk, written: nat, unlinked: bool)
    requires Inv(y) && Enabled(y, DeliverData(chunk, written, unlinked))
    ensures var o := React(y, DeliverData(chunk, written, unlinked));
      var reached := ReachedBy(o.next, y.id, y.reached);
      && y.reached <= reached <= y.sender.next
      && Holds(o.next, y.source, y.path, y.id, reached, y.deleted)
      && Truthful(AcksIn(o.replies), |y.source|, reached)
  {
    hide Crc32.Register, Crc32.Running, Slices, HandleUploadData, Chunk, ChunkCount, Committed;
    if Owns(y.controller, y.id) && chunk.sequence == y.reached && written == |chunk.data| {
      NextChunkHolds(y.controller, y.source, y.path, y.id, y.reached, y.deleted, unlinked);
    } else {
      OtherChunkHolds(y.controller, y.source, y.path, y.id, y.reached, y.deleted, chunk, written, unlinked);
    }
  }

  lemma {:induction false} OtherStepHolds(y: System, command: Command)
    requires Inv(y) && Enabled(y, OtherCommand(command))
    ensures var o := React(y, OtherCommand(command));
      && Holds(o.next, y.source, y.path, y.id, y.reached, y.deleted || DeletedBy(y, OtherCommand(command), o.next))
      && (Owns(o.next, y.id) ==> o.next.session == y.controller.session)
  {
    hide Crc32.Register, Crc32.Running, SenderInv, AllGenuine, Truthful, Committed, NameOf, ValidName;
    match command
    case FileLoad(_, _) =>
    case FileUnload =>
    case FileDelete(rawName, unlinked) =>
    case FileUpload(_, _, _, _, _) =>
    case _ =>
  }

  lemma {:induction false} EndStepHolds(y: System, crc: U32, unlinked: bool)
    requires Inv(y)
    ensures !Owns(FinishUpload(y.controller, crc, unlinked).next, y.id)
  {
  }

  lemma {:induction false} ApplyKeepsInv(y: System, step: Step)
    requires Inv(y) && Enabled(y, step)
    ensures Inv(Apply(y, step))
  {
    hide Crc32.Register, Crc32.Running, SenderInv, Slices, Chunk, ChunkCount, Handle, HandleUploadData, FinishUpload,
         Filled, Accepts, Acked;
    SenderStepKeepsInv(y, step);
    WindowIsGenuine(y.data, StepSender(y, step), y.source, y.sender.next);
    match step
    case DeliverData(chunk, written, unlinked) => DataStepHolds(y, chunk, written, unlinked);
    case DeliverEnd(crc, unlinked) => EndStepHolds(y, crc, unlinked);
    case OtherCommand(command) => OtherStepHolds(y, command);
    case _ =>
  }

  // ----- safety over every run -----

  ghost predicate Next(y: System, z: System)
  {
    |y.source| <= ALL_ONES && exists step: Step :: Enabled(y, step) && z == Apply(y, step)
  }

  /** The states of a run, from the start of an upload on. */
  ghost predicate IsTrace(trace: seq<System>)
  {
    && trace != [] && Initial(trace[0])
    && forall i, j {:trigger Next(trace[i], trace[j])} :: 0 <= i && j == i + 1 < |trace| ==> Next(trace[i], trace[j])
  }

  /** Some run leads to `z`. */
  ghost predicate Reachable(z: System)
  {
    exists trace: seq<System> :: trace != [] && IsTrace(trace) && trace[|trace| - 1] == z
  }

  lemma {:induction false} TraceKeepsInv(trace: seq<System>, i: nat)
    requires IsTrace(trace) && i < |trace|
    ensures Inv(trace[i])
    decreases i
  {
    hide Inv, Apply, Enabled, Initial;
    if i == 0 {
      InitialInv(trace[0]);
    } else {
      var y := trace[i - 1];
      TraceKeepsInv(trace, i - 1);
      assert Next(trace[i - 1], trace[i]);
      var step: Step :| Enabled(y, step) && trace[i] == Apply(y, step);
      ApplyKeepsInv(y, step);
    }
  }

  /** The joint invariant holds in every state of every run. */
  lemma {:induction false} ReachableInv(z: System)
    requires Reachable(z)
    ensures Inv(z)
  {
    hide Inv, IsTrace;
    var trace: seq<System> :| trace != [] && IsTrace(trace) && trace[|trace| - 1] == z;
    TraceKeepsInv(trace, |trace| - 1);
  }

  /** In every reachable state in which this transfer has the session, that session has stored exactly the chunks below
      the one it expects, and the three positions are ordered: acknowledged, expected, sent. */
  lemma {:induction false} StoredPrefix(z: System)
    requires Reachable(z) && Owns(z.controller, z.id)
    ensures var expected, size, files := z.controller.session.expectedSeq, |z.source|, z.controller.storage.files;
      && z.sender.Base() <= expected <= z.sender.next
      && (z.path in files <==> !z.deleted)
      && (z.path in files ==>
            files[z.path] == z.source[..if size < expected * CHUNK_SIZE then size else expected * CHUNK_SIZE])
  {
    hide Reachable, Slices, Crc32.Register, Crc32.Running;
    ReachableInv(z);
  }

  /** Whenever the controller reports this upload complete, whatever was lost, repeated or reordered before, whatever
      other uploads there were and whatever check it was given, the card holds exactly the source, if and only if the
      file was not deleted by name during the session. */
  lemma {:induction false} ReportedCompleteIsStored(z: System, crc: U32, unlinked: bool)
    requires |z.source| <= ALL_ONES && Reachable(z)
    ensures var o := React(z, DeliverEnd(crc, unlinked));
      o.replies[0].UploadEnd? && o.replies[0].transferId == z.id ==>
        && o.replies == [UploadEnd(z.id, |z.source|)]
        && (z.path in o.next.storage.files && o.next.storage.files[z.path] == z.source <==> !z.deleted)
  {
    hide Reachable, Holds, Crc32.Register, Crc32.Running, SenderInv, AllGenuine, Truthful;
    ReachableInv(z);
    EndReplyMeansStored(z.controller, z.source, z.path, z.id, z.reached, z.deleted, crc, unlinked);
  }

  /** No step but the final command of a sender is ever answered that way. */
  lemma {:induction false} OnlyEndReplies(z: System, step: Step, reply: Reply)
    requires Enabled(z, step) && reply in React(z, step).replies && reply.UploadEnd?
    ensures step.DeliverEnd?
  {
    hide Crc32.Register, Crc32.Running, NameOf, ValidName;
  }

  lemma {:induction false} EndReplyMeansStored(c: Controller, source: seq<Byte>, path: string, id: Byte,
                                               reached: nat, deleted: bool, crc: U32, unlinked: bool)
    requires Holds(c, source, path, id, reached, deleted)
    ensures var o := FinishUpload(c, crc, unlinked);
      o.replies[0].UploadEnd? && o.replies[0].transferId == id ==>
        && o.replies == [UploadEnd(id, |source|)]
        && (path in o.next.storage.files && o.next.storage.files[path] == source <==> !deleted)
  {
    hide Crc32.Register, Crc32.Running;
    if Owns(c, id) && c.session.bytesWritten == c.session.expectedSize {
      assert Committed(|source|, reached) == |source|;
      assert source[..|source|] == source;
    }
  }

  /** Once every chunk is acknowledged, the final check cannot fail, neither on the size nor on the checksum. */
  lemma {:induction false} FinalCheckSucceeds(z: System, unlinked: bool)
    requires |z.source| <= ALL_ONES && Reachable(z)
    requires Owns(z.controller, z.id) && z.sender.Base() == ChunkCount(|z.source|)
    ensures FinishUpload(z.controller, ALL_ONES - z.sender.crc, unlinked).replies == [UploadEnd(z.id, |z.source|)]
  {
    hide Reachable, Slices, Crc32.Register, Crc32.Running;
    ReachableInv(z);
    AllCommitted(|z.source|);
  }

  /** Every acknowledgement that can arrive is accepted if and only if it advances the window. */
  lemma {:induction false} AckAcceptedIffAdvances(z: System, ack: Ack)
    requires Reachable(z) && ack in z.acks && z.sender.inFlight != []
    ensures Accepts(z.sender, ack, |z.source|) <==> ack.sequence >= z.sender.Base()
  {
    hide Reachable, Slices, Crc32.Register, Crc32.Running;
    ReachableInv(z);
    AcceptedIffAdvances(z.sender, z.source, ack);
  }

  /** The window holds at most eight chunks, those from the first unacknowledged one on, each with its part of the
      file. */
  lemma {:induction false} WindowHoldsItsChunks(z: System, j: nat)
    requires Reachable(z) && j < |z.sender.inFlight|
    ensures var s := z.sender;
      && |s.inFlight| == s.next - s.Base() <= WINDOW
      && s.inFlight[j].sequence == s.Base() + j < ChunkCount(|z.source|)
      && s.inFlight[j].data == Chunk(z.source, s.Base() + j)
  {
    hide Reachable, Slices, Crc32.Register, Crc32.Running, Chunk, Holds, AllGenuine, Truthful;
    ReachableInv(z);
    WindowFront(z.sender, z.source);
  }

  // ----- a completed upload that is not on the card -----

  lemma {:induction false} StepIsReachable(y: System, step: Step)
    requires |y.source| <= ALL_ONES && Reachable(y) && Enabled(y, step)
    ensures Reachable(Apply(y, step))
  {
    hide Initial, Apply, Enabled;
    var trace: seq<System> :| trace != [] && IsTrace(trace) && trace[|trace| - 1] == y;
    var longer := trace + [Apply(y, step)];
    assert Next(y, Apply(y, step));
    forall i, j | 0 <= i && j == i + 1 < |longer| ensures Next(longer[i], longer[j]) {
      if j < |trace| {
        assert Next(trace[i], trace[j]);
      }
    }
    assert longer[|longer| - 1] == Apply(y, step);
  }

  lemma {:induction false} InitialIsReachable(y: System)
    requires Initial(y)
    ensures Reachable(y)
  {
    assert IsTrace([y]) && [y][|[y]| - 1] == y;
  }

  /** DELETE is not refused during an upload. A file of one chunk is sent and stored, then deleted by name; the final
      command is nevertheless answered with completion, and the file is not on the card. */
  lemma {:induction false} DeletedUploadIsReported(source: seq<Byte>) returns (z: System)
    requires 0 < |source| <= CHUNK_SIZE
    ensures z.source == source && Reachable(z) && z.deleted
    ensures var o := React(z, DeliverEnd(Crc32.Checksum(source), true));
      o.replies == [UploadEnd(z.id, |source|)] && z.path !in o.next.storage.files
  {
    hide Crc32.Register, Crc32.Running, Reachable, Apply, Inv, React, Filled;
    var c := Controller(Session(true, 1, |source|, 0, 0, ALL_ONES, "/a", Some("/a")),
                        Storage(map["/a" := []], 1, 0), NO_JOB, 2, 1);
    var start := System(source, "/a", 1, START, c, {}, {}, 0, false);
    InitialIsReachable(start);
    var sent, stored := OneChunkIsStored(start);
    var delete := OtherCommand(FileDelete("a", true));
    z := Apply(stored, delete);
    StepIsReachable(start, Fill);
    StepIsReachable(sent, DeliverData(PendingChunk(0, source), |source|, true));
    StepIsReachable(stored, delete);
    DeleteTakesEffect(stored, z);
  }

  lemma {:induction false} OneChunkIsStored(start: System) returns (sent: System, stored: System)
    requires Initial(start) && 0 < |start.source| <= CHUNK_SIZE
    ensures var deliver := DeliverData(PendingChunk(0, start.source), |start.source|, true);
      && Enabled(start, Fill) && sent == Apply(start, Fill) && sent.source == start.source
      && Enabled(sent, deliver) && stored == Apply(sent, deliver)
    ensures stored.source == start.source && stored.path == start.path && stored.id == start.id && !stored.deleted
    ensures stored.controller.job == start.controller.job && Owns(stored.controller, stored.id)
    ensures Inv(stored) && stored.reached == 1
  {
    hide Crc32.Register, Crc32.Running, SenderInv, Slices, Holds;
    var source := start.source;
    assert Chunk(source, 0) == source;
    InitialInv(start);
    FilledIsOneChunk(start.sender, source);
    sent := Apply(start, Fill);
    ApplyKeepsInv(start, Fill);
    var deliver := DeliverData(PendingChunk(0, source), |source|, true);
    assert PendingChunk(0, source) in sent.data;
    stored := Apply(sent, deliver);
    ApplyKeepsInv(sent, deliver);
    TakesFrame(sent.controller, source, true);
  }

  lemma {:induction false} FilledIsOneChunk(s: Sender, source: seq<Byte>)
    requires s == START && 0 < |source| <= CHUNK_SIZE
    ensures PendingChunk(0, source) in Filled(s, source).inFlight
  {
    hide Crc32.Register, Crc32.Running;
    assert ChunkCount(|source|) == 1 && Chunk(source, 0) == source;
    var t := Sent(s, source);
    assert t.inFlight == [PendingChunk(0, source)] && Filled(t, source) == t;
  }

  lemma {:induction false} DeleteTakesEffect(y: System, z: System)
    requires Inv(y) && Owns(y.controller, y.id) && !y.deleted && y.path == "/a" && !y.controller.job.running
    requires 0 < |y.source| <= CHUNK_SIZE && y.reached == 1
    requires Enabled(y, OtherCommand(FileDelete("a", true))) && z == Apply(y, OtherCommand(FileDelete("a", true)))
    ensures z.source == y.source && z.id == y.id && z.path == y.path && z.deleted
    ensures var o := React(z, DeliverEnd(Crc32.Checksum(y.source), true));
      o.replies == [UploadEnd(z.id, |y.source|)] && z.path !in o.next.storage.files
  {
    hide Crc32.Register, Crc32.Running, SenderInv, AllGenuine, Truthful;
    assert ReadFixed("a", MAX_FILENAME - 1) == "a" by {
      assert "a"[1..] == "";
      assert ReadFixed("", MAX_FILENAME - 2) == "";
    }
    assert PathOf("a") == "/a" && ValidName("a");
    assert y.source[..Committed(|y.source|, 1)] == y.source;
  }
}
