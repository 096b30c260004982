/** The stop-and-wait download: the firmware sends one chunk and waits for its acknowledgement before the next. */
module Download {
  import opened Bytes
  import opened Wrappers
  import opened Chunks
  import opened Firmware
  import Crc32

  /** What the firmware sends; `Failed` is the answer that ends an aborted download. */
  datatype Packet =
    | DataPacket(transferId: Byte, sequence: U32, data: seq<Byte>)
    | CompletePacket(transferId: Byte, crc: U32)
    | FailedPacket

  // ----- the firmware's sender -----

  /** What the firmware hears while it waits. */
  datatype Heard = DownloadAck(transferId: Byte, sequence: U32) | AbortCommand | OtherFrame | NoAnswer

  datatype Phase = Reading | Waiting | Finished | GivenUp

  datatype Sender = Sender(phase: Phase, sequence: U32, position: nat, crc: U32)

  const SENDER_START := Sender(Reading, 0, 0, ALL_ONES)

  /** One turn of the read loop: the next chunk, or the final check at the end of the file. */
  function Read(s: Sender, file: seq<Byte>, id: Byte): (r: (Sender, Packet))
    requires s.position <= |file|
    ensures r.0.position <= |file| && !r.0.phase.Reading?
  {
    var length := if |file| - s.position < CHUNK_SIZE then |file| - s.position else CHUNK_SIZE;
    var data := file[s.position..s.position + length];
    if length == 0 then (s.(phase := Finished), CompletePacket(id, ALL_ONES - s.crc))
    else (s.(phase := Waiting, position := s.position + length, crc := Crc32.Register(s.crc, data)),
          DataPacket(id, s.sequence, data))
  }

  /** One message while waiting. */
  function Hear(s: Sender, heard: Heard, id: Byte): (t: Sender)
    ensures t.position == s.position
  {
    match heard
    case DownloadAck(ackId, sequence) =>
      if ackId == id && sequence == s.sequence then s.(phase := Reading, sequence := Add32(s.sequence, 1)) else s
    case AbortCommand => s.(phase := GivenUp)
    case NoAnswer => s.(phase := GivenUp)
    case OtherFrame => s
  }

  /** Everything the firmware sends, for any sequence of messages; running out of messages is a timeout. */
  function SendAll(s: Sender, file: seq<Byte>, id: Byte, incoming: seq<Heard>): (packets: seq<Packet>)
    requires s.position <= |file|
    decreases |incoming|, if s.phase.Reading? then 1 else 0
  {
    match s.phase
    case Finished => []
    case GivenUp => [FailedPacket]
    case Reading => [Read(s, file, id).1] + SendAll(Read(s, file, id).0, file, id, incoming)
    case Waiting =>
      if incoming == [] then [FailedPacket] else SendAll(Hear(s, incoming[0], id), file, id, incoming[1..])
  }

  // ----- the desktop's receiver -----

  datatype Receiver = Receiver(expected: U32, received: seq<Byte>, crc: U32, result: Option<Option<seq<Byte>>>)

  /** The largest announced size that the desktop accepts. */
  const MAX_DOWNLOAD: nat := 0x7FFF_FFFF

  /** The receiver once the announced size is known; a size that is not supported has failed before the first packet. */
  function Begin(total: nat): (r: Receiver)
  {
    Receiver(0, [], ALL_ONES, if total > MAX_DOWNLOAD then Some(None) else None)
  }

  /** The receiver after one packet. The result, once there is one, is the file or a failure. */
  function Receive(r: Receiver, packet: Packet, id: Byte, total: nat): (t: Receiver)
    requires r.result.None?
  {
    match packet
    case DataPacket(packetId, sequence, data) =>
      if packetId != id || sequence != r.expected then r
      else r.(received := r.received + data, crc := Crc32.Register(r.crc, data), expected := Add32(r.expected, 1))
    case CompletePacket(packetId, crc) =>
      if packetId != id then r
      else if |r.received| != total || ALL_ONES - r.crc != crc then r.(result := Some(None))
      else r.(result := Some(Some(r.received)))
    case FailedPacket => r.(result := Some(None))
  }

  /** The acknowledgement a packet draws: also for a chunk that was already received, never for one ahead. */
  function Answer(r: Receiver, packet: Packet, id: Byte): (acks: seq<U32>)
  {
    if packet.DataPacket? && packet.transferId == id && packet.sequence <= r.expected then [packet.sequence] else []
  }

  /** The receive loop over any packets; running out of packets is a timeout or a cancellation. */
  function ReceiveAll(r: Receiver, packets: seq<Packet>, id: Byte, total: nat): (result: Option<seq<Byte>>)
    decreases |packets|
  {
    if r.result.Some? then r.result.value
    else if packets == [] then None
    else ReceiveAll(Receive(r, packets[0], id, total), packets[1..], id, total)
  }

  function AnswerAll(r: Receiver, packets: seq<Packet>, id: Byte, total: nat): (acks: seq<U32>)
    decreases |packets|
  {
    if r.result.Some? || packets == [] then []
    else Answer(r, packets[0], id) + AnswerAll(Receive(r, packets[0], id, total), packets[1..], id, total)
  }

  // ----- the two loops -----

  /** Waits until the chunk just sent is acknowledged; false when the wait ends otherwise. */
  method WaitDownloadAck(id: Byte, sequence: U32, incoming: seq<Heard>, ghost s: Sender, ghost file: seq<Byte>)
    returns (ok: bool, rest: seq<Heard>)
    requires s.phase == Waiting && s.sequence == sequence && s.position <= |file|
    ensures SendAll(s, file, id, incoming)
         == if ok then SendAll(s.(phase := Reading, sequence := Add32(sequence, 1)), file, id, rest) else [FailedPacket]
    ensures |rest| <= |incoming|
  {
    rest := incoming;
    while rest != []
      invariant |rest| <= |incoming| && SendAll(s, file, id, rest) == SendAll(s, file, id, incoming)
      decreases |rest|
    {
      var heard := rest[0];
      rest := rest[1..];
      if heard == DownloadAck(id, sequence) {
        return true, rest;
      }
      if heard == AbortCommand || heard == NoAnswer {
        assert SendAll(s.(phase := GivenUp), file, id, rest) == [FailedPacket];
        return false, rest;
      }
    }
    ok := false;
  }

  lemma {:induction false} UnrollChunk(s: Sender, t: Sender, data: seq<Byte>, file: seq<Byte>, id: Byte,
                                       incoming: seq<Heard>, earlier: seq<Packet>)
    requires s.phase.Reading? && s.position <= |file| && Read(s, file, id) == (t, DataPacket(id, s.sequence, data))
    ensures earlier + SendAll(s, file, id, incoming)
         == (earlier + [DataPacket(id, s.sequence, data)]) + SendAll(t, file, id, incoming)
  {
  }

  lemma {:induction false} UnrollEnd(s: Sender, file: seq<Byte>, id: Byte, incoming: seq<Heard>)
    requires s.phase.Reading? && s.position == |file|
    ensures SendAll(s, file, id, incoming) == [CompletePacket(id, ALL_ONES - s.crc)]
  {
  }

  /** The firmware's side: reads the file chunk by chunk and returns all packets it sent. */
  method SendFileDownload(table: seq<U32>, file: seq<Byte>, id: Byte, incoming: seq<Heard>)
    returns (packets: seq<Packet>)
    requires Crc32.IsTable(table)
    ensures packets == SendAll(SENDER_START, file, id, incoming)
  {
    hide Crc32.Register, Crc32.Running, Crc32.IsTable, SendAll;
    packets := [];
    var position, crc: U32, sequence: U32, ok, rest := 0, ALL_ONES, 0, true, incoming;
    ghost var whole := SendAll(SENDER_START, file, id, incoming);
    while ok && position < |file|
      invariant 0 <= position <= |file|
      invariant ok ==> whole == packets + SendAll(Sender(Reading, sequence, position, crc), file, id, rest)
      invariant !ok ==> whole == packets + [FailedPacket]
      decreases ok, |file| - position
    {
      ghost var s := Sender(Reading, sequence, position, crc);
      var length := if |file| - position < CHUNK_SIZE then |file| - position else CHUNK_SIZE;
      var buffer := file[position..position + length];
      crc := Crc32.Update(table, crc, buffer);
      packets := packets + [DataPacket(id, sequence, buffer)];
      position := position + length;
      ghost var t := Sender(Waiting, sequence, position, crc);
      UnrollChunk(s, t, buffer, file, id, rest, packets[..|packets| - 1]);
      ok, rest := WaitDownloadAck(id, sequence, rest, t, file);
      sequence := Add32(sequence, 1);
    }
    if !ok {
      packets := packets + [FailedPacket];
    } else {
      UnrollEnd(Sender(Reading, sequence, position, crc), file, id, rest);
      packets := packets + [CompletePacket(id, ALL_ONES - crc)];
    }
  }

  lemma {:induction false} UnrollReceive(r: Receiver, packet: Packet, later: seq<Packet>, id: Byte, total: nat,
                                         earlier: seq<U32>)
    requires r.result.None?
    ensures var t := Receive(r, packet, id, total);
      && ReceiveAll(r, [packet] + later, id, total)
         == (if t.result.Some? then t.result.value else ReceiveAll(t, later, id, total))
      && earlier + AnswerAll(r, [packet] + later, id, total)
         == (earlier + Answer(r, packet, id)) + if t.result.Some? then [] else AnswerAll(t, later, id, total)
  {
    hide Crc32.Register, Crc32.Running;
    assert ([packet] + later)[1..] == later;
  }

  lemma {:induction false} UnrollTimeout(r: Receiver, id: Byte, total: nat)
    requires r.result.None?
    ensures ReceiveAll(r, [], id, total) == None && AnswerAll(r, [], id, total) == []
  {
  }

  lemma {:induction false} NotSupported(packets: seq<Packet>, id: Byte, total: nat)
    requires total > MAX_DOWNLOAD
    ensures ReceiveAll(Begin(total), packets, id, total) == None && AnswerAll(Begin(total), packets, id, total) == []
  {
  }

  /** The desktop's side: takes packets until the download completes or fails, and returns the acknowledgements. */
  method ReceiveFile(table: seq<U32>, packets: seq<Packet>, id: Byte, total: nat)
    returns (result: Option<seq<Byte>>, acks: seq<U32>)
    requires Crc32.IsTable(table)
    ensures result == ReceiveAll(Begin(total), packets, id, total)
    ensures acks == AnswerAll(Begin(total), packets, id, total)
  {
    hide Crc32.Register, Crc32.Running, Crc32.IsTable, ReceiveAll, AnswerAll;
    if total > MAX_DOWNLOAD {
      NotSupported(packets, id, total);
      return None, [];
    }
    ghost var whole := ReceiveAll(Begin(total), packets, id, total);
    ghost var answers := AnswerAll(Begin(total), packets, id, total);
    var expectedSeq: U32, stream: seq<Byte>, downloadCrc: U32, i := 0, [], ALL_ONES, 0;
    acks := [];
    while i < |packets|
      invariant 0 <= i <= |packets|
      invariant ReceiveAll(Receiver(expectedSeq, stream, downloadCrc, None), packets[i..], id, total) == whole
      invariant acks + AnswerAll(Receiver(expectedSeq, stream, downloadCrc, None), packets[i..], id, total) == answers
    {
      var packet := packets[i];
      assert packets[i..] == [packet] + packets[i + 1..];
      ghost var r := Receiver(expectedSeq, stream, downloadCrc, None);
      UnrollReceive(r, packet, packets[i + 1..], id, total, acks);
      i := i + 1;
      match packet
      case DataPacket(packetId, sequence, data) =>
        if packetId == id {
          if sequence < expectedSeq {
            acks := acks + [sequence];
          } else if sequence == expectedSeq {
            stream := stream + data;
            downloadCrc := Crc32.Update(table, downloadCrc, data);
            expectedSeq := Add32(expectedSeq, 1);
            acks := acks + [sequence];
          }
        }
      case CompletePacket(packetId, crc) =>
        if packetId == id {
          if |stream| != total || ALL_ONES - downloadCrc != crc {
            return None, acks;
          }
          return Some(stream), acks;
        }
      case FailedPacket => return None, acks;
    }
    UnrollTimeout(Receiver(expectedSeq, stream, downloadCrc, None), id, total);
    assert acks + [] == acks && packets[i..] == [];
    result := None;
  }

  // ----- both ends and a link that may lose, repeat and reorder -----

  /** `packets` and `acks` hold everything ever sent in each direction. */
  datatype System = System(
    file: seq<Byte>, id: Byte, sender: Sender, receiver: Receiver, packets: set<Packet>, acks: set<U32>)

  datatype Step = SenderReads | SenderHears(heard: Heard) | Deliver(packet: Packet)

  /** Packets of other transfers and failures can arrive at any time; of this transfer only what was sent can. */
  predicate Enabled(y: System, step: Step)
  {
    match step
    case SenderReads => y.sender.phase.Reading?
    case SenderHears(heard) =>
      y.sender.phase.Waiting? && (heard.DownloadAck? && heard.transferId == y.id ==> heard.sequence in y.acks)
    case Deliver(packet) =>
      y.receiver.result.None? && (packet.FailedPacket? || packet.transferId != y.id || packet in y.packets)
  }

  function Apply(y: System, step: Step): (z: System)
    requires Enabled(y, step) && y.sender.position <= |y.file|
  {
    match step
    case SenderReads =>
      var (sender, packet) := Read(y.sender, y.file, y.id);
      y.(sender := sender, packets := y.packets + {packet})
    case SenderHears(heard) => y.(sender := Hear(y.sender, heard, y.id))
    case Deliver(packet) =>
      y.(receiver := Receive(y.receiver, packet, y.id, |y.file|),
         acks := y.acks + set a | a in Answer(y.receiver, packet, y.id))
  }

  ghost predicate SenderInv(s: Sender, file: seq<Byte>)
  {
    var k := s.sequence + if s.phase.Waiting? || s.phase.GivenUp? then 1 else 0;
    && k <= ChunkCount(|file|) && (s.phase.Finished? ==> k == ChunkCount(|file|))
    && s.position == Committed(|file|, k)
    && s.crc == Crc32.Running(file[..Committed(|file|, k)])
  }

  ghost predicate ReceiverInv(r: Receiver, file: seq<Byte>)
  {
    && r.received == file[..Committed(|file|, r.expected)]
    && r.crc == Crc32.Running(file[..Committed(|file|, r.expected)])
    && (r.result.Some? && r.result.value.Some? ==> r.result.value.value == file)
  }

  /** Where the receiver stands: at the sender's chunk, or one further while the acknowledgement is under way. */
  ghost predicate Together(s: Sender, r: Receiver)
  {
    r.expected == s.sequence || ((s.phase.Waiting? || s.phase.GivenUp?) && r.expected == s.sequence + 1)
  }

  ghost predicate Genuine(packet: Packet, s: Sender, file: seq<Byte>, id: Byte)
  {
    match packet
    case DataPacket(packetId, k, data) =>
      && packetId == id && k < ChunkCount(|file|) && data == Chunk(file, k)
      && k < s.sequence + (if s.phase.Waiting? || s.phase.GivenUp? then 1 else 0)
    case CompletePacket(packetId, crc) => packetId == id && s.phase.Finished? && crc == Crc32.Checksum(file)
    case FailedPacket => false
  }

  ghost predicate Inv(y: System)
  {
    && |y.file| <= ALL_ONES && SenderInv(y.sender, y.file) && ReceiverInv(y.receiver, y.file)
    && Together(y.sender, y.receiver)
    && (forall packet :: packet in y.packets ==> Genuine(packet, y.sender, y.file, y.id))
    && (forall a :: a in y.acks ==> a < y.receiver.expected)
  }

  ghost predicate Initial(y: System)
  {
    && |y.file| <= ALL_ONES && y.sender == SENDER_START && y.receiver == Begin(|y.file|)
    && y.packets == {} && y.acks == {}
  }

  lemma {:induction false} InitialInv(y: System)
    requires Initial(y)
    ensures Inv(y)
  {
    assert y.file[..0] == [];
  }

  lemma {:induction false} ReadKeepsInv(y: System)
    requires Inv(y) && Enabled(y, SenderReads)
    ensures Inv(Apply(y, SenderReads))
  {
    hide Crc32.Register, Crc32.Running;
    var s, k := y.sender, y.sender.sequence;
    AllCommitted(|y.file|);
    if k < ChunkCount(|y.file|) {
      NextRead(y.file, k);
      NextCrc(y.file, k);
    } else {
      assert y.file[..|y.file|] == y.file;
    }
  }

  lemma {:induction false} HearKeepsInv(y: System, heard: Heard)
    requires Inv(y) && Enabled(y, SenderHears(heard))
    ensures Inv(Apply(y, SenderHears(heard)))
  {
    hide Crc32.Register, Crc32.Running, Chunk, Committed, ReceiverInv;
  }

  lemma {:induction false} DeliverKeepsInv(y: System, packet: Packet)
    requires Inv(y) && Enabled(y, Deliver(packet))
    ensures Inv(Apply(y, Deliver(packet)))
  {
    hide Crc32.Register, Crc32.Running;
    if packet in y.packets && packet.DataPacket? && packet.sequence == y.receiver.expected {
      ChunksConcatenate(y.file, packet.sequence);
      NextCrc(y.file, packet.sequence);
    } else if packet in y.packets && packet.CompletePacket? {
      AllCommitted(|y.file|);
      assert y.file[..|y.file|] == y.file;
    }
  }

  lemma {:induction false} ApplyKeepsInv(y: System, step: Step)
    requires Inv(y) && Enabled(y, step)
    ensures Inv(Apply(y, step))
  {
    hide Inv, Apply;
    match step
    case SenderReads =>
      assert step == SenderReads;
      ReadKeepsInv(y);
    case SenderHears(heard) => HearKeepsInv(y, heard);
    case Deliver(packet) => DeliverKeepsInv(y, packet);
  }

  // ----- safety over every run -----

  ghost predicate Next(y: System, z: System)
  {
    y.sender.position <= |y.file| && exists step: Step :: Enabled(y, step) && z == Apply(y, step)
  }

  /** The states of a run, from the start of a download on. */
  ghost predicate IsTrace(trace: seq<System>)
  {
    && trace != [] && Initial(trace[0])
    && forall i, j {:trigger Next(trace[i], trace[j])} :: 0 <= i && j == i + 1 < |trace| ==> Next(trace[i], trace[j])
  }

  /** Some run leads to `z`. */
  ghost predicate Reachable(z: System)
  {
    exists trace: seq<System> :: trace != [] && IsTrace(trace) && trace[|trace| - 1] == z
  }

  lemma {:induction false} TraceKeepsInv(trace: seq<System>, i: nat)
    requires IsTrace(trace) && i < |trace|
    ensures Inv(trace[i])
    decreases i
  {
    hide Inv, Apply, Enabled, Initial;
    if i == 0 {
      InitialInv(trace[0]);
    } else {
      var y := trace[i - 1];
      TraceKeepsInv(trace, i - 1);
      assert Next(trace[i - 1], trace[i]);
      var step: Step :| Enabled(y, step) && trace[i] == Apply(y, step);
      ApplyKeepsInv(y, step);
    }
  }

  /** The joint invariant holds in every state of every run. */
  lemma {:induction false} ReachableKeepsInv(z: System)
    requires Reachable(z)
    ensures Inv(z)
  {
    hide Inv, IsTrace;
    var trace: seq<System> :| trace != [] && IsTrace(trace) && trace[|trace| - 1] == z;
    TraceKeepsInv(trace, |trace| - 1);
  }

  /** A download that returns bytes returns exactly the file, whatever the link did. */
  lemma {:induction false} DownloadedIsFile(z: System)
    requires Reachable(z) && z.receiver.result.Some? && z.receiver.result.value.Some?
    ensures z.receiver.result.value.value == z.file
  {
    hide Reachable, Crc32.Register, Crc32.Running;
    ReachableKeepsInv(z);
  }

  /** The receiver is at the sender's chunk or one ahead, and always holds a prefix of the file in whole chunks. */
  lemma {:induction false} ReceiverHoldsPrefix(z: System)
    requires Reachable(z)
    ensures var expected, size := z.receiver.expected, |z.file|;
      && (expected == z.sender.sequence || expected == z.sender.sequence + 1)
      && z.receiver.received == z.file[..if expected * CHUNK_SIZE < size then expected * CHUNK_SIZE else size]
  {
    hide Reachable, Crc32.Register, Crc32.Running;
    ReachableKeepsInv(z);
  }

  /** When the final packet of this transfer arrives, neither size nor check can be wrong: the download returns. */
  lemma {:induction false} CompleteAlwaysReturns(z: System, packet: Packet)
    requires Reachable(z) && Enabled(z, Deliver(packet)) && packet.CompletePacket? && packet.transferId == z.id
    ensures Receive(z.receiver, packet, z.id, |z.file|).result == Some(Some(z.file))
  {
    hide Reachable, Crc32.Register, Crc32.Running;
    ReachableKeepsInv(z);
    AllCommitted(|z.file|);
    assert z.file[..|z.file|] == z.file;
  }

  /** A packet adds bytes exactly when its chunk is new: one that was received before never appends. */
  lemma {:induction false} OnlyNewChunksAppend(z: System, packet: Packet)
    requires Reachable(z) && Enabled(z, Deliver(packet))
    ensures |Receive(z.receiver, packet, z.id, |z.file|).received| > |z.receiver.received|
       <==> packet.DataPacket? && packet.transferId == z.id && packet.sequence * CHUNK_SIZE == |z.receiver.received|
  {
    hide Reachable, Crc32.Register, Crc32.Running;
    ReachableKeepsInv(z);
  }

  // ----- what the firmware sends -----

  /** The chunks from the `k`-th on in order, one packet each, then one closing packet: complete after the last chunk,
      or failed. */
  ghost predicate ChunksThenEnd(p: seq<Packet>, k: nat, file: seq<Byte>, id: Byte)
    requires |file| <= ALL_ONES
    decreases |p|
  {
    if |p| == 1 then
      p[0] == FailedPacket || (p[0] == CompletePacket(id, Crc32.Checksum(file)) && k == ChunkCount(|file|))
    else
      && |p| > 1 && k < ChunkCount(|file|) && p[0] == DataPacket(id, k, Chunk(file, k))
      && ChunksThenEnd(p[1..], k + 1, file, id)
  }

  lemma {:induction false} SendsChunksInOrder(s: Sender, file: seq<Byte>, id: Byte, incoming: seq<Heard>)
    requires |file| <= ALL_ONES && SenderInv(s, file) && (s.phase.Reading? || s.phase.Waiting?)
    ensures ChunksThenEnd(SendAll(s, file, id, incoming), s.sequence + (if s.phase.Waiting? then 1 else 0), file, id)
    decreases |incoming|, if s.phase.Reading? then 1 else 0
  {
    hide Crc32.Register, Crc32.Running, Chunk, ChunkCount, Hear, Read, ChunksThenEnd, SenderInv;
    EndAlone(FailedPacket, s.sequence + 1, file, id);
    if s.phase.Reading? {
      ReadInOrder(s, file, id);
      var (t, packet) := Read(s, file, id);
      if t.phase.Waiting? {
        SendsChunksInOrder(t, file, id, incoming);
        OneMoreChunk(packet, SendAll(t, file, id, incoming), s.sequence, file, id);
      } else {
        EndAlone(packet, s.sequence, file, id);
        assert [packet] + [] == [packet];
      }
    } else if incoming != [] {
      HearInOrder(s, incoming[0], id, file);
      var t := Hear(s, incoming[0], id);
      if !t.phase.GivenUp? {
        SendsChunksInOrder(t, file, id, incoming[1..]);
      }
    }
  }

  lemma {:induction false} EndAlone(packet: Packet, k: nat, file: seq<Byte>, id: Byte)
    requires |file| <= ALL_ONES
    requires packet == FailedPacket || (packet == CompletePacket(id, Crc32.Checksum(file)) && k == ChunkCount(|file|))
    ensures ChunksThenEnd([packet], k, file, id)
  {
  }

  lemma {:induction false} OneMoreChunk(packet: Packet, later: seq<Packet>, k: nat, file: seq<Byte>, id: Byte)
    requires |file| <= ALL_ONES && k < ChunkCount(|file|) && packet == DataPacket(id, k, Chunk(file, k))
    requires ChunksThenEnd(later, k + 1, file, id)
    ensures ChunksThenEnd([packet] + later, k, file, id)
  {
    hide Crc32.Register, Crc32.Running, Chunk;
    assert ([packet] + later)[1..] == later;
  }

  lemma {:induction false} ReadInOrder(s: Sender, file: seq<Byte>, id: Byte)
    requires |file| <= ALL_ONES && SenderInv(s, file) && s.phase.Reading?
    ensures s.position <= |file|
    ensures var (t, packet) := Read(s, file, id);
      && SenderInv(t, file) && t.sequence == s.sequence
      && s.sequence <= ChunkCount(|file|)
      && (if s.sequence < ChunkCount(|file|)
          then t.phase.Waiting? && packet == DataPacket(id, s.sequence, Chunk(file, s.sequence))
          else t.phase.Finished? && packet == CompletePacket(id, Crc32.Checksum(file)))
  {
    hide Crc32.Register, Crc32.Running;
    AllCommitted(|file|);
    if s.sequence < ChunkCount(|file|) {
      NextRead(file, s.sequence);
      NextCrc(file, s.sequence);
    } else {
      assert file[..|file|] == file;
    }
  }

  lemma {:induction false} HearInOrder(s: Sender, heard: Heard, id: Byte, file: seq<Byte>)
    requires |file| <= ALL_ONES && SenderInv(s, file) && s.phase.Waiting?
    ensures var t := Hear(s, heard, id);
      && SenderInv(t, file) && !t.phase.Finished?
      && t.sequence == s.sequence + (if t.phase.Reading? then 1 else 0)
  {
    hide Crc32.Register, Crc32.Running, Committed;
  }

  lemma {:induction false} EndsAfterAllChunks(p: seq<Packet>, k: nat, file: seq<Byte>, id: Byte)
    requires |file| <= ALL_ONES && ChunksThenEnd(p, k, file, id)
    ensures forall i :: 0 <= i < |p| - 1 ==> p[i].DataPacket?
    ensures p[|p| - 1] == FailedPacket
         || (p[|p| - 1] == CompletePacket(id, Crc32.Checksum(file)) && k + |p| - 1 == ChunkCount(|file|))
    decreases |p|
  {
    hide Crc32.Register, Crc32.Running, Chunk, ChunkCount;
    if |p| > 1 {
      EndsAfterAllChunks(p[1..], k + 1, file, id);
      assert forall i :: 0 < i < |p| ==> p[i] == p[1..][i - 1];
    }
  }

  /** A download that completes took exactly ceil(size / 4096) data packets, the chunks of the file in order. */
  lemma {:induction false} CompletedSendIsWholeFile(file: seq<Byte>, id: Byte, incoming: seq<Heard>)
    requires |file| <= ALL_ONES
    ensures var p := SendAll(SENDER_START, file, id, incoming);
      && ChunksThenEnd(p, 0, file, id)
      && (p[|p| - 1] != FailedPacket ==>
            |p| == ChunkCount(|file|) + 1 && p[|p| - 1] == CompletePacket(id, Crc32.Checksum(file)))
  {
    hide SendAll;
    assert file[..0] == [];
    SendsChunksInOrder(SENDER_START, file, id, incoming);
    EndsAfterAllChunks(SendAll(SENDER_START, file, id, incoming), 0, file, id);
  }

  // ----- a link that loses nothing -----

  /** The acknowledgements of chunks `from` to the last. */
  function AcksFrom(id: Byte, from: nat, count: nat): (acks: seq<Heard>)
    requires from <= count <= ALL_ONES
    decreases count - from
  {
    if from == count then [] else [DownloadAck(id, from)] + AcksFrom(id, from + 1, count)
  }

  function AsHeard(id: Byte, acks: seq<U32>): (heard: seq<Heard>)
  {
    if acks == [] then [] else [DownloadAck(id, acks[0])] + AsHeard(id, acks[1..])
  }

  lemma {:induction false} LosslessFrom(s: Sender, r: Receiver, file: seq<Byte>, id: Byte)
    requires |file| <= ALL_ONES && SenderInv(s, file) && s.phase.Reading?
    requires ReceiverInv(r, file) && r.expected == s.sequence && r.result.None?
    ensures ChunkCount(|file|) <= ALL_ONES
    ensures var acks := AcksFrom(id, s.sequence, ChunkCount(|file|));
      var packets := SendAll(s, file, id, acks);
      && ReceiveAll(r, packets, id, |file|) == Some(file)
      && AsHeard(id, AnswerAll(r, packets, id, |file|)) == acks
    decreases ChunkCount(|file|) - s.sequence
  {
    hide Crc32.Register, Crc32.Running, Chunk, Committed;
    var k := s.sequence;
    ReadInOrder(s, file, id);
    if k < ChunkCount(|file|) {
      var (t, packet) := Read(s, file, id);
      var later := AcksFrom(id, k + 1, ChunkCount(|file|));
      var u, r' := Hear(t, DownloadAck(id, k), id), Receive(r, packet, id, |file|);
      HearInOrder(t, DownloadAck(id, k), id, file);
      ChunksConcatenate(file, k);
      NextCrc(file, k);
      LosslessFrom(u, r', file, id);
      assert ([DownloadAck(id, k)] + later)[1..] == later;
      var packets := SendAll(u, file, id, later);
      assert ([packet] + packets)[1..] == packets;
      assert ([k as U32] + AnswerAll(r', packets, id, |file|))[1..] == AnswerAll(r', packets, id, |file|);
    } else {
      FinishReceive(r, file, id);
    }
  }

  lemma {:induction false} FinishReceive(r: Receiver, file: seq<Byte>, id: Byte)
    requires ReceiverInv(r, file) && r.expected == ChunkCount(|file|) && r.result.None?
    ensures ReceiveAll(r, [CompletePacket(id, Crc32.Checksum(file))], id, |file|) == Some(file)
    ensures AnswerAll(r, [CompletePacket(id, Crc32.Checksum(file))], id, |file|) == []
  {
    hide Crc32.Register, Crc32.Running;
    AllCommitted(|file|);
    assert file[..|file|] == file;
  }

  /** Both ends over a link that loses nothing: the receiver's answers are the acknowledgements the sender needs, and
      the download returns the file, if and only if its size is supported. */
  lemma {:induction false} LosslessDownload(file: seq<Byte>, id: Byte)
    requires |file| <= ALL_ONES
    ensures ChunkCount(|file|) <= ALL_ONES
    ensures var acks := AcksFrom(id, 0, ChunkCount(|file|));
      var packets := SendAll(SENDER_START, file, id, acks);
      if |file| <= MAX_DOWNLOAD then
        && ReceiveAll(Begin(|file|), packets, id, |file|) == Some(file)
        && AsHeard(id, AnswerAll(Begin(|file|), packets, id, |file|)) == acks
      else
        ReceiveAll(Begin(|file|), packets, id, |file|) == None
  {
    hide SendAll, ReceiveAll, AnswerAll;
    assert file[..0] == [];
    if |file| <= MAX_DOWNLOAD {
      LosslessFrom(SENDER_START, Begin(|file|), file, id);
    } else {
      NotSupported(SendAll(SENDER_START, file, id, AcksFrom(id, 0, ChunkCount(|file|))), id, |file|);
    }
  }
}
