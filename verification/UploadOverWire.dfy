/** The upload carried over the framed link: chunks and acknowledgements as frames, frames as bytes on the wire. */
module UploadOverWire {
  import opened Bytes
  import opened Wrappers
  import opened Frames
  import opened Chunks
  import opened UploadSender
  import opened LosslessUpload
  import Crc32
  import D = DesktopReceiver
  import Firmware
  import R = Receivers
  import UploadSystem

  const UPLOAD_DATA: Byte := 1
  const UPLOAD_ACK: Byte := 2

  /** The frames the desktop builds for a window of chunks. */
  function DataFrames(id: Byte, chunks: seq<PendingChunk>): (frames: seq<Frame>)
  {
    if chunks == [] then []
    else [Frame(UPLOAD_DATA, id, 0, chunks[0].sequence, chunks[0].data)] + DataFrames(id, chunks[1..])
  }

  /** What the controller's upload handler takes from the frames it receives. */
  function ChunksOf(id: Byte, frames: seq<Frame>): (chunks: seq<PendingChunk>)
  {
    if frames == [] then []
    else
      (if frames[0].frameType == UPLOAD_DATA && frames[0].transferId == id
       then [PendingChunk(frames[0].sequence, frames[0].payload)] else [])
      + ChunksOf(id, frames[1..])
  }

  /** The frames of the controller's acknowledgements; other answers travel as responses. */
  function AckFrames(replies: seq<Firmware.Reply>): (frames: seq<Frame>)
  {
    if replies == [] then []
    else
      (if replies[0].UploadAck?
       then [Frame(UPLOAD_ACK, replies[0].transferId, 0, replies[0].sequence, WriteU32(replies[0].committed))] else [])
      + AckFrames(replies[1..])
  }

  /** What the desktop puts on its acknowledgement channel for a received frame. */
  function ItemOf(f: Frame): (item: ChannelItem)
  {
    if f.frameType != UPLOAD_ACK then Other
    else ChunkOk(f.transferId, Ack(f.sequence, if |f.payload| >= 4 then ReadU32(f.payload[..4]) else 0))
  }

  function ItemsOf(frames: seq<Frame>): (items: seq<ChannelItem>)
  {
    if frames == [] then [] else [ItemOf(frames[0])] + ItemsOf(frames[1..])
  }

  lemma {:induction false} DataFramesCarryChunks(id: Byte, chunks: seq<PendingChunk>)
    requires AllOneChunk(chunks)
    ensures AllSendable(DataFrames(id, chunks)) && ChunksOf(id, DataFrames(id, chunks)) == chunks
  {
    if chunks != [] {
      DataFramesCarryChunks(id, chunks[1..]);
      var first, rest := Frame(UPLOAD_DATA, id, 0, chunks[0].sequence, chunks[0].data), DataFrames(id, chunks[1..]);
      assert ([first] + rest)[1..] == rest;
      assert first.Sendable();
    }
  }

  lemma {:induction false} AckFramesCarryAcks(id: Byte, acks: seq<Ack>)
    ensures AllSendable(AckFrames(AsReplies(id, acks)))
    ensures ItemsOf(AckFrames(AsReplies(id, acks))) == AsItems(id, acks)
  {
    if acks != [] {
      AckFramesCarryAcks(id, acks[1..]);
      var later := AsReplies(id, acks[1..]);
      assert ([Firmware.UploadAck(id, acks[0].sequence, acks[0].committed)] + later)[1..] == later;
      var first := Frame(UPLOAD_ACK, id, 0, acks[0].sequence, WriteU32(acks[0].committed));
      assert ([first] + AckFrames(later))[1..] == AckFrames(later);
      assert first.Sendable();
      ReadWriteU32(acks[0].committed);
      assert first.payload[..4] == first.payload;
    }
  }

  /** The whole upload in bytes. The desktop stuffs its frames onto the wire, the controller's receiver takes them
      off, its session stores the chunks and answers, and those answers, again as bytes, are the acknowledgements on
      which the desktop's send loop ran: it reaches the final check, which succeeds, and the card holds the source. */
  lemma {:induction false} FileCrossesTheWire(c: Firmware.Controller, receiver: R.Receiver, desktop: D.Desktop,
                                              source: seq<Byte>, path: string, unlinked: bool)
    requires |source| <= ALL_ONES && path != "" && c.session.active && receiver.Aligned() && desktop.Aligned()
    requires UploadSystem.Holds(c, source, path, c.session.transferId, 0, false)
    ensures ChunkCount(|source|) <= ALL_ONES
    ensures var id := c.session.transferId;
      var u := SendLoop(START, source, id, AsItems(id, AcksFrom(|source|, 0)));
      && AllSendable(DataFrames(id, u.frames))
      && var arrived := ChunksOf(id, R.Delivered(receiver, WireAll(DataFrames(id, u.frames))));
      && arrived == u.frames && AllOneChunk(arrived)
      && var o := DeliverAll(c, id, arrived, unlinked);
      && AllSendable(AckFrames(o.replies))
      && ItemsOf(D.Delivered(desktop, WireAll(AckFrames(o.replies)))) == AsItems(id, AcksFrom(|source|, 0))
      && u.result.Finalizing?
      && var end := Firmware.FinishUpload(o.next, u.result.crc, unlinked);
      && end.replies == [Firmware.UploadEnd(id, |source|)]
      && path in end.next.storage.files && end.next.storage.files[path] == source
  {
    hide SendLoop, DeliverAll, Firmware.FinishUpload, UploadSystem.Holds, AsItems, AsReplies, AckFrames, DataFrames,
         ChunksOf, ItemsOf, WireAll, R.Delivered, D.Delivered, AllSendable, AllOneChunk;
    LosslessLinkCompletes(c, source, path, unlinked);
    var id, acks := c.session.transferId, AcksFrom(|source|, 0);
    var u := SendLoop(START, source, id, AsItems(id, acks));
    DataFramesCarryChunks(id, u.frames);
    R.FirmwareDelivers(receiver, DataFrames(id, u.frames));
    AckFramesCarryAcks(id, acks);
    D.DesktopDelivers(desktop, AckFrames(AsReplies(id, acks)));
  }
}
