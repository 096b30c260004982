/** A file cut into chunks of the negotiated size, for both directions of transfer. */
module Chunks {
  import opened Bytes
  import opened Firmware
  import Crc32

  function ChunkCount(size: nat): (n: nat)
  {
    (size + CHUNK_SIZE - 1) / CHUNK_SIZE
  }

  /** The bytes in the first `k` chunks. */
  function Committed(size: nat, k: nat): (bytes: nat)
    ensures bytes <= size
  {
    if k * CHUNK_SIZE < size then k * CHUNK_SIZE else size
  }

  function Chunk(source: seq<Byte>, k: nat): (data: seq<Byte>)
    requires k < ChunkCount(|source|)
    ensures 0 < |data| <= CHUNK_SIZE
  {
    source[k * CHUNK_SIZE..Committed(|source|, k + 1)]
  }

  lemma {:induction false} ChunksConcatenate(source: seq<Byte>, k: nat)
    requires k < ChunkCount(|source|)
    ensures Committed(|source|, k) == k * CHUNK_SIZE
    ensures source[..Committed(|source|, k)] + Chunk(source, k) == source[..Committed(|source|, k + 1)]
  {
  }

  lemma {:induction false} AllCommitted(size: nat)
    ensures Committed(size, ChunkCount(size)) == size
    ensures forall k :: 0 <= k < ChunkCount(size) ==> Committed(size, k) == k * CHUNK_SIZE < size
  {
  }

  /** What one full-size read yields. */
  lemma {:induction false} NextRead(source: seq<Byte>, k: nat)
    requires k < ChunkCount(|source|)
    ensures var position := Committed(|source|, k);
            var length := if |source| - position < CHUNK_SIZE then |source| - position else CHUNK_SIZE;
            && 0 < length && Committed(|source|, k + 1) == position + length
            && Chunk(source, k) == source[position..position + length]
  {
  }

  /** Running the check over one more chunk covers one more chunk of the file. */
  lemma {:induction false} NextCrc(source: seq<Byte>, k: nat)
    requires k < ChunkCount(|source|)
    ensures Crc32.Register(Crc32.Running(source[..Committed(|source|, k)]), Chunk(source, k))
         == Crc32.Running(source[..Committed(|source|, k + 1)])
  {
    ChunksConcatenate(source, k);
    Crc32.RunningAppend(source[..Committed(|source|, k)], Chunk(source, k));
  }
}
