// The bytes of one chunk, and what writing and truncating do to them.

module ChunkBytes {
  import opened Bytes
  import opened Crc

  /** 64 MB. */
  const CHUNK_SIZE: nat := 67_108_864

  /** Writing at an offset; a gap between the end and the offset is filled with zeros. */
  function Overlay(bytes: str, offset: nat, data: str): (r: str)
    ensures |r| == if offset + |data| < |bytes| then |bytes| else offset + |data|
  {
    (if offset <= |bytes| then bytes[..offset] else bytes + Zeros(offset - |bytes|))
    + data
    + (if offset + |data| < |bytes| then bytes[offset + |data|..] else [])
  }

  /** Cutting, or filling up with zeros. */
  function Truncated(bytes: str, size: nat): (r: str)
    ensures |r| == size
  {
    if size <= |bytes| then bytes[..size] else bytes + Zeros(size - |bytes|)
  }

  lemma OverlayAt(bytes: str, offset: nat, data: str, i: nat)
    requires i < |Overlay(bytes, offset, data)|
    ensures Overlay(bytes, offset, data)[i] ==
            if offset <= i < offset + |data| then data[i - offset] else if i < |bytes| then bytes[i] else 0
  {}

  lemma TruncatedAt(bytes: str, size: nat, i: nat)
    requires i < size
    ensures Truncated(bytes, size)[i] == if i < |bytes| then bytes[i] else 0
  {}
}
