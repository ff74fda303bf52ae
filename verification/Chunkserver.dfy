// A chunkserver: its chunks, their checksum tables, and the operations that keep the two together.
// Copying a chunk to another handle or another server goes through the same operations.

module Chunkserver {
  import opened Bytes
  import opened ChunkTables
  import opened ChunkBytes
  import opened Checksums

  class Chunkserver {
    var chunks: map<Handle, str>
    var checksums: map<Handle, seq<bv32>>

    /** The table of a chunk; an empty chunk has none. */
    function Table(h: Handle): seq<bv32>
      reads this
    {
      if h in checksums then checksums[h] else []
    }

    ghost predicate Sound(h: Handle)
      reads this
    {
      h in chunks && Agrees(chunks[h], Table(h))
    }

    /** Only chunks have tables, and chunks are at most 64 MB. */
    ghost predicate Valid()
      reads this
    {
      && 0 !in chunks
      && checksums.Keys <= chunks.Keys
      && forall h :: h in chunks ==> |chunks[h]| <= CHUNK_SIZE
    }

    constructor ()
      ensures Valid() && chunks == map[] && checksums == map[]
    {
      chunks, checksums := map[], map[];
    }

    method CreateChunk(h: Handle) returns (ok: bool)
      requires Valid()
      modifies this
      ensures Valid()
      ensures ok <==> h != 0 && h !in old(chunks)
      ensures chunks == if ok then old(chunks)[h := []] else old(chunks)
      ensures checksums == old(checksums)
      ensures ok ==> Sound(h)
    {
      if h == 0 || h in chunks {
        return false;
      }
      chunks := chunks[h := []];
      ok := true;
    }

    method DeleteChunk(h: Handle) returns (ok: bool)
      requires Valid()
      modifies this
      ensures Valid()
      ensures ok <==> h in old(chunks)
      ensures chunks == old(chunks) - {h} && checksums == old(checksums) - {h}
    {
      ok := h in chunks;
      chunks := chunks - {h};
      checksums := checksums - {h};
    }

    method ReadBlock(h: Handle, i: nat) returns (data: str)
      requires h in chunks && i < BlockCount(|chunks[h]|)
      ensures data == Block(chunks[h], i)
    {
      var size := |chunks[h]|;
      var start := i * BLOCK;
      var remaining := size - start;
      var length := if remaining < BLOCK then remaining else BLOCK;
      data := chunks[h][start..start + length];
    }

    /** Adjusts the size of the table and recomputes the blocks from first to last. */
    method RecomputeBlocks(h: Handle, first: nat, last: nat) returns (ok: bool)
      requires Valid() && h in chunks
      modifies this`checksums
      ensures Valid()
      ensures ok <==> first <= last < BlockCount(|chunks[h]|)
      ensures ok ==> checksums == old(checksums)[h := Recomputed(old(Table(h)), chunks[h], first, last)]
      ensures !ok ==> checksums == old(checksums)
    {
      hide Block, Crc.Checksum;
      var count := BlockCount(|chunks[h]|);
      if first > last || count == 0 || first >= count || last >= count {
        return false;
      }
      ghost var bytes := chunks[h];
      var old_ := Table(h);
      var blocks := seq(count, i requires 0 <= i < count => if i < |old_| then old_[i] else 0);
      var i := first;
      while i <= last
        invariant first <= i <= last + 1 && |blocks| == count
        invariant forall k :: 0 <= k < count ==>
                    blocks[k] == if first <= k < i then Crc.Checksum(Block(bytes, k)) else if k < |old_| then old_[k] else 0
        invariant checksums == old(checksums)
      {
        var data := ReadBlock(h, i);
        var checksum := Crc.ComputeCRC32(data);
        blocks := blocks[i := checksum];
        i := i + 1;
      }
      checksums := checksums[h := blocks];
      assert blocks == Recomputed(old_, bytes, first, last);
      ok := true;
    }

    method WriteChunk(h: Handle, offset: nat, data: str) returns (ok: bool)
      requires Valid()
      modifies this
      ensures Valid()
      ensures ok <==> h in old(chunks) && offset + |data| <= CHUNK_SIZE
      ensures chunks == if ok then old(chunks)[h := Edited(old(chunks)[h], Write(offset, data))] else old(chunks)
      ensures !ok || data == [] ==> checksums == old(checksums)
      ensures ok && data != [] ==> checksums == old(checksums)[h := EditedTable(old(Table(h)), old(chunks)[h], Write(offset, data))]
      ensures ok && data != [] && old(Sound(h)) ==> (Sound(h) <==> NoGap(old(chunks)[h], offset))
      ensures ok ==> forall i :: 0 <= i < |chunks[h]| ==>
                chunks[h][i] == if offset <= i < offset + |data| then data[i - offset] else if i < |old(chunks)[h]| then old(chunks)[h][i] else 0
    {
      hide Overlay, Block, Crc.Checksum, Recomputed, Agrees, NoGap;
      if h !in chunks || offset > CHUNK_SIZE || |data| > CHUNK_SIZE - offset {
        return false;
      }
      if data == [] {
        assert chunks == chunks[h := chunks[h]];
        return true;
      }
      ghost var bytes, table := chunks[h], Table(h);
      chunks := chunks[h := Overlay(chunks[h], offset, data)];
      LastBlockExists(|chunks[h]|, offset, |data|);
      ok := RecomputeBlocks(h, FirstBlock(offset), LastBlock(offset, |data|));
      if Agrees(bytes, table) {
        WriteAgreesIff(bytes, table, offset, data);
      }
      forall i | 0 <= i < |chunks[h]|
        ensures chunks[h][i] == if offset <= i < offset + |data| then data[i - offset] else if i < |bytes| then bytes[i] else 0
      {
        OverlayAt(bytes, offset, data, i);
      }
    }

    method TruncateChunk(h: Handle, size: nat) returns (ok: bool)
      requires Valid()
      modifies this
      ensures Valid()
      ensures ok <==> h in old(chunks) && size <= CHUNK_SIZE
      ensures chunks == if ok then old(chunks)[h := Truncated(old(chunks)[h], size)] else old(chunks)
      ensures forall k :: k != h && k in chunks ==> Table(k) == old(Table(k))
      ensures !ok ==> checksums == old(checksums)
      ensures ok ==> Sound(h)
      ensures ok ==> |chunks[h]| == size && forall i :: 0 <= i < size ==> chunks[h][i] == if i < |old(chunks)[h]| then old(chunks)[h][i] else 0
    {
      hide Block, Crc.Checksum, Truncated;
      if h !in chunks || size > CHUNK_SIZE {
        return false;
      }
      forall i | 0 <= i < size
        ensures Truncated(chunks[h], size)[i] == if i < |chunks[h]| then chunks[h][i] else 0
      {
        TruncatedAt(chunks[h], size, i);
      }
      chunks := chunks[h := Truncated(chunks[h], size)];
      checksums := checksums - {h};
      if size == 0 {
        return true;
      }
      ok := RecomputeBlocks(h, 0, BlockCount(size) - 1);
    }

    /** Recomputes the checksum of every block the range touches and compares it. */
    method VerifyChunkRange(h: Handle, offset: nat, length: nat) returns (ok: bool)
      requires Valid()
      ensures ok <==> h in chunks && Verifies(chunks[h], Table(h), offset, length)
    {
      hide Block, Crc.Checksum;
      if h !in chunks {
        return false;
      }
      if length == 0 {
        return true;
      }
      var size := |chunks[h]|;
      if offset + length > size {
        return false;
      }
      LastBlockExists(size, offset, length);
      var first, last := FirstBlock(offset), LastBlock(offset, length);
      if h !in checksums || last >= |checksums[h]| {
        return false;
      }
      var i := first;
      while i <= last
        invariant first <= i <= last + 1
        invariant forall k :: first <= k < i ==> Table(h)[k] == Crc.Checksum(Block(chunks[h], k))
      {
        var data := ReadBlock(h, i);
        var calculated := Crc.ComputeCRC32(data);
        if checksums[h][i] != calculated {
          return false;
        }
        i := i + 1;
      }
      ok := true;
    }

    /** A verified read.  While table and bytes agree it succeeds on every range inside the chunk
        and returns exactly that range. */
    method ReadChunk(h: Handle, offset: nat, length: nat) returns (ok: bool, data: str)
      requires Valid()
      ensures ok ==> h in chunks && offset + length <= |chunks[h]| && data == chunks[h][offset..offset + length]
      ensures ok ==> Verifies(chunks[h], Table(h), offset, length)
      ensures Sound(h) ==> (ok <==> offset + length <= |chunks[h]|)
    {
      hide Block, Crc.Checksum;
      var verified := VerifyChunkRange(h, offset, length);
      if Sound(h) {
        AgreeingVerifies(chunks[h], Table(h), offset, length);
      }
      if !verified || offset > |chunks[h]| {
        return false, [];
      }
      return true, chunks[h][offset..offset + length];
    }

    /** Copies a chunk to a fresh handle of the same server; copy-on-write relies on it. */
    method Clone(from: Handle, to: Handle) returns (ok: bool)
      requires Valid()
      modifies this
      ensures Valid()
      ensures ok ==> from in old(chunks) && to !in old(chunks) && chunks == old(chunks)[to := old(chunks)[from]] && Sound(to)
      ensures old(Sound(from)) && from != 0 && to != 0 && to !in old(chunks) ==> ok
      ensures !ok ==> chunks == old(chunks)
      ensures forall k :: k in old(chunks) ==> Table(k) == old(Table(k))
    {
      hide Block, Crc.Checksum, NoGap;
      ok := false;
      if from == 0 || to == 0 || from == to || from !in chunks || to in chunks {
        return;
      }
      var data;
      ok, data := ReadChunk(from, 0, |chunks[from]|);
      if !ok {
        return;
      }
      assert data == chunks[from];
      ok := CreateChunk(to);
      if data != [] {
        StartsInChunk([], 0);
        WriteToEmpty(data);
        ok := WriteChunk(to, 0, data);
      }
    }

    /** Takes over the bytes of a chunk from another server, replacing what was there. */
    method Receive(h: Handle, data: str) returns (ok: bool)
      requires Valid()
      modifies this
      ensures Valid()
      ensures ok <==> h != 0 && |data| <= CHUNK_SIZE
      ensures ok ==> chunks == old(chunks)[h := data] && Sound(h)
      ensures !ok ==> chunks == old(chunks)
      ensures forall k :: k != h && k in old(chunks) ==> Table(k) == old(Table(k))
    {
      hide Block, Crc.Checksum, NoGap;
      if h == 0 || |data| > CHUNK_SIZE {
        return false;
      }
      StartsInChunk([], 0);
      WriteToEmpty(data);
      ok := CreateChunk(h);
      if !ok {
        ok := TruncateChunk(h, 0);
        assert chunks[h] == [];
        assert forall k :: k in old(chunks) ==> k in chunks;
      }
      assert forall k :: k != h && k in old(chunks) ==> Table(k) == old(Table(k));
      ok := WriteChunk(h, 0, data);
      assert chunks == old(chunks)[h := data];
    }

    lemma WriteToEmpty(data: str)
      ensures Edited([], Write(0, data)) == data
    {
      assert Overlay([], 0, data) == data;
    }
  }
}
