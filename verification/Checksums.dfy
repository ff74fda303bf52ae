// One CRC-32 per 64 KB block of a chunk.

module Checksums {
  // After a write only the touched blocks are recomputed; this file says exactly when that is as
  // good as recomputing everything.

  import opened Bytes
  import opened Crc
  import opened ChunkBytes

  const BLOCK: nat := 65_536

  function BlockCount(size: nat): (n: nat)
    ensures size == 0 <==> n == 0
    ensures n > 0 ==> (n - 1) * BLOCK < size <= n * BLOCK
  {
    if size == 0 then 0 else (size - 1) / BLOCK + 1
  }

  /** Block i: full, except that the last may be shorter. */
  function Block(bytes: str, i: nat): (b: str)
    requires i < BlockCount(|bytes|)
    ensures |b| == BlockSize(|bytes|, i)
  {
    bytes[i * BLOCK..i * BLOCK + BlockSize(|bytes|, i)]
  }

  function BlockSize(size: nat, i: nat): (n: nat)
    requires i < BlockCount(size)
    ensures 0 < n <= BLOCK && i * BLOCK + n <= size
    ensures i * BLOCK + n == size || n == BLOCK
  {
    if size - i * BLOCK < BLOCK then size - i * BLOCK else BLOCK
  }

  /** The table has one entry per block, the checksum of that block. */
  ghost predicate Agrees(bytes: str, table: seq<bv32>) {
    && |table| == BlockCount(|bytes|)
    && forall i :: 0 <= i < |table| ==> table[i] == Checksum(Block(bytes, i))
  }

  /** The table after its size has been adjusted to the bytes and the blocks from first to last
      have been recomputed; entries that are new and not recomputed are 0. */
  function Recomputed(table: seq<bv32>, bytes: str, first: nat, last: nat): (r: seq<bv32>)
    ensures |r| == BlockCount(|bytes|)
  {
    seq(BlockCount(|bytes|), i requires 0 <= i < BlockCount(|bytes|) =>
      if first <= i <= last then Checksum(Block(bytes, i)) else if i < |table| then table[i] else 0)
  }

  function FirstBlock(offset: nat): nat {
    offset / BLOCK
  }

  function LastBlock(offset: nat, length: nat): nat
    requires length > 0
  {
    (offset + length - 1) / BLOCK
  }

  /** What a write does to the table. */
  function AfterWrite(table: seq<bv32>, bytes: str, offset: nat, data: str): seq<bv32>
    requires data != []
  {
    Recomputed(table, Overlay(bytes, offset, data), FirstBlock(offset), LastBlock(offset, |data|))
  }

  lemma LastBlockExists(size: nat, offset: nat, length: nat)
    requires length > 0 && offset + length <= size
    ensures FirstBlock(offset) <= LastBlock(offset, length) < BlockCount(size)
  {}

  /** A block that the write does not touch and that is not padded keeps its bytes. */
  lemma BlockUntouched(bytes: str, offset: nat, data: str, i: nat)
    requires data != [] && i < BlockCount(|bytes|) && i < BlockCount(|Overlay(bytes, offset, data)|)
    requires i < FirstBlock(offset) || LastBlock(offset, |data|) < i
    requires i < FirstBlock(offset) ==> (i + 1) * BLOCK <= |bytes|
    ensures Block(Overlay(bytes, offset, data), i) == Block(bytes, i)
  {
    var after := Overlay(bytes, offset, data);
    var lo := i * BLOCK;
    assert BlockSize(|after|, i) == BlockSize(|bytes|, i);
    var n := BlockSize(|bytes|, i);
    forall k | lo <= k < lo + n
      ensures after[k] == bytes[k]
    {
      OverlayAt(bytes, offset, data, k);
    }
    hide Overlay;
  }

  /** The first block the write does not fill, if the old end lies inside it: it is padded. */
  lemma BlockPadded(bytes: str, offset: nat, data: str, i: nat)
    requires data != [] && i < FirstBlock(offset) && i * BLOCK < |bytes| < (i + 1) * BLOCK
    ensures i < BlockCount(|bytes|) && i < BlockCount(|Overlay(bytes, offset, data)|)
    ensures Block(Overlay(bytes, offset, data), i) == Block(bytes, i) + Zeros(BLOCK - |Block(bytes, i)|)
  {
    var after := Overlay(bytes, offset, data);
    var lo := i * BLOCK;
    assert BlockSize(|after|, i) == BLOCK;
    forall k | lo <= k < lo + BLOCK
      ensures after[k] == if k < |bytes| then bytes[k] else 0
    {
      OverlayAt(bytes, offset, data, k);
    }
    hide Overlay;
  }

  /** A block that lies wholly in the gap is all zeros. */
  lemma BlockInGap(bytes: str, offset: nat, data: str, i: nat)
    requires data != [] && i < FirstBlock(offset) && |bytes| <= i * BLOCK
    ensures i < BlockCount(|Overlay(bytes, offset, data)|)
    ensures Block(Overlay(bytes, offset, data), i) == Zeros(BLOCK)
  {
    var after := Overlay(bytes, offset, data);
    var lo := i * BLOCK;
    assert BlockSize(|after|, i) == BLOCK;
    forall k | lo <= k < lo + BLOCK
      ensures after[k] == 0
    {
      OverlayAt(bytes, offset, data, k);
    }
    hide Overlay;
  }

  lemma ZeroBlock()
    ensures Checksum(Zeros(BLOCK)) != 0
  {
    assert Pow2(4) == 16 && Pow2(8) == 16 * Pow2(4) && Pow2(12) == 16 * Pow2(8) && Pow2(16) == 16 * Pow2(12);
    ZeroBlockChecksum(16);
    hide Checksum, Zeros;
  }

  /** What a caller can check before a write: it starts at or before the end of the chunk, in the
      block where the chunk ends, or in the next one - and then padding the block that the chunk
      ends in must not change its checksum. */
  predicate NoGap(bytes: str, offset: nat) {
    var first, count := FirstBlock(offset), BlockCount(|bytes|);
    first < count
    || (first == count
        && (|bytes| % BLOCK != 0 ==>
              var partial := Block(bytes, count - 1);
              Checksum(partial + Zeros(BLOCK - |partial|)) == Checksum(partial)))
  }

  /** So what a caller checks is one checksum: if the write starts in the block after the one the chunk
      ends in, and that one is filled up with 2^k zeros, it must have checksum 0xFFFFFFFF. */
  lemma NoGapIff(bytes: str, offset: nat, k: nat)
    requires |bytes| % BLOCK != 0 && |Block(bytes, BlockCount(|bytes|) - 1)| + Pow2(k) == BLOCK
    ensures NoGap(bytes, offset) <==>
              || FirstBlock(offset) < BlockCount(|bytes|)
              || (FirstBlock(offset) == BlockCount(|bytes|) && Checksum(Block(bytes, BlockCount(|bytes|) - 1)) == ONES)
  {
    hide Checksum, Zeros;
    PaddingUnnoticedIff(Block(bytes, BlockCount(|bytes|) - 1), 0, k);
  }

  lemma StartsInChunk(bytes: str, offset: nat)
    requires offset <= |bytes|
    ensures NoGap(bytes, offset)
  {
    hide Checksum;
  }

  /** Upkeep after a write equals full recomputation exactly if the write leaves no gap. */
  lemma WriteAgreesIff(bytes: str, table: seq<bv32>, offset: nat, data: str)
    requires Agrees(bytes, table) && data != []
    ensures Agrees(Overlay(bytes, offset, data), AfterWrite(table, bytes, offset, data)) <==> NoGap(bytes, offset)
  {
    hide Overlay, Checksum, Block;
    var after, table' := Overlay(bytes, offset, data), AfterWrite(table, bytes, offset, data);
    var first, last, count := FirstBlock(offset), LastBlock(offset, |data|), BlockCount(|bytes|);
    if first > count {
      BlockInGap(bytes, offset, data, count);
      ZeroBlock();
      assert table'[count] == 0;
      assert table'[count] != Checksum(Block(after, count));
    } else {
      forall i | 0 <= i < |table'| && !(i + 1 == first && first == count && |bytes| % BLOCK != 0)
        ensures table'[i] == Checksum(Block(after, i))
      {
        UntouchedEntry(bytes, table, offset, data, i);
      }
      if first == count && |bytes| % BLOCK != 0 {
        var i := count - 1;
        BlockPadded(bytes, offset, data, i);
        assert table'[i] == table[i];
      }
    }
  }

  lemma UntouchedEntry(bytes: str, table: seq<bv32>, offset: nat, data: str, i: nat)
    requires Agrees(bytes, table) && data != [] && FirstBlock(offset) <= BlockCount(|bytes|)
    requires i < BlockCount(|Overlay(bytes, offset, data)|)
    requires !(i + 1 == FirstBlock(offset) && FirstBlock(offset) == BlockCount(|bytes|) && |bytes| % BLOCK != 0)
    ensures AfterWrite(table, bytes, offset, data)[i] == Checksum(Block(Overlay(bytes, offset, data), i))
  {
    hide Overlay, Checksum, Block;
    var first, last := FirstBlock(offset), LastBlock(offset, |data|);
    if i < first || last < i {
      assert i < BlockCount(|bytes|);
      BlockUntouched(bytes, offset, data, i);
    }
  }

  // ----- runs of writes and truncations -----

  datatype Edit = Write(offset: nat, data: str) | Truncate(size: nat)

  function Edited(bytes: str, e: Edit): str {
    match e
    case Write(offset, data) => if data == [] then bytes else Overlay(bytes, offset, data)
    case Truncate(size) => Truncated(bytes, size)
  }

  function EditedTable(table: seq<bv32>, bytes: str, e: Edit): seq<bv32> {
    match e
    case Write(offset, data) => if data == [] then table else AfterWrite(table, bytes, offset, data)
    case Truncate(size) => Recomputed([], Truncated(bytes, size), 0, BlockCount(size))
  }

  function EditedAll(bytes: str, edits: seq<Edit>): str
    decreases |edits|
  {
    if edits == [] then bytes else EditedAll(Edited(bytes, edits[0]), edits[1..])
  }

  function EditedTables(table: seq<bv32>, bytes: str, edits: seq<Edit>): seq<bv32>
    decreases |edits|
  {
    if edits == [] then table
    else EditedTables(EditedTable(table, bytes, edits[0]), Edited(bytes, edits[0]), edits[1..])
  }

  /** Every write of the run starts at or before the end that the chunk has by then. */
  ghost predicate Gapless(bytes: str, edits: seq<Edit>)
    decreases |edits|
  {
    edits == []
    || ((edits[0].Write? ==> edits[0].offset <= |bytes|) && Gapless(Edited(bytes, edits[0]), edits[1..]))
  }

  /** After any run of truncations and of writes without gaps the table agrees with the bytes. */
  lemma {:induction false} RunAgrees(bytes: str, table: seq<bv32>, edits: seq<Edit>)
    requires Agrees(bytes, table) && Gapless(bytes, edits)
    ensures Agrees(EditedAll(bytes, edits), EditedTables(table, bytes, edits))
    decreases |edits|
  {
    hide Overlay, Checksum, Block, NoGap;
    if edits != [] {
      match edits[0] {
        case Write(offset, data) =>
          StartsInChunk(bytes, offset);
          if data != [] {
            WriteAgreesIff(bytes, table, offset, data);
          }
        case Truncate(size) =>
      }
      RunAgrees(Edited(bytes, edits[0]), EditedTable(table, bytes, edits[0]), edits[1..]);
    }
  }

  // ----- verification of a range -----

  /** Every block that the range touches has the recorded checksum. */
  ghost predicate Verifies(bytes: str, table: seq<bv32>, offset: nat, length: nat) {
    length == 0
    || (&& offset + length <= |bytes|
        && LastBlock(offset, length) < |table|
        && forall i :: FirstBlock(offset) <= i <= LastBlock(offset, length) && i < BlockCount(|bytes|) ==>
             table[i] == Checksum(Block(bytes, i)))
  }

  /** With an agreeing table, verification accepts exactly the ranges inside the chunk. */
  lemma AgreeingVerifies(bytes: str, table: seq<bv32>, offset: nat, length: nat)
    requires Agrees(bytes, table)
    ensures Verifies(bytes, table, offset, length) <==> length == 0 || offset + length <= |bytes|
  {
    hide Checksum, Block;
    if length > 0 && offset + length <= |bytes| {
      LastBlockExists(|bytes|, offset, length);
    }
  }

  /** No read returns bytes of a block that was damaged within four consecutive bytes after the
      table was made: verification of any range that touches the block fails. */
  lemma DamageIsNoticed(bytes: str, table: seq<bv32>, damaged: str, i: nat, at: nat, width: nat, offset: nat, length: nat)
    requires Agrees(bytes, table) && |damaged| == |bytes|
    requires i < BlockCount(|bytes|) && DifferWithinFourBytes(Block(bytes, i), Block(damaged, i), at, width)
    requires length > 0 && FirstBlock(offset) <= i <= LastBlock(offset, length)
    ensures !Verifies(damaged, table, offset, length)
  {
    BurstDetected(Block(bytes, i), Block(damaged, i), at, width);
    hide Checksum, Block, DifferWithinFourBytes;
  }
}
