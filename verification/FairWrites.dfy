// When a write succeeds.

module FairWrites {
  // A write needs the file, a place in it that exists or is the next one, a handle if a chunk has to
  // be allocated or copied, and the master and the chunkservers to do their part.  Nothing else can
  // make it fail.

  import opened Bytes
  import opened Namespace
  import opened ChunkTables
  import opened MasterState
  import opened Sharing
  import opened Effects
  import opened ChunkBytes
  import opened Isolation
  import opened ClientIO
  import opened StaleReads

  function SlotCount(c: Cluster, path: str): nat {
    if path in c.master.tables.files then |c.master.tables.files[path].chunks| else 0
  }

  predicate HandleLeft(c: Cluster) {
    c.master.tables.next != 0 && c.master.tables.next != U64 - 1
  }

  /** Allocating the next chunk of a file. */
  lemma AllocationAppends(c: Cluster, path: str, index: u64, env: Env)
    requires ClusterInv(c)
    ensures var r := AllocateChunkRequest(path);
            var c', ok := Ask(c, r, env), Live(c.master, r, env).ok;
            && ClusterInv(c')
            && (ok <==> path in c.master.tables.files && HandleLeft(c) && env.logging == Written)
            && (ok ==>
                  && SlotCount(c', path) == SlotCount(c, path) + 1
                  && (index == SlotCount(c, path) ==>
                        HasSlot(c'.master, path, index) && Slot(c'.master, path, index) == c.master.tables.next)
                  && References(c'.master.tables, c.master.tables.next) == 1
                  && c'.master.tables.next == c.master.tables.next + 1)
  {
    var s, r := c.master, AllocateChunkRequest(path);
    AskKeepsInv(c, r, env);
    AllocateChunkEffect(s, path, env);
    hide Inv, Live;
    if Live(s, r, env).ok {
      FileIsThere(s, path);
      NextIsFresh(s);
      FreshIsUnlisted(s, s.tables.next);
      var t := Ask(c, r, env).master.tables;
      assert Holders(t.files, s.tables.next) == {path};
    }
  }

  /** Exactly when a write to one chunk succeeds. */
  lemma ChunkWriteSucceedsIff(c: Cluster, path: str, index: u64, at: nat, data: str, cached: Option<Handle>, w: Weather)
    requires ClusterInv(c)
    ensures WriteChunk(c, path, index, at, data, cached, w).ok <==>
              && path in c.master.tables.files && w.located && w.responsive
              && if index < SlotCount(c, path) then Grants(c.master, path, index, w.copying)
                 else index == SlotCount(c, path) && cached == None && HandleLeft(c) && w.allocating.logging == Written
  {
    hide Inv, Live, Ask, Overlay, References, CopyOnWrite;
    if path in c.master.tables.files {
      FileIsThere(c.master, path);
    }
    if index < SlotCount(c, path) {
      SlotWriteIff(c, path, index, at, data, cached, w);
    } else if cached == None && index == SlotCount(c, path) && path in c.master.tables.files {
      var r := AllocateChunkRequest(path);
      AllocationAppends(c, path, index, w.allocating);
      if Live(c.master, r, w.allocating).ok && w.located {
        var c' := Ask(c, r, w.allocating);
        SlotWriteIff(c', path, index, at, data, Some(c.master.tables.next), w);
      }
    } else {
      LiveCopyOnWrite(c.master, path, index);
      CopyOnWriteAllOrNothing(c.master, path, index, w.copying);
    }
  }

  lemma SlotWriteIff(c: Cluster, path: str, index: u64, at: nat, data: str, cached: Option<Handle>, w: Weather)
    requires ClusterInv(c) && HasSlot(c.master, path, index)
    ensures WriteChunk(c, path, index, at, data, cached, w).ok <==> w.located && w.responsive && Grants(c.master, path, index, w.copying)
  {
    ResolveOfSlot(c, path, index, cached, w);
    LiveCopyOnWrite(c.master, path, index);
    CopyOnWriteAllOrNothing(c.master, path, index, w.copying);
    SlotOfInv(c.master, path, index);
    hide Inv, Live, Ask, Overlay, Resolve, Grants, CopyOnWrite, References;
    if Live(c.master, CopyOnWriteRequest(path, index), w.copying).ok {
      GrantMoves(c, path, index, w.copying);
      ResolveOfSlot(Ask(c, CopyOnWriteRequest(path, index), w.copying), path, index, None, w);
    }
  }

  // ----- what a write leaves for the next one -----

  /** No handle is used up but for an allocation, and then one. */
  lemma CopyingUsesOneHandle(s: Durable, path: str, index: u64, env: Env)
    requires s.tables.next < U64 - 1
    ensures var u := CopyOnWrite(s, path, index, env).state.tables;
            s.tables.next <= u.next <= s.tables.next + 1
  {
    hide References, Holders;
  }

  lemma CopyingKeepsSlots(c: Cluster, path: str, index: u64, env: Env)
    requires ClusterInv(c) && HasSlot(c.master, path, index) && c.master.tables.next < U64 - 1
    ensures var c' := Ask(c, CopyOnWriteRequest(path, index), env);
            && SlotCount(c', path) == SlotCount(c, path) && path in c'.master.tables.files
            && c.master.tables.next <= c'.master.tables.next <= c.master.tables.next + 1
            && (References(c.master.tables, Slot(c.master, path, index)) <= 1 ==> c'.master.tables.next == c.master.tables.next)
  {
    LiveCopyOnWrite(c.master, path, index);
    CopyOnWriteAllOrNothing(c.master, path, index, env);
    CopyingUsesOneHandle(c.master, path, index, env);
    SlotOfInv(c.master, path, index);
    hide Inv, Live, CopyOnWrite, References;
    if References(c.master.tables, Slot(c.master, path, index)) <= 1 {
      CopyOnWriteUnshared(c.master, path, index, env);
    }
  }

  /** A successful write to one chunk uses at most one handle and adds a slot only at the end. */
  lemma ChunkWriteLeaves(c: Cluster, path: str, index: u64, at: nat, data: str, cached: Option<Handle>, w: Weather)
    requires ClusterInv(c) && c.master.tables.next < U64 - 2 && WriteChunk(c, path, index, at, data, cached, w).ok
    ensures var c' := WriteChunk(c, path, index, at, data, cached, w).cluster;
            && path in c'.master.tables.files
            && SlotCount(c', path) == (if index < SlotCount(c, path) then SlotCount(c, path) else index + 1)
            && c.master.tables.next <= c'.master.tables.next <= c.master.tables.next + 1
  {
    ChunkWriteSucceedsIff(c, path, index, at, data, cached, w);
    FileIsThere(c.master, path);
    hide Inv, Live, Ask, Overlay, References, CopyOnWrite, Grants;
    if index < SlotCount(c, path) {
      SlotWriteLeaves(c, path, index, at, data, cached, w);
    } else {
      var r := AllocateChunkRequest(path);
      AllocationAppends(c, path, index, w.allocating);
      SlotWriteLeaves(Ask(c, r, w.allocating), path, index, at, data, Some(c.master.tables.next), w);
    }
  }

  lemma SlotWriteLeaves(c: Cluster, path: str, index: u64, at: nat, data: str, cached: Option<Handle>, w: Weather)
    requires ClusterInv(c) && HasSlot(c.master, path, index) && c.master.tables.next < U64 - 1
    requires WriteChunk(c, path, index, at, data, cached, w).ok
    ensures var c' := WriteChunk(c, path, index, at, data, cached, w).cluster;
            && path in c'.master.tables.files && SlotCount(c', path) == SlotCount(c, path)
            && c.master.tables.next <= c'.master.tables.next <= c.master.tables.next + 1
            && (References(c.master.tables, Slot(c.master, path, index)) <= 1 ==> c'.master.tables.next == c.master.tables.next)
  {
    ResolveOfSlot(c, path, index, cached, w);
    CopyingKeepsSlots(c, path, index, w.copying);
    var r := CopyOnWriteRequest(path, index);
    hide Inv, Live, Ask, Overlay, References, Resolve;
    GrantMoves(c, path, index, w.copying);
    ResolveOfSlot(Ask(c, r, w.copying), path, index, None, w);
  }

  // ----- whole writes -----

  /** Master and chunkservers do their part for every chunk. */
  ghost predicate Fair(weather: u64 -> Weather) {
    forall i: u64 :: FairAt(weather(i))
  }

  predicate FairAt(w: Weather) {
    && w.located && w.responsive && w.allocating.logging == Written
    && w.copying.registered && w.copying.cloned && w.copying.logging == Written
  }

  /** How many chunks a range touches. */
  function Touched(offset: nat, length: nat): nat {
    if length == 0 then 0 else (offset + length - 1) / CHUNK_SIZE - offset / CHUNK_SIZE + 1
  }

  /** Nothing is cached for places that do not exist. */
  ghost predicate NoneBeyond(cache: Cache, path: str, count: nat) {
    forall i: u64 :: count <= i ==> (path, i) !in cache
  }

  lemma OneChunkLess(offset: nat, length: nat)
    requires length > 0
    ensures var n := Piece(offset, length); Touched(offset + n, length - n) + 1 == Touched(offset, length)
    ensures var n := Piece(offset, length); n < length ==> (offset + n) / CHUNK_SIZE == offset / CHUNK_SIZE + 1
  {
    var n, q, r := Piece(offset, length), offset / CHUNK_SIZE, offset % CHUNK_SIZE;
    assert offset == q * CHUNK_SIZE + r;
    if n == length {
      assert offset + length - 1 == q * CHUNK_SIZE + (r + length - 1) && r + length - 1 < CHUNK_SIZE;
    } else {
      assert offset + n == (q + 1) * CHUNK_SIZE;
    }
  }

  /** In fair weather every write succeeds that starts no further than behind the last chunk of an
      existing file, at any offset, of any length, shared chunks or not, as long as handles are left. */
  lemma {:induction false} FairPiecesSucceed(c: Cluster, cache: Cache, path: str, offset: nat, data: str, weather: u64 -> Weather)
    requires ClusterInv(c) && offset + |data| < U64 && Fair(weather)
    requires path in c.master.tables.files && offset / CHUNK_SIZE <= SlotCount(c, path) && NoneBeyond(cache, path, SlotCount(c, path))
    requires c.master.tables.next != 0 && c.master.tables.next + Touched(offset, |data|) < U64 - 1
    ensures var w := WritePieces(c, cache, path, offset, data, weather);
            && w.ok && ClusterInv(w.cluster) && path in w.cluster.master.tables.files
    decreases |data|
  {
    hide ClusterInv, WriteChunk, WritePieces, CachedAt, References, Contents, Touched;
    if data == [] {
      NoPieces(c, cache, path, offset, data, weather);
    } else {
      var n, index, at := Piece(offset, |data|), offset / CHUNK_SIZE, offset % CHUNK_SIZE;
      var cached, w := CachedAt(cache, path, index), weather(index);
      OneChunkLess(offset, |data|);
      WritePiecesStep(c, cache, path, offset, data, weather);
      NotCachedBeyond(cache, path, SlotCount(c, path), index);
      FileHasName(c, path);
      assert FairAt(w);
      ChunkWriteSucceedsIff(c, path, index, at, data[..n], cached, w);
      ChunkWriteLeaves(c, path, index, at, data[..n], cached, w);
      WriteContents(c, path, index, at, data[..n], cached, w);
      var c' := WriteChunk(c, path, index, at, data[..n], cached, w).cluster;
      if n == |data| {
        NoPieces(c', cache, path, offset + n, data[n..], weather);
      } else {
        FairPiecesSucceed(c', cache, path, offset + n, data[n..], weather);
      }
    }
  }

  lemma NotCachedBeyond(cache: Cache, path: str, count: nat, index: u64)
    requires NoneBeyond(cache, path, count)
    ensures count <= index ==> CachedAt(cache, path, index) == None
  {}

  lemma FileHasName(c: Cluster, path: str)
    requires ClusterInv(c) && path in c.master.tables.files
    ensures path != []
  {
    FileIsThere(c.master, path);
  }

  /** Such a write, with its size recorded, is read back in full by every reader whose cache is right. */
  lemma FairWriteIsReadBack(c: Cluster, cache: Cache, path: str, offset: nat, data: str, weather: u64 -> Weather, env: Env, reader: Cache)
    requires ClusterInv(c) && offset + |data| < U64 && Fair(weather) && env.logging == Written
    requires path in c.master.tables.files && offset / CHUNK_SIZE <= SlotCount(c, path) && NoneBeyond(cache, path, SlotCount(c, path))
    requires c.master.tables.next != 0 && c.master.tables.next + Touched(offset, |data|) < U64 - 1
    ensures var w := AfterSequential(WritePieces(c, cache, path, offset, data, weather), path, offset + |data|, env);
            w.ok && (Coherent(w.cluster, reader, path) ==> Clamped(w.cluster, reader, path, offset, |data|) == Some(data))
  {
    hide ClusterInv, WritePieces, Contents, FlatWrite, Coherent, Clamped, Live, Ask, Touched;
    FairPiecesSucceed(c, cache, path, offset, data, weather);
    var w, end := WritePieces(c, cache, path, offset, data, weather), offset + |data|;
    UpdateFileSizeEffect(w.cluster.master, path, end, env);
    SizeIsRecorded(w.cluster, path, end, env);
    SequentialIsFlat(c, cache, path, offset, data, weather, env);
    var c' := AfterSequential(w, path, end, env).cluster;
    if Coherent(c', reader, path) {
      ReadAfterWrite(Contents(c), c', path, offset, data, reader);
    }
  }
}
