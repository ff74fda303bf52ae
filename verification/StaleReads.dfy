// Where chunk handles outlive what they stood for.

module StaleReads {
  // A reader uses the handles in its cache without asking, although copy-on-write moves a slot of a
  // file to a fresh chunk and tells no reader.  A snapshot can come between copy-on-write and the
  // write.  And a restarted master can give out a handle again under which bytes are still stored.

  import opened Bytes
  import opened Paths
  import opened Namespace
  import opened ChunkTables
  import opened MasterState
  import opened Recovery
  import opened Sharing
  import opened Snapshot
  import opened ChunkBytes
  import opened Isolation
  import opened ClientIO

  /** The bytes of a range inside one chunk, if they all exist. */
  function Range(bytes: str, at: nat, length: nat): Option<str> {
    if at + length <= |bytes| then Some(bytes[at..at + length]) else None
  }

  lemma ReadOfOneChunk(c: Cluster, cache: Cache, path: str, index: u64, at: nat, length: nat, h: Handle)
    requires ReaderHandle(c, cache, path, index) == Some(h)
    requires 0 < length && at + length <= CHUNK_SIZE && index * CHUNK_SIZE + at + length < U64
    ensures ReadPieces(c, cache, path, index * CHUNK_SIZE + at, length) == Range(BytesOf(c.store, h), at, length)
  {
    hide BytesOf, ReaderHandle;
    var offset := index * CHUNK_SIZE + at;
    assert offset / CHUNK_SIZE == index && offset % CHUNK_SIZE == at;
    assert Piece(offset, length) == length;
    assert ReadPieces(c, cache, path, offset + length, 0) == Some([]);
    var bytes := BytesOf(c.store, h);
    if at + length <= |bytes| {
      assert bytes[at..at + length] + [] == bytes[at..at + length];
    }
  }

  lemma ResolveOfSlot(c: Cluster, path: str, index: u64, cached: Option<Handle>, w: Weather)
    requires HasSlot(c.master, path, index)
    ensures Resolve(c, path, index, cached, w).cluster == c
    ensures cached == None && w.located && Slot(c.master, path, index) != 0 ==>
              Resolve(c, path, index, cached, w).handle == Some(Slot(c.master, path, index))
    ensures cached == None && Resolve(c, path, index, cached, w).handle != None ==>
              Resolve(c, path, index, cached, w).handle == Some(Slot(c.master, path, index))
    ensures cached != None ==> Resolve(c, path, index, cached, w).handle == cached
  {
    hide Ask, Live;
  }

  /** What making a slot private does to slot and bytes. */
  lemma GrantMoves(c: Cluster, path: str, index: u64, env: Env)
    requires ClusterInv(c) && HasSlot(c.master, path, index)
    requires Live(c.master, CopyOnWriteRequest(path, index), env).ok
    ensures var c', h := Ask(c, CopyOnWriteRequest(path, index), env), Slot(c.master, path, index);
            && HasSlot(c'.master, path, index) && Slot(c'.master, path, index) != 0
            && (if References(c.master.tables, h) <= 1 then Slot(c'.master, path, index) == h && c'.store == c.store
                else Slot(c'.master, path, index) == c.master.tables.next != h
                     && c'.store == c.store[c.master.tables.next := BytesOf(c.store, h)])
  {
    LiveCopyOnWrite(c.master, path, index);
    CopyOnWriteAllOrNothing(c.master, path, index, env);
    ClonedWhenGranted(c.master, path, index, env);
    SlotOfInv(c.master, path, index);
    hide Inv, References, CopyOnWrite, Live, Cloned, BytesOf;
  }

  /** A successful write to a slot that no other file shares changes its chunk; otherwise it changes
      a copy, and the old chunk stays as it was. */
  lemma WriteMoves(c: Cluster, path: str, index: u64, offset: nat, data: str, cached: Option<Handle>, w: Weather)
    requires ClusterInv(c) && HasSlot(c.master, path, index)
    requires WriteChunk(c, path, index, offset, data, cached, w).ok
    ensures var a, h := WriteChunk(c, path, index, offset, data, cached, w), Slot(c.master, path, index);
            && HasSlot(a.cluster.master, path, index) && Slot(a.cluster.master, path, index) == a.handle != 0
            && BytesOf(a.cluster.store, a.handle) == Overlay(BytesOf(c.store, h), offset, data)
            && (References(c.master.tables, h) <= 1 ==> a.handle == h)
            && (References(c.master.tables, h) > 1 ==> a.handle != h && BytesOf(a.cluster.store, h) == BytesOf(c.store, h))
  {
    hide ClusterInv, Live, Ask, Overlay, References, Resolve;
    ResolveOfSlot(c, path, index, cached, w);
    GrantMoves(c, path, index, w.copying);
    ResolveOfSlot(Ask(c, CopyOnWriteRequest(path, index), w.copying), path, index, None, w);
  }

  /** A reader whose cache was right before a successful write reads, afterwards, what a reader with
      an empty cache reads, exactly if no other file shared the chunk or the write changed nothing in
      the range. */
  lemma StaleReadIff(c: Cluster, path: str, index: u64, offset: nat, data: str, cached: Option<Handle>, w: Weather,
                     cache: Cache, at: nat, length: nat)
    requires ClusterInv(c) && HasSlot(c.master, path, index)
    requires WriteChunk(c, path, index, offset, data, cached, w).ok
    requires CachedAt(cache, path, index) == Some(Slot(c.master, path, index))
    requires 0 < length && at + length <= CHUNK_SIZE && index * CHUNK_SIZE + at + length < U64
    ensures var after, h := WriteChunk(c, path, index, offset, data, cached, w).cluster, Slot(c.master, path, index);
            var o, bytes := index * CHUNK_SIZE + at, BytesOf(c.store, h);
            && ReadPieces(after, map[], path, o, length) == Range(Overlay(bytes, offset, data), at, length)
            && ReadPieces(after, cache, path, o, length) ==
               Range(if References(c.master.tables, h) <= 1 then Overlay(bytes, offset, data) else bytes, at, length)
            && (ReadPieces(after, cache, path, o, length) == ReadPieces(after, map[], path, o, length) <==>
                References(c.master.tables, h) <= 1 || Range(bytes, at, length) == Range(Overlay(bytes, offset, data), at, length))
  {
    hide ClusterInv, WriteChunk, Overlay, References, ReadPieces, Range, BytesOf;
    WriteMoves(c, path, index, offset, data, cached, w);
    var a := WriteChunk(c, path, index, offset, data, cached, w);
    ReadOfOneChunk(a.cluster, cache, path, index, at, length, Slot(c.master, path, index));
    ReadOfOneChunk(a.cluster, map[], path, index, at, length, a.handle);
  }

  /** When a write to an existing slot succeeds. */
  lemma WriteGranted(c: Cluster, path: str, index: u64, offset: nat, data: str, cached: Option<Handle>, w: Weather)
    requires ClusterInv(c) && HasSlot(c.master, path, index)
    requires Grants(c.master, path, index, w.copying) && w.located && w.responsive
    ensures WriteChunk(c, path, index, offset, data, cached, w).ok
  {
    ResolveOfSlot(c, path, index, cached, w);
    LiveCopyOnWrite(c.master, path, index);
    CopyOnWriteAllOrNothing(c.master, path, index, w.copying);
    SlotOfInv(c.master, path, index);
    hide Inv, Live, Ask, Overlay, Resolve, Grants, CopyOnWrite, References;
    GrantMoves(c, path, index, w.copying);
    ResolveOfSlot(Ask(c, CopyOnWriteRequest(path, index), w.copying), path, index, None, w);
  }

  /** A snapshot of a file shares all its chunks and moves none of its slots. */
  lemma SnapshotShares(c: Cluster, path: str, index: u64, destination: str, env: Env)
    requires ClusterInv(c) && HasSlot(c.master, path, index) && CanCreate(c.master.ns, destination) && env.logging == Written
    ensures var c' := Ask(c, CreateSnapshotRequest(path, destination), env);
            && ClusterInv(c') && HasSlot(c'.master, path, index) && c'.store == c.store
            && Slot(c'.master, path, index) == Slot(c.master, path, index)
            && References(c'.master.tables, Slot(c.master, path, index)) > 1
            && c'.master.tables.next == c.master.tables.next
  {
    hide Inv, Live, References, HoldersUnder, ApplyCreateSnapshot, CanCreate;
    var s, r, h := c.master, CreateSnapshotRequest(path, destination), Slot(c.master, path, index);
    SlotOfInv(s, path, index);
    SnapshotServed(s, path, destination, env);
    AskKeepsInv(c, r, env);
    FileIsThere(s, path);
    SnapshotIsImage(s, path, destination, path);
    SnapshotReferences(s, path, destination, h);
    HoldsItself(s.tables.files, path, index);
  }

  lemma SnapshotServed(s: Durable, path: str, destination: str, env: Env)
    requires Inv(s) && path in s.tables.files && CanCreate(s.ns, destination) && env.logging == Written
    ensures Live(s, CreateSnapshotRequest(path, destination), env).state == ApplyCreateSnapshot(s, path, destination).state
  {
    FileIsThere(s, path);
    CreatableIsReal(s, destination);
    hide *;
    SnapshotRecord(s, path, destination, env);
    Applied(s, CreateSnapshotRequest(path, destination), OpCreateSnapshot(path, destination), env);
  }

  lemma SnapshotRecord(s: Durable, path: str, destination: str, env: Env)
    requires path in s.ns && path != [] && destination != [] && destination != ROOT && destination !in s.ns
    ensures RecordOf(s, CreateSnapshotRequest(path, destination)) == Some(OpCreateSnapshot(path, destination))
    ensures Apply(s, OpCreateSnapshot(path, destination), env) == ApplyCreateSnapshot(s, path, destination)
    ensures !CreateSnapshotRequest(path, destination).CopyOnWriteRequest?
  {
    hide ApplyCreateSnapshot;
  }

  lemma HoldsItself(files: map<str, FileMeta>, path: str, index: nat)
    requires path in files && index < |files[path].chunks|
    ensures |HoldersUnder(files, path, files[path].chunks[index])| > 0
  {
    assert path in HoldersUnder(files, path, files[path].chunks[index]);
  }

  lemma FileIsThere(s: Durable, path: str)
    requires Inv(s) && path in s.tables.files
    ensures path in s.ns && path != []
  {
    assert IsFile(s.ns, path);
    assert ConsistentFile(s.tables, path);
  }

  lemma CreatableIsReal(s: Durable, destination: str)
    requires CanCreate(s.ns, destination)
    ensures destination != [] && destination != ROOT && destination !in s.ns
  {}

  /** How readers come to read old bytes: while a reader has the right handle cached, a snapshot of the
      file is taken and then the file is written.  Whatever the file, the snapshot and the write, the
      reader goes on reading what was there before, and readers that ask anew do not. */
  lemma SnapshotThenWriteIsMissed(c: Cluster, path: str, index: u64, destination: str, env: Env, offset: nat, data: str,
                                  cached: Option<Handle>, w: Weather, cache: Cache, at: nat, length: nat)
    requires ClusterInv(c) && HasSlot(c.master, path, index) && CanCreate(c.master.ns, destination) && env.logging == Written
    requires c.master.tables.next != 0 && c.master.tables.next != U64 - 1
    requires w.located && w.responsive && w.copying.logging == Written && w.copying.registered && w.copying.cloned
    requires CachedAt(cache, path, index) == Some(Slot(c.master, path, index))
    requires 0 < length && at + length <= CHUNK_SIZE && index * CHUNK_SIZE + at + length < U64
    ensures var a := WriteChunk(Ask(c, CreateSnapshotRequest(path, destination), env), path, index, offset, data, cached, w);
            var o, bytes := index * CHUNK_SIZE + at, BytesOf(c.store, Slot(c.master, path, index));
            && a.ok
            && ReadPieces(a.cluster, cache, path, o, length) == Range(bytes, at, length)
            && ReadPieces(a.cluster, map[], path, o, length) == Range(Overlay(bytes, offset, data), at, length)
  {
    hide ClusterInv, WriteChunk, Overlay, References, ReadPieces, Range, BytesOf, Ask, CanCreate;
    SnapshotShares(c, path, index, destination, env);
    var c' := Ask(c, CreateSnapshotRequest(path, destination), env);
    WriteGranted(c', path, index, offset, data, cached, w);
    StaleReadIff(c', path, index, offset, data, cached, w, cache, at, length);
  }

  // ----- a run that gets there -----

  /** A file without chunks has got one, and nothing else has changed in the tables' keys. */
  predicate SlotsAdded(before: Tables, after: Tables, path: str, h: Handle) {
    && after.files.Keys == before.files.Keys && after.chunks.Keys == before.chunks.Keys + {h}
    && path in after.files && after.files[path].chunks == [h]
  }

  /** A file without chunks gets its first one, which nobody else lists. */
  lemma FirstChunkAllocated(c: Cluster, path: str, env: Env)
    requires ClusterInv(c) && path in c.master.tables.files && c.master.tables.files[path].chunks == []
    requires c.master.tables.next != 0 && c.master.tables.next != U64 - 1 && env.logging == Written
    ensures var c', next := Ask(c, AllocateChunkRequest(path), env), c.master.tables.next;
            && Live(c.master, AllocateChunkRequest(path), env).ok
            && ClusterInv(c') && c'.store == c.store && c'.master.ns == c.master.ns
            && c'.master.tables.next == next + 1
            && HasSlot(c'.master, path, 0) && Slot(c'.master, path, 0) == next
            && References(c'.master.tables, next) == 1
            && SlotsAdded(c.master.tables, c'.master.tables, path, next)
  {
    var s, r, next := c.master, AllocateChunkRequest(path), c.master.tables.next;
    FileIsThere(s, path);
    NextIsFresh(s);
    FreshIsUnlisted(s, next);
    AskKeepsInv(c, r, env);
    hide Inv;
    Applied(s, r, OpAllocateChunk(path, next, 1, 0), env);
    hide Live;
    var t := Ask(c, r, env).master.tables;
    assert Holders(t.files, next) == {path};
  }

  /** A write to a file without chunks allocates one and lands on it. */
  lemma FirstWrite(c: Cluster, path: str, data: str, w: Weather)
    requires ClusterInv(c) && path in c.master.tables.files && c.master.tables.files[path].chunks == []
    requires c.master.tables.next != 0 && c.master.tables.next != U64 - 1
    requires w.located && w.responsive && w.allocating.logging == Written
    ensures var a, next := WriteChunk(c, path, 0, 0, data, None, w), c.master.tables.next;
            && a.ok && ClusterInv(a.cluster) && a.cluster.master.ns == c.master.ns
            && HasSlot(a.cluster.master, path, 0) && Slot(a.cluster.master, path, 0) == next
            && BytesOf(a.cluster.store, next) == Overlay(BytesOf(c.store, next), 0, data)
            && a.cluster.master.tables.next == next + 1
            && SlotsAdded(c.master.tables, a.cluster.master.tables, path, next)
  {
    FirstChunkAllocated(c, path, w.allocating);
    var c' := Ask(c, AllocateChunkRequest(path), w.allocating);
    FileIsThere(c.master, path);
    assert Resolve(c, path, 0, None, w) == Resolved(c', Some(c.master.tables.next), TookEffect(c.master, AllocateChunkRequest(path), w.allocating));
    WriteContents(c, path, 0, 0, data, None, w);
    LiveCopyOnWrite(c'.master, path, 0);
    CopyOnWriteAllOrNothing(c'.master, path, 0, w.copying);
    CopyOnWriteUnshared(c'.master, path, 0, w.copying);
    hide Inv, Live, Overlay, Resolve, CopyOnWrite, References, BytesOf;
    GrantMoves(c', path, 0, w.copying);
    ResolveOfSlot(Ask(c', CopyOnWriteRequest(path, 0), w.copying), path, 0, None, w);
  }

  const CALM := Weather(FINE, FINE, true, true)

  const A: str := [0x2F, 0x61]
  const B: str := [0x2F, 0x62]

  /** Create /a, write 1, take a snapshot /b, write 2. */
  const MISSED: seq<Action> := [
    Requested(CreateFileRequest(A, 1, 1, 1), FINE),
    ChunkWrite(A, 0, 0, [1], None, CALM),
    Requested(CreateSnapshotRequest(A, B), FINE),
    ChunkWrite(A, 0, 0, [2], None, CALM)]

  lemma FileMade(path: str)
    requires CanCreate(EMPTY, path)
    ensures Live(INITIAL, CreateFileRequest(path, 1, 1, 1), FINE).state ==
            Durable(EMPTY[path := File], NO_TABLES.(files := map[path := FileMeta(0, 1, [])]))
  {
    var op := OpCreateFile(path, 1);
    CreatableIsReal(INITIAL, path);
    hide CanCreate;
    assert RecordOf(INITIAL, CreateFileRequest(path, 1, 1, 1)) == Some(op);
    Applied(INITIAL, CreateFileRequest(path, 1, 1, 1), op, FINE);
    hide Live;
    assert CreateFile(NO_TABLES, path, 1).state == NO_TABLES.(files := map[path := FileMeta(0, 1, [])]);
  }

  lemma BesideEachOther()
    ensures CanCreate(EMPTY, A) && CanCreate(EMPTY, B) && CanCreate(EMPTY[A := File], B)
  {
    ShortPath(A, 0x61);
    ShortPath(B, 0x62);
    hide IsValid, Parent;
  }

  lemma FourActions(c: Cluster, a: Action, b: Action, d: Action, e: Action)
    ensures ActAll(c, [a, b, d, e]).0 == Act(Act(Act(Act(c, a).0, b).0, d).0, e).0
  {
    hide Act;
    var s := [a, b, d, e];
    var c1 := Act(c, a).0;
    var c2 := Act(c1, b).0;
    var c3 := Act(c2, d).0;
    assert s[1..] == [b, d, e] && [b, d, e][1..] == [d, e] && [d, e][1..] == [e] && [e][1..] == [];
    assert ActAll(Act(c3, e).0, []).0 == Act(c3, e).0;
    assert ActAll(c3, [e]).0 == Act(c3, e).0;
    assert ActAll(c2, [d, e]).0 == Act(c3, e).0;
    assert ActAll(c1, [b, d, e]).0 == Act(c3, e).0;
  }

  lemma OneByte(x: byte, y: byte)
    ensures Overlay([], 0, [x]) == [x] && Overlay([x], 0, [y]) == [y]
    ensures Range([x], 0, 1) == Some([x])
  {}

  /** From the new cluster, that run is possible, and a reader that cached the handle before the
      snapshot reads 1 afterwards, while a reader with an empty cache reads 2. */
  lemma StaleReadIsReached()
    ensures PossibleRun(NEW_CLUSTER, MISSED)
    ensures var c, cache: Cache := ActAll(NEW_CLUSTER, MISSED).0, map[(A, 0) := 1];
            && CachedAt(cache, A, 0) == ReaderHandle(Act(Act(NEW_CLUSTER, MISSED[0]).0, MISSED[1]).0, map[], A, 0)
            && ReadPieces(c, cache, A, 0, 1) == Some([1])
            && ReadPieces(c, map[], A, 0, 1) == Some([2])
  {
    hide Inv, Live, WriteChunk, Overlay, ReadPieces, BytesOf, CanCreate, PossibleRun, ActAll, StoreAfter;
    RunWithoutRestarts(NEW_CLUSTER, MISSED);
    FourActions(NEW_CLUSTER, MISSED[0], MISSED[1], MISSED[2], MISSED[3]);
    BesideEachOther();
    NewClusterInv();
    FileMade(A);
    AskKeepsInv(NEW_CLUSTER, CreateFileRequest(A, 1, 1, 1), FINE);
    var c1 := Act(NEW_CLUSTER, MISSED[0]).0;
    NothingStored(c1, A);
    FirstWrite(c1, A, [1], CALM);
    OneByte(1, 2);
    OneByte(2, 2);
    var c2 := Act(c1, MISSED[1]).0;
    var cache: Cache := map[(A, 0) := 1];
    SnapshotThenWriteIsMissed(c2, A, 0, B, FINE, 0, [2], None, CALM, cache, 0, 1);
  }

  lemma NothingStored(c: Cluster, path: str)
    requires c == Ask(NEW_CLUSTER, CreateFileRequest(path, 1, 1, 1), FINE)
    ensures c.store == map[] && BytesOf(c.store, 1) == []
  {
    hide Live;
  }

  // ----- a snapshot between copy-on-write and the write -----

  /** Copy-on-write has made a slot private, but the bytes have not been written yet.  If a snapshot of
      the file is taken now, the write that was granted is not isolated any more: some bytes at some
      offset change another file too. */
  lemma SnapshotBeforeWriteBreaksIsolation(c: Cluster, path: str, index: u64, destination: str, env: Env)
    requires ClusterInv(c) && HasSlot(c.master, path, index) && CanCreate(c.master.ns, destination) && env.logging == Written
    ensures var c', h := Ask(c, CreateSnapshotRequest(path, destination), env), Slot(c.master, path, index);
            exists offset, data, q :: q != path && q in Contents(c') && q in Contents(RawWrite(c', h, offset, data))
                                      && Contents(RawWrite(c', h, offset, data))[q] != Contents(c')[q]
  {
    hide Live, References, CanCreate, Overlay, Ask;
    SnapshotShares(c, path, index, destination, env);
    var c', h := Ask(c, CreateSnapshotRequest(path, destination), env), Slot(c.master, path, index);
    SlotOfInv(c'.master, path, index);
    assert path in Holders(c'.master.tables.files, h);
    hide Inv;
    RawWriteIsolatedIff(c', h, path);
    var offset, data, q :| q != path && q in Contents(c') && !(q in Contents(RawWrite(c', h, offset, data))
                             && Contents(RawWrite(c', h, offset, data))[q] == Contents(c')[q]);
    RawWriteChanges(c', h, offset, data, q);
  }

  // ----- bytes that come back -----

  /** Create /a, write 1, delete /a. */
  const FORGOTTEN: seq<Action> := [
    Requested(CreateFileRequest(A, 1, 1, 1), FINE),
    ChunkWrite(A, 0, 0, [1], None, CALM),
    Requested(DeleteFileRequest(A), FINE)]

  lemma LastFileDeleted(c: Cluster, path: str, h: Handle)
    requires ClusterInv(c) && c.master.ns == EMPTY[path := File] && path !in EMPTY
    requires SlotsAdded(NO_TABLES.(files := map[path := FileMeta(0, 1, [])]), c.master.tables, path, h)
    ensures Same(Live(c.master, DeleteFileRequest(path), FINE).state, INITIAL)
  {
    var s, t := c.master, c.master.tables;
    assert RecordOf(s, DeleteFileRequest(path)) == Some(OpDeleteFile(path));
    Applied(s, DeleteFileRequest(path), OpDeleteFile(path), FINE);
    assert Holders(t.files, h) == {path};
    assert LastReferences(t, path) == {h};
    hide Inv, Live, LastReferences;
    assert s.ns - {path} == EMPTY;
    assert t.files - {path} == map[] && t.chunks - {h} == map[];
  }

  /** After that run nothing is live, and a checkpoint taken then restores an empty master, whose
      counter starts at 1 again.  But the byte written before is still stored under handle 1: the
      first chunk of the next file starts with it. */
  lemma RevivedBytesAreReached(env: Env)
    requires env.logging == Written
    ensures PossibleRun(NEW_CLUSTER, FORGOTTEN)
    ensures var c := Act(Act(Act(NEW_CLUSTER, FORGOTTEN[0]).0, FORGOTTEN[1]).0, FORGOTTEN[2]).0;
            && Same(c.master, INITIAL) && ClusterInv(c) && !StaysPrivate(c.(master := INITIAL), Contents(c))
            && var d := Ask(c.(master := INITIAL), CreateFileRequest(B, 1, 1, 1), FINE);
               B in Contents(d) && Contents(Ask(d, AllocateChunkRequest(B), env)) == Contents(d)[B := [[1]]]
  {
    hide Inv, Live, WriteChunk, Overlay, BytesOf, CanCreate, PossibleRun, References, Contents, RecordOf, StaysPrivate;
    RunWithoutRestarts(NEW_CLUSTER, FORGOTTEN);
    BesideEachOther();
    NewClusterInv();
    FileMade(A);
    AskKeepsInv(NEW_CLUSTER, CreateFileRequest(A, 1, 1, 1), FINE);
    var c1 := Act(NEW_CLUSTER, FORGOTTEN[0]).0;
    NothingStored(c1, A);
    FirstWrite(c1, A, [1], CALM);
    OneByte(1, 1);
    var c2 := Act(c1, FORGOTTEN[1]).0;
    LastFileDeleted(c2, A, 1);
    SameBytesStored(c2, A);
    AskKeepsInv(c2, DeleteFileRequest(A), FINE);
    var c3 := Act(c2, FORGOTTEN[2]).0;
    FreshRecovers();
    StoredUnder(c3.store, 1);
    RestartIff(c3, INITIAL);
    FileMade(B);
    var empty := c3.(master := INITIAL);
    LiveKeepsInv(INITIAL, CreateFileRequest(B, 1, 1, 1), FINE);
    var d := Ask(empty, CreateFileRequest(B, 1, 1, 1), FINE);
    SameBytesStored(empty, B);
    RevivedBytes(d, B, env);
    NoBytesYet(d, B);
    assert d.store == c2.store && d.master.tables.next == 1;
    assert [] + [BytesOf(d.store, 1)] == [[1]];
  }

  lemma StoredUnder(store: map<Handle, str>, h: Handle)
    ensures BytesOf(store, h) != [] ==> !NoneStoredFrom(store, h)
  {}

  lemma SameBytesStored(c: Cluster, path: str)
    ensures Ask(c, CreateFileRequest(path, 1, 1, 1), FINE).store == c.store
    ensures Ask(c, DeleteFileRequest(path), FINE).store == c.store
  {
    hide Live;
  }

  lemma NoBytesYet(c: Cluster, path: str)
    requires path in c.master.tables.files && c.master.tables.files[path].chunks == []
    ensures path in Contents(c) && Contents(c)[path] == []
  {}
}
