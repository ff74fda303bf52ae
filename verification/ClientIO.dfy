// The client's writer and reader.

module ClientIO {
  // Byte ranges of a file are cut at chunk boundaries, each piece goes to one chunk, and the whole
  // behaves like one flat file.

  import opened Bytes
  import opened Namespace
  import opened ChunkTables
  import opened MasterState
  import opened Effects
  import opened ChunkBytes
  import opened Isolation

  type Cache = map<(str, u64), Handle>

  // ----- a file as one flat range of bytes -----

  function At(files: Files, path: str, o: nat): Option<byte> {
    if path in files && o / CHUNK_SIZE < |files[path]| && o % CHUNK_SIZE < |files[path][o / CHUNK_SIZE]|
    then Some(files[path][o / CHUNK_SIZE][o % CHUNK_SIZE]) else None
  }

  /** How much of a range fits into the chunk where it starts. */
  function Piece(offset: nat, length: nat): (n: nat)
    ensures n <= length && offset % CHUNK_SIZE + n <= CHUNK_SIZE
    ensures length > 0 ==> n > 0
    ensures n < length ==> (offset + n) % CHUNK_SIZE == 0
  {
    var room := CHUNK_SIZE - offset % CHUNK_SIZE;
    if room < length then room else length
  }

  lemma InPiece(offset: nat, n: nat, o: nat)
    requires offset % CHUNK_SIZE + n <= CHUNK_SIZE
    ensures offset <= o < offset + n <==>
            o / CHUNK_SIZE == offset / CHUNK_SIZE && offset % CHUNK_SIZE <= o % CHUNK_SIZE < offset % CHUNK_SIZE + n
    ensures offset <= o < offset + n ==> o % CHUNK_SIZE - offset % CHUNK_SIZE == o - offset
  {}

  // ----- writing -----

  function CachedAt(cache: Cache, path: str, index: u64): Option<Handle> {
    if (path, index) in cache then Some(cache[(path, index)]) else None
  }

  datatype WriteResult = WriteResult(cluster: Cluster, ok: bool)

  /** The pieces of a write, one after the other, up to the first that fails. */
  function WritePieces(c: Cluster, cache: Cache, path: str, offset: nat, data: str, weather: u64 -> Weather): WriteResult
    requires offset + |data| < U64
    decreases |data|
  {
    if data == [] then WriteResult(c, true)
    else
      var n, index := Piece(offset, |data|), offset / CHUNK_SIZE;
      var a := WriteChunk(c, path, index, offset % CHUNK_SIZE, data[..n], CachedAt(cache, path, index), weather(index));
      if a.ok then WritePieces(a.cluster, cache, path, offset + n, data[n..], weather) else WriteResult(a.cluster, false)
  }

  function AfterSequential(w: WriteResult, path: str, end: u64, env: Env): WriteResult {
    if !w.ok then w
    else
      var r := UpdateFileSizeRequest(path, end);
      WriteResult(Ask(w.cluster, r, env), Live(w.cluster.master, r, env).ok)
  }

  /** What a write to a range of a flat file may do: inside the range up to `done` the new bytes,
      beyond that the old ones; outside everything stays, except that a gap inside the chunk
      where the range starts is filled with zeros. */
  ghost predicate FlatWrite(before: Files, after: Files, path: str, offset: nat, data: str, done: nat) {
    && done <= |data|
    && before.Keys == after.Keys
    && (forall q :: q in before && q != path ==> after[q] == before[q])
    && (forall o: nat {:trigger At(after, path, o)} :: offset <= o < offset + done ==> At(after, path, o) == Some(data[o - offset]))
    && (forall o: nat {:trigger At(after, path, o)} :: o < offset || offset + done <= o ==>
          At(after, path, o) == At(before, path, o)
          || (At(before, path, o) == None && At(after, path, o) == Some(0) && o < offset && o / CHUNK_SIZE == offset / CHUNK_SIZE))
  }

  /** One piece is a flat write. */
  lemma PieceIsFlat(files: Files, path: str, offset: nat, data: str, grew: bool, written: bool)
    requires offset % CHUNK_SIZE + |data| <= CHUNK_SIZE
    requires var after := Writing(files, path, offset / CHUNK_SIZE, offset % CHUNK_SIZE, data, grew, written);
             written ==> path in after && offset / CHUNK_SIZE < |after[path]|
    ensures FlatWrite(files, Writing(files, path, offset / CHUNK_SIZE, offset % CHUNK_SIZE, data, grew, written),
                      path, offset, data, if written then |data| else 0)
  {
    var index, at := offset / CHUNK_SIZE, offset % CHUNK_SIZE;
    var after := Writing(files, path, index, at, data, grew, written);
    hide Overlay;
    forall o: nat
      ensures written && offset <= o < offset + |data| ==> At(after, path, o) == Some(data[o - offset])
      ensures !written || o < offset || offset + |data| <= o ==>
                At(after, path, o) == At(files, path, o)
                || (At(files, path, o) == None && At(after, path, o) == Some(0) && o < offset && o / CHUNK_SIZE == index)
    {
      InPiece(offset, |data|, o);
      if written && o / CHUNK_SIZE == index {
        var bytes := if index < |files[path]| then files[path][index] else [];
        assert after[path][index] == Overlay(bytes, at, data);
        if o % CHUNK_SIZE < |after[path][index]| {
          OverlayAt(bytes, at, data, o % CHUNK_SIZE);
        }
      }
    }
  }

  /** Flat writes of adjacent ranges add up.  The second starts at a chunk boundary, or is empty, so
      it fills no gap outside. */
  lemma FlatWritesAdd(a: Files, b: Files, c: Files, path: str, offset: nat, data: str, n: nat, done: nat)
    requires n <= |data| && (n < |data| ==> (offset + n) % CHUNK_SIZE == 0)
    requires FlatWrite(a, b, path, offset, data[..n], n) && FlatWrite(b, c, path, offset + n, data[n..], done)
    requires n == |data| ==> b == c
    ensures FlatWrite(a, c, path, offset, data, n + done)
  {
    hide At;
    forall o: nat
      ensures offset <= o < offset + n + done ==> At(c, path, o) == Some(data[o - offset])
      ensures o < offset || offset + n + done <= o ==>
                At(c, path, o) == At(a, path, o)
                || (At(a, path, o) == None && At(c, path, o) == Some(0) && o < offset && o / CHUNK_SIZE == offset / CHUNK_SIZE)
    {
      if n == |data| {
        assert data[..n] == data;
      } else {
        if o < offset + n {
          BeforeBoundary(offset + n, o);
        }
        if offset <= o < offset + n {
          assert At(b, path, o) == Some(data[..n][o - offset]);
        } else if offset + n <= o < offset + n + done {
          assert At(c, path, o) == Some(data[n..][o - (offset + n)]);
        }
      }
    }
  }

  lemma BeforeBoundary(m: nat, o: nat)
    requires m % CHUNK_SIZE == 0 && o < m
    ensures o / CHUNK_SIZE != m / CHUNK_SIZE
  {}

  lemma SameIsFlat(files: Files, path: str, offset: nat, data: str)
    ensures FlatWrite(files, files, path, offset, data, 0)
  {}

  /** The predicate for a failed write: some part at the front of the range has been written. */
  ghost predicate PartlyWritten(before: Files, after: Files, path: str, offset: nat, data: str) {
    exists done :: FlatWrite(before, after, path, offset, data, done)
  }

  lemma ChunkIsFlat(c: Cluster, path: str, offset: nat, piece: str, cached: Option<Handle>, w: Weather)
    requires ClusterInv(c) && offset < U64 && offset % CHUNK_SIZE + |piece| <= CHUNK_SIZE
    ensures var a := WriteChunk(c, path, offset / CHUNK_SIZE, offset % CHUNK_SIZE, piece, cached, w);
            ClusterInv(a.cluster) && FlatWrite(Contents(c), Contents(a.cluster), path, offset, piece, if a.ok then |piece| else 0)
  {
    var index := offset / CHUNK_SIZE;
    hide ClusterInv, Contents, WriteChunk, References, FlatWrite, Writing;
    var a := WriteChunk(c, path, index, offset % CHUNK_SIZE, piece, cached, w);
    WriteContents(c, path, index, offset % CHUNK_SIZE, piece, cached, w);
    WrittenSlotExists(a, path, index);
    PieceIsFlat(Contents(c), path, offset, piece, a.grew, a.ok);
  }

  lemma WritePiecesStep(c: Cluster, cache: Cache, path: str, offset: nat, data: str, weather: u64 -> Weather)
    requires offset + |data| < U64 && data != []
    ensures var n, index := Piece(offset, |data|), offset / CHUNK_SIZE;
            var a := WriteChunk(c, path, index, offset % CHUNK_SIZE, data[..n], CachedAt(cache, path, index), weather(index));
            WritePieces(c, cache, path, offset, data, weather) ==
            if a.ok then WritePieces(a.cluster, cache, path, offset + n, data[n..], weather) else WriteResult(a.cluster, false)
  {
    hide WriteChunk;
  }

  lemma NoPieces(c: Cluster, cache: Cache, path: str, offset: nat, data: str, weather: u64 -> Weather)
    requires data == [] && offset < U64
    ensures WritePieces(c, cache, path, offset, data, weather) == WriteResult(c, true)
  {}

  /** The pieces together are one flat write of the whole range; if a piece fails, of a front part
      of it.  No other file changes. */
  lemma {:induction false} PiecesAreFlat(c: Cluster, cache: Cache, path: str, offset: nat, data: str, weather: u64 -> Weather)
    returns (done: nat)
    requires ClusterInv(c) && offset + |data| < U64
    ensures var w := WritePieces(c, cache, path, offset, data, weather);
            && ClusterInv(w.cluster)
            && FlatWrite(Contents(c), Contents(w.cluster), path, offset, data, done)
            && (w.ok ==> done == |data|)
    decreases |data|
  {
    hide ClusterInv, Contents, WriteChunk, FlatWrite, WritePieces, CachedAt;
    if data == [] {
      done := 0;
      SameIsFlat(Contents(c), path, offset, data);
      NoPieces(c, cache, path, offset, data, weather);
    } else {
      WritePiecesStep(c, cache, path, offset, data, weather);
      var n, index := Piece(offset, |data|), offset / CHUNK_SIZE;
      var cached, w := CachedAt(cache, path, index), weather(index);
      var a := WriteChunk(c, path, index, offset % CHUNK_SIZE, data[..n], cached, w);
      ChunkIsFlat(c, path, offset, data[..n], cached, w);
      if !a.ok {
        done := 0;
        FlatPrefix(Contents(c), Contents(a.cluster), path, offset, data, n);
      } else {
        var rest := PiecesAreFlat(a.cluster, cache, path, offset + n, data[n..], weather);
        var last := WritePieces(a.cluster, cache, path, offset + n, data[n..], weather);
        done := n + rest;
        if n == |data| {
          NoPieces(a.cluster, cache, path, offset + n, data[n..], weather);
        }
        FlatWritesAdd(Contents(c), Contents(a.cluster), Contents(last.cluster), path, offset, data, n, rest);
      }
    }
  }

  lemma WrittenSlotExists(a: Attempt, path: str, index: u64)
    requires a.ok ==> path in a.cluster.master.tables.files && index < |a.cluster.master.tables.files[path].chunks|
    ensures a.ok ==> path in Contents(a.cluster) && index < |Contents(a.cluster)[path]|
  {}

  lemma FlatPrefix(before: Files, after: Files, path: str, offset: nat, data: str, n: nat)
    requires n <= |data| && FlatWrite(before, after, path, offset, data[..n], 0)
    ensures FlatWrite(before, after, path, offset, data, 0)
  {}

  // ----- reading -----

  /** The handle a reader uses: the cached one if there is one, else the one the master lists. */
  function ReaderHandle(c: Cluster, cache: Cache, path: str, index: u64): Option<Handle> {
    var t := c.master.tables;
    if CachedAt(cache, path, index) != None then CachedAt(cache, path, index)
    else if path in t.files && index < |t.files[path].chunks| && t.files[path].chunks[index] != 0
    then Some(t.files[path].chunks[index]) else None
  }

  /** The pieces of a read, put together; None if one cannot be read in full. */
  function ReadPieces(c: Cluster, cache: Cache, path: str, offset: nat, length: nat): Option<str>
    requires offset + length < U64
    decreases length
  {
    if length == 0 then Some([])
    else
      var n, at := Piece(offset, length), offset % CHUNK_SIZE;
      match ReaderHandle(c, cache, path, offset / CHUNK_SIZE)
      case None => None
      case Some(h) =>
        var bytes := BytesOf(c.store, h);
        if |bytes| < at + n then None
        else
          match ReadPieces(c, cache, path, offset + n, length - n)
          case None => None
          case Some(rest) => Some(bytes[at..at + n] + rest)
  }

  /** Every cached handle of the file is the one the master lists. */
  ghost predicate Coherent(c: Cluster, cache: Cache, path: str) {
    forall index: u64 :: (path, index) in cache ==>
      && path in c.master.tables.files && index < |c.master.tables.files[path].chunks|
      && cache[(path, index)] == c.master.tables.files[path].chunks[index]
  }

  ghost predicate FlatRead(files: Files, path: str, offset: nat, length: nat, data: str) {
    |data| == length && forall o: nat {:trigger At(files, path, o)} :: offset <= o < offset + length ==> At(files, path, o) == Some(data[o - offset])
  }

  lemma JoinFlat(files: Files, path: str, offset: nat, n: nat, length: nat, front: str, rest: str)
    requires n <= length && FlatRead(files, path, offset, n, front) && FlatRead(files, path, offset + n, length - n, rest)
    ensures FlatRead(files, path, offset, length, front + rest)
  {
    hide At;
  }

  lemma NothingRead(files: Files, path: str, offset: nat)
    ensures FlatRead(files, path, offset, 0, [])
  {}

  /** The piece at the front of a range, read from its chunk. */
  lemma PieceIsRead(files: Files, path: str, offset: nat, n: nat, bytes: str)
    requires offset % CHUNK_SIZE + n <= CHUNK_SIZE && 0 < n
    requires path in files && offset / CHUNK_SIZE < |files[path]| && files[path][offset / CHUNK_SIZE] == bytes
    ensures var at := offset % CHUNK_SIZE;
            if at + n <= |bytes| then FlatRead(files, path, offset, n, bytes[at..at + n])
            else At(files, path, offset + n - 1) == None
  {
    forall o: nat | offset <= o < offset + n
      ensures o / CHUNK_SIZE == offset / CHUNK_SIZE && o % CHUNK_SIZE == offset % CHUNK_SIZE + (o - offset)
    {
      InPiece(offset, n, o);
    }
  }

  lemma NoChunkToRead(files: Files, path: str, offset: nat)
    requires path !in files || |files[path]| <= offset / CHUNK_SIZE
    ensures At(files, path, offset) == None
  {}

  /** With a coherent cache a read returns the flat bytes of the range, and it succeeds exactly if
      every byte of the range exists. */
  lemma {:induction false} ReadIsFlat(c: Cluster, cache: Cache, path: str, offset: nat, length: nat)
    requires Inv(c.master) && Coherent(c, cache, path) && offset + length < U64
    ensures match ReadPieces(c, cache, path, offset, length)
            case None => exists o: nat :: offset <= o < offset + length && At(Contents(c), path, o) == None
            case Some(data) => FlatRead(Contents(c), path, offset, length, data)
    decreases length
  {
    hide Inv, Contents, Coherent, ReaderHandle, BytesOf, At, FlatRead;
    if length == 0 {
      NothingRead(Contents(c), path, offset);
    } else {
      var n, at, index := Piece(offset, length), offset % CHUNK_SIZE, offset / CHUNK_SIZE;
      var files := Contents(c);
      SlotRead(c, cache, path, index);
      var h := ReaderHandle(c, cache, path, index);
      ReadIsFlat(c, cache, path, offset + n, length - n);
      if h == None {
        NoChunkToRead(files, path, offset);
        assert At(files, path, offset) == None;
      } else {
        var bytes := BytesOf(c.store, h.value);
        PieceIsRead(files, path, offset, n, bytes);
        if |bytes| < at + n {
          assert At(files, path, offset + n - 1) == None;
        } else if ReadPieces(c, cache, path, offset + n, length - n) != None {
          JoinFlat(files, path, offset, n, length, bytes[at..at + n], ReadPieces(c, cache, path, offset + n, length - n).value);
        }
      }
    }
  }

  lemma ContentsAt(c: Cluster, path: str)
    ensures path in Contents(c) <==> path in c.master.tables.files
    ensures path in Contents(c) ==> Contents(c)[path] == BytesOfAll(c.store, c.master.tables.files[path].chunks)
  {}

  lemma NoZeroSlot(s: Durable, path: str, index: u64)
    requires Inv(s) && path in s.tables.files && index < |s.tables.files[path].chunks|
    ensures s.tables.files[path].chunks[index] != 0
  {
    hide WellFormed;
    assert ConsistentFile(s.tables, path);
    assert s.tables.files[path].chunks[index] in s.tables.chunks;
  }

  lemma SlotRead(c: Cluster, cache: Cache, path: str, index: u64)
    requires Inv(c.master) && Coherent(c, cache, path)
    ensures var h, files := ReaderHandle(c, cache, path, index), Contents(c);
            && (h == None <==> path !in files || |files[path]| <= index)
            && (h != None ==> files[path][index] == BytesOf(c.store, h.value))
  {
    hide Inv, Contents;
    ContentsAt(c, path);
    if path in c.master.tables.files && index < |c.master.tables.files[path].chunks| {
      NoZeroSlot(c.master, path, index);
    }
  }

  /** Reading back a range that has just been written returns exactly the data. */
  lemma ReadBack(c: Cluster, writer: Cache, path: str, offset: nat, data: str, weather: u64 -> Weather, reader: Cache)
    requires ClusterInv(c) && offset + |data| < U64
    requires var w := WritePieces(c, writer, path, offset, data, weather); w.ok && Coherent(w.cluster, reader, path)
    ensures ReadPieces(WritePieces(c, writer, path, offset, data, weather).cluster, reader, path, offset, |data|) == Some(data)
  {
    hide Contents, At, WritePieces, Coherent, Inv, FlatWrite, FlatRead, ReadPieces;
    var done := PiecesAreFlat(c, writer, path, offset, data, weather);
    var c' := WritePieces(c, writer, path, offset, data, weather).cluster;
    ReadIsFlat(c', reader, path, offset, |data|);
    BytesAreThere(Contents(c), Contents(c'), path, offset, data);
    if ReadPieces(c', reader, path, offset, |data|) != None {
      SameBytes(Contents(c), Contents(c'), path, offset, data, ReadPieces(c', reader, path, offset, |data|).value);
    }
  }

  lemma BytesAreThere(before: Files, after: Files, path: str, offset: nat, data: str)
    requires FlatWrite(before, after, path, offset, data, |data|)
    ensures forall o: nat :: offset <= o < offset + |data| ==> At(after, path, o) != None
  {
    hide At;
  }

  lemma SameBytes(before: Files, after: Files, path: str, offset: nat, data: str, read: str)
    requires FlatWrite(before, after, path, offset, data, |data|) && FlatRead(after, path, offset, |data|, read)
    ensures read == data
  {
    hide At;
    forall i | 0 <= i < |data|
      ensures read[i] == data[i]
    {
      assert At(after, path, offset + i) == Some(data[offset + i - offset]);
    }
  }

  /** How much of a range lies below the recorded size. */
  function Available(size: u64, offset: nat, length: nat): nat {
    if size <= offset then 0 else if size - offset < length then size - offset else length
  }

  /** A read that is clamped to the recorded size; it fails if it starts beyond. */
  function Clamped(c: Cluster, cache: Cache, path: str, offset: nat, length: nat): Option<str>
    requires offset + length < U64
  {
    var files := c.master.tables.files;
    if path !in files || files[path].size < offset then None
    else ReadPieces(c, cache, path, offset, Available(files[path].size, offset, length))
  }

  lemma SizeIsRecorded(c: Cluster, path: str, size: u64, env: Env)
    ensures var r := UpdateFileSizeRequest(path, size);
            Live(c.master, r, env).ok ==>
              path in Ask(c, r, env).master.tables.files && Ask(c, r, env).master.tables.files[path].size == size
  {
    UpdateFileSizeEffect(c.master, path, size, env);
    hide Live;
  }

  /** A read of a range that has been written and recorded returns exactly the data. */
  lemma ReadAfterWrite(before: Files, c: Cluster, path: str, offset: nat, data: str, reader: Cache)
    requires ClusterInv(c) && Coherent(c, reader, path) && offset + |data| < U64
    requires FlatWrite(before, Contents(c), path, offset, data, |data|)
    requires path in c.master.tables.files && c.master.tables.files[path].size == offset + |data|
    ensures Clamped(c, reader, path, offset, |data|) == Some(data)
  {
    assert Inv(c.master);
    hide Inv, Contents, At, FlatWrite, FlatRead, ReadPieces, Coherent;
    assert Available(offset + |data|, offset, |data|) == |data|;
    ReadIsFlat(c, reader, path, offset, |data|);
    BytesAreThere(before, Contents(c), path, offset, data);
    if ReadPieces(c, reader, path, offset, |data|) != None {
      SameBytes(before, Contents(c), path, offset, data, ReadPieces(c, reader, path, offset, |data|).value);
    }
  }

  // ----- the loops -----

  class Client {
    /** The system the client talks to, and what the client remembers of chunk handles. */
    var cluster: Cluster
    var cache: Cache

    constructor (cluster: Cluster)
      ensures this.cluster == cluster && cache == map[]
    {
      this.cluster, cache := cluster, map[];
    }

    method ResolveOrAllocateChunk(path: str, index: u64, w: Weather) returns (handle: Option<Handle>)
      modifies this
      ensures var r := Resolve(old(cluster), path, index, CachedAt(old(cache), path, index), w);
              cluster == r.cluster && handle == r.handle
      ensures forall k :: k != (path, index) ==> (k in cache <==> k in old(cache)) && (k in cache ==> cache[k] == old(cache)[k])
    {
      hide Ask, Live;
      if (path, index) in cache {
        return Some(cache[(path, index)]);
      }
      var t := cluster.master.tables;
      if path == [] || path !in t.files || |t.files[path].chunks| < index {
        return None;
      }
      handle := None;
      if index < |t.files[path].chunks| {
        if w.located && t.files[path].chunks[index] != 0 {
          handle := Some(t.files[path].chunks[index]);
        }
      } else {
        var r := AllocateChunkRequest(path);
        var granted := Live(cluster.master, r, w.allocating).ok;
        cluster := Ask(cluster, r, w.allocating);
        if granted && w.located {
          handle := Some(t.next);
        }
      }
      if handle != None {
        cache := cache[(path, index) := handle.value];
      }
    }

    /** One chunk: resolve, ask for a private copy, forget, resolve again, write. */
    method WriteOneChunk(path: str, index: u64, offset: nat, data: str, w: Weather) returns (ok: bool)
      modifies this
      ensures var a := WriteChunk(old(cluster), path, index, offset, data, CachedAt(old(cache), path, index), w);
              cluster == a.cluster && ok == a.ok
      ensures forall k :: k != (path, index) ==> (k in cache <==> k in old(cache)) && (k in cache ==> cache[k] == old(cache)[k])
    {
      hide Ask, Live, Overlay, Resolve;
      var handle := ResolveOrAllocateChunk(path, index, w);
      if handle == None {
        return false;
      }
      var r := CopyOnWriteRequest(path, index);
      var granted := Live(cluster.master, r, w.copying).ok;
      cluster := Ask(cluster, r, w.copying);
      if !granted {
        return false;
      }
      cache := cache - {(path, index)};
      handle := ResolveOrAllocateChunk(path, index, w);
      if handle == None || !w.responsive {
        return false;
      }
      cluster := RawWrite(cluster, handle.value, offset, data);
      ok := true;
    }

    /** Cuts the data at chunk boundaries, writes piece by piece, and records the end as file size. */
    method WriteSequential(path: str, offset: nat, data: str, weather: u64 -> Weather, env: Env) returns (ok: bool)
      requires offset + |data| < U64
      modifies this
      ensures path == [] || data == [] ==> !ok && cluster == old(cluster)
      ensures path != [] && data != [] ==>
                WriteResult(cluster, ok) ==
                AfterSequential(WritePieces(old(cluster), old(cache), path, offset, data, weather), path, offset + |data|, env)
      ensures old(ClusterInv(cluster)) && ok ==>
                ClusterInv(cluster) && FlatWrite(old(Contents(cluster)), Contents(cluster), path, offset, data, |data|)
      ensures old(ClusterInv(cluster)) && !ok ==>
                ClusterInv(cluster) && PartlyWritten(old(Contents(cluster)), Contents(cluster), path, offset, data)
      ensures ok ==> path in cluster.master.tables.files && cluster.master.tables.files[path].size == offset + |data|
      ensures old(ClusterInv(cluster)) && ok ==>
                forall reader: Cache :: Coherent(cluster, reader, path) ==> Clamped(cluster, reader, path, offset, |data|) == Some(data)
    {
      hide Ask, Live, WritePieces, ClusterInv, Contents, FlatWrite, PartlyWritten, Coherent, Clamped;
      ghost var before, known := cluster, cache;
      NothingWritten(before, path, offset, data);
      if path == [] || data == [] {
        return false;
      }
      SequentialIsFlat(before, known, path, offset, data, weather, env);
      ok := WriteInTurn(path, offset, data, weather);
      if !ok {
        return;
      }
      var r := UpdateFileSizeRequest(path, offset + |data|);
      ok := Live(cluster.master, r, env).ok;
      SizeIsRecorded(cluster, path, offset + |data|, env);
      cluster := Ask(cluster, r, env);
      if ok && ClusterInv(before) {
        forall reader: Cache | Coherent(cluster, reader, path)
          ensures Clamped(cluster, reader, path, offset, |data|) == Some(data)
        {
          ReadAfterWrite(Contents(before), cluster, path, offset, data, reader);
        }
      }
    }

    /** Piece by piece, up to the first that fails. */
    method WriteInTurn(path: str, offset: nat, data: str, weather: u64 -> Weather) returns (ok: bool)
      requires offset + |data| < U64
      modifies this
      ensures WriteResult(cluster, ok) == WritePieces(old(cluster), old(cache), path, offset, data, weather)
    {
      hide Ask, Live, WriteChunk;
      ghost var before, known := cluster, cache;
      var remaining, position, current := |data|, 0, offset;
      assert data[0..] == data;
      while remaining > 0
        invariant 0 <= remaining && 0 <= position && remaining + position == |data| && current == offset + position
        invariant WritePieces(before, known, path, offset, data, weather) == WritePieces(cluster, known, path, current, data[position..], weather)
        invariant forall index: u64 :: index * CHUNK_SIZE >= current || position == 0 ==>
                    CachedAt(cache, path, index) == CachedAt(known, path, index)
        invariant position > 0 && remaining > 0 ==> current % CHUNK_SIZE == 0
      {
        var index, at := current / CHUNK_SIZE, current % CHUNK_SIZE;
        var room := CHUNK_SIZE - at;
        var n := if room < remaining then room else remaining;
        assert n == Piece(current, remaining);
        assert data[position..][..n] == data[position..position + n];
        assert data[position..][n..] == data[position + n..];
        assert CachedAt(cache, path, index) == CachedAt(known, path, index);
        var done := WriteOneChunk(path, index, at, data[position..position + n], weather(index));
        if !done {
          return false;
        }
        current := current + n;
        position := position + n;
        remaining := remaining - n;
      }
      assert data[position..] == [];
      ok := true;
    }

    method ResolveChunk(path: str, index: u64) returns (handle: Option<Handle>)
      modifies this`cache
      ensures handle == ReaderHandle(cluster, old(cache), path, index)
      ensures forall k :: k != (path, index) ==> (k in cache <==> k in old(cache)) && (k in cache ==> cache[k] == old(cache)[k])
      ensures Coherent(cluster, old(cache), path) ==> Coherent(cluster, cache, path)
    {
      if (path, index) in cache {
        return Some(cache[(path, index)]);
      }
      var t := cluster.master.tables;
      if path in t.files && index < |t.files[path].chunks| && t.files[path].chunks[index] != 0 {
        handle := Some(t.files[path].chunks[index]);
        cache := cache[(path, index) := handle.value];
      } else {
        handle := None;
      }
    }

    /** Reads piece by piece and appends; a short or missing piece fails the whole read. */
    method ReadSequential(path: str, offset: nat, length: nat) returns (ok: bool, data: str)
      requires offset + length < U64
      modifies this`cache
      ensures path == [] ==> !ok
      ensures path != [] ==> (ok <==> ReadPieces(cluster, old(cache), path, offset, length) != None)
      ensures path != [] && ok ==> ReadPieces(cluster, old(cache), path, offset, length) == Some(data)
      ensures path != [] && Inv(cluster.master) && Coherent(cluster, old(cache), path) ==>
                if ok then FlatRead(Contents(cluster), path, offset, length, data)
                else exists o: nat :: offset <= o < offset + length && At(Contents(cluster), path, o) == None
    {
      hide Inv, Contents, At, FlatRead, Coherent, BytesOf, ReaderHandle, ReadPieces, CachedAt;
      data := [];
      if path == [] {
        return false, [];
      }
      ghost var known := cache;
      if Inv(cluster.master) && Coherent(cluster, known, path) {
        ReadIsFlat(cluster, known, path, offset, length);
      }
      var remaining, current := length, offset;
      JoinNothing(ReadPieces(cluster, known, path, offset, length));
      while remaining > 0
        invariant 0 <= remaining && offset <= current && current + remaining == offset + length
        invariant ReadPieces(cluster, known, path, offset, length) == Joined(data, ReadPieces(cluster, known, path, current, remaining))
        invariant forall index: u64 :: index * CHUNK_SIZE >= current || current == offset ==> CachedAt(cache, path, index) == CachedAt(known, path, index)
        invariant current > offset && remaining > 0 ==> current % CHUNK_SIZE == 0
      {
        var index, at := current / CHUNK_SIZE, current % CHUNK_SIZE;
        var room := CHUNK_SIZE - at;
        var n := if room < remaining then room else remaining;
        assert n == Piece(current, remaining);
        SameHandle(cluster, cache, known, path, index);
        ReadOneMore(cluster, known, path, current, remaining);
        ghost var before := cache;
        var handle := ResolveChunk(path, index);
        if handle == None {
          return false, [];
        }
        var bytes := BytesOf(cluster.store, handle.value);
        if |bytes| < at + n {
          return false, [];
        }
        JoinMore(data, bytes[at..at + n], ReadPieces(cluster, known, path, current + n, remaining - n));
        OthersStay(before, cache, path, index);
        data := data + bytes[at..at + n];
        current := current + n;
        remaining := remaining - n;
      }
      NothingToRead(cluster, known, path, current);
      assert data + [] == data;
      ok := true;
    }

    /** Reads up to the recorded size of the file. */
    method Read(path: str, offset: nat, length: nat) returns (ok: bool, data: str)
      requires offset + length < U64
      modifies this`cache
      ensures ok <==> path != [] && (length == 0 || Clamped(cluster, old(cache), path, offset, length) != None)
      ensures ok ==> data == if length == 0 then [] else Clamped(cluster, old(cache), path, offset, length).value
      ensures ok && length > 0 && Inv(cluster.master) && Coherent(cluster, old(cache), path) ==>
                path in cluster.master.tables.files && FlatRead(Contents(cluster), path, offset, |data|, data)
                && |data| == Available(cluster.master.tables.files[path].size, offset, length)
      ensures path != [] && length > 0 && Inv(cluster.master) && Coherent(cluster, old(cache), path) ==>
                (ok <==>
                  && path in cluster.master.tables.files && offset <= cluster.master.tables.files[path].size
                  && forall o: nat :: offset <= o < offset + length && o < cluster.master.tables.files[path].size ==>
                       At(Contents(cluster), path, o) != None)
    {
      hide Inv, Contents, At, Coherent, ReadPieces;
      if path == [] {
        return false, [];
      }
      if length == 0 {
        return true, [];
      }
      if path !in cluster.master.tables.files {
        return false, [];
      }
      var size := cluster.master.tables.files[path].size;
      if offset > size {
        return false, [];
      }
      if offset == size {
        NothingRead(Contents(cluster), path, offset);
        NothingToRead(cluster, cache, path, offset);
        return true, [];
      }
      var available := size - offset;
      ok, data := ReadSequential(path, offset, if available < length then available else length);
      ReadLength(cluster, old(cache), path, offset, Available(size, offset, length));
    }
  }

  function Joined(front: str, rest: Option<str>): Option<str> {
    if rest == None then None else Some(front + rest.value)
  }

  lemma JoinNothing(rest: Option<str>)
    ensures Joined([], rest) == rest
  {
    if rest != None {
      assert [] + rest.value == rest.value;
    }
  }

  lemma JoinMore(front: str, piece: str, rest: Option<str>)
    ensures Joined(front, Joined(piece, rest)) == Joined(front + piece, rest)
  {
    if rest != None {
      assert front + (piece + rest.value) == front + piece + rest.value;
    }
  }

  lemma NothingToRead(c: Cluster, cache: Cache, path: str, offset: u64)
    ensures ReadPieces(c, cache, path, offset, 0) == Some([])
  {}

  lemma ReadOneMore(c: Cluster, cache: Cache, path: str, offset: nat, length: nat)
    requires 0 < length && offset + length < U64
    ensures var n, at, h := Piece(offset, length), offset % CHUNK_SIZE, ReaderHandle(c, cache, path, offset / CHUNK_SIZE);
            ReadPieces(c, cache, path, offset, length) ==
            if h == None || |BytesOf(c.store, h.value)| < at + n then None
            else Joined(BytesOf(c.store, h.value)[at..at + n], ReadPieces(c, cache, path, offset + n, length - n))
  {
    hide ReaderHandle, BytesOf;
  }

  lemma OthersStay(before: Cache, after: Cache, path: str, index: u64)
    requires forall k :: k != (path, index) ==> (k in after <==> k in before) && (k in after ==> after[k] == before[k])
    ensures forall i: u64 :: i != index ==> CachedAt(after, path, i) == CachedAt(before, path, i)
  {}

  lemma SameHandle(c: Cluster, cache: Cache, known: Cache, path: str, index: u64)
    requires CachedAt(cache, path, index) == CachedAt(known, path, index)
    ensures ReaderHandle(c, cache, path, index) == ReaderHandle(c, known, path, index)
  {}

  lemma {:induction false} ReadLength(c: Cluster, cache: Cache, path: str, offset: nat, length: nat)
    requires offset + length < U64
    ensures ReadPieces(c, cache, path, offset, length) != None ==> |ReadPieces(c, cache, path, offset, length).value| == length
    decreases length
  {
    hide ReaderHandle, BytesOf;
    if length > 0 {
      var n := Piece(offset, length);
      ReadLength(c, cache, path, offset + n, length - n);
    }
  }

  lemma NothingWritten(c: Cluster, path: str, offset: nat, data: str)
    ensures PartlyWritten(Contents(c), Contents(c), path, offset, data)
  {
    SameIsFlat(Contents(c), path, offset, data);
  }

  /** The whole of WriteSequential as a flat write; recording the size changes no content. */
  lemma SequentialIsFlat(c: Cluster, cache: Cache, path: str, offset: nat, data: str, weather: u64 -> Weather, env: Env)
    requires offset + |data| < U64
    ensures var w := AfterSequential(WritePieces(c, cache, path, offset, data, weather), path, offset + |data|, env);
            ClusterInv(c) ==>
              && ClusterInv(w.cluster)
              && (if w.ok then FlatWrite(Contents(c), Contents(w.cluster), path, offset, data, |data|)
                  else PartlyWritten(Contents(c), Contents(w.cluster), path, offset, data))
  {
    hide ClusterInv, Contents, FlatWrite, WritePieces, Live, Ask;
    if ClusterInv(c) {
      var done := PiecesAreFlat(c, cache, path, offset, data, weather);
      var w, r := WritePieces(c, cache, path, offset, data, weather), UpdateFileSizeRequest(path, offset + |data|);
      if w.ok {
        AskKeepsInv(w.cluster, r, env);
        RequestContents(w.cluster, r, env);
        ResizeApplies(w.cluster, path, offset + |data|);
      }
    }
  }

  lemma ResizeApplies(c: Cluster, path: str, size: u64)
    ensures var r := UpdateFileSizeRequest(path, size); Applying(Contents(c), r, AddedBytes(c, r), RemovedAt(c.master, r)) == Contents(c)
  {
    hide Contents;
  }
}
