// Files that share chunks.

module Isolation {
  // The cluster is the master's durable state and one byte sequence per chunk handle; a file's
  // content is the list of its chunks' bytes.  Every run of requests and copy-on-write writes,
  // however stale the clients' location caches, does to the contents what it would do to private
  // copies.

  import opened Bytes
  import opened Paths
  import opened Namespace
  import opened ChunkTables
  import opened MasterState
  import opened Recovery
  import opened Sharing
  import opened ChunkBytes

  datatype Cluster = Cluster(master: Durable, store: map<Handle, str>)

  function BytesOf(store: map<Handle, str>, h: Handle): str {
    if h in store then store[h] else []
  }

  function BytesOfAll(store: map<Handle, str>, chunks: seq<Handle>): (r: seq<str>)
    ensures |r| == |chunks|
  {
    seq(|chunks|, i requires 0 <= i < |chunks| => BytesOf(store, chunks[i]))
  }

  type ChunkLists = map<str, seq<Handle>>
  type Files = map<str, seq<str>>

  /** The chunk list of every file. */
  function ListsOf(t: Tables): ChunkLists {
    map p | p in t.files :: t.files[p].chunks
  }

  function ContentsOf(lists: ChunkLists, store: map<Handle, str>): Files {
    map p | p in lists :: BytesOfAll(store, lists[p])
  }

  function Contents(c: Cluster): Files {
    ContentsOf(ListsOf(c.master.tables), c.store)
  }

  /** No bytes are stored at or above a handle. */
  ghost predicate NoneStoredFrom(store: map<Handle, str>, next: Handle) {
    forall h :: h in store && next <= h ==> store[h] == []
  }

  /** Besides the joint invariant: no bytes are stored under a handle that is still to be given out. */
  ghost predicate ClusterInv(c: Cluster) {
    && Inv(c.master)
    && (c.master.tables.next != 0 ==> NoneStoredFrom(c.store, c.master.tables.next))
  }

  // ----- requests -----

  /** The chunk that copy-on-write clones, if it gets that far, and the handle it is cloned to. */
  function Cloned(s: Durable, path: str, index: u64, env: Env): Option<(Handle, Handle)> {
    if Shared(s, path, index) && s.tables.next != 0 && Allocated(s, path, index).ok && env.registered && env.cloned
    then Some((Slot(s, path, index), s.tables.next)) else None
  }

  /** What a request does to the stored bytes: cloning adds a copy, collection deletes. */
  function StoreAfter(c: Cluster, r: Request, env: Env): map<Handle, str> {
    if r.CopyOnWriteRequest? then
      match Cloned(c.master, r.path, r.index, env)
      case None => c.store
      case Some(p) => c.store[p.1 := BytesOf(c.store, p.0)]
    else if r.CollectRequest? && RecordOf(c.master, r) != None && env.logging == Written && env.deleted then c.store - {r.handle}
    else c.store
  }

  function Ask(c: Cluster, r: Request, env: Env): Cluster {
    Cluster(Live(c.master, r, env).state, StoreAfter(c, r, env))
  }

  /** Whether the request took effect on the files. */
  predicate TookEffect(s: Durable, r: Request, env: Env) {
    if r.AllocateChunkRequest? then r.path in s.tables.files && s.tables.next != 0 && env.logging == Written
    else Live(s, r, env).ok
  }

  /** What a request that took effect does to a map from paths to anything, given the chunk it adds
      and the position of the one it removes. */
  function Applying<T>(files: map<str, seq<T>>, r: Request, chunk: T, at: nat): map<str, seq<T>> {
    match r
    case CreateFileRequest(path, _, _, _) => files[path := []]
    case DeleteFileRequest(path) => files - {path}
    case RenameFileRequest(source, destination) =>
      if source in files then (files - {source})[destination := files[source]] else files
    case AllocateChunkRequest(path) => if path in files then files[path := files[path] + [chunk]] else files
    case AddChunkToFileRequest(path, _) => if path in files then files[path := files[path] + [chunk]] else files
    case RemoveChunkFromFileRequest(path, _) =>
      if path in files && at < |files[path]| then files[path := Dropped(files[path], at)] else files
    case CreateSnapshotRequest(source, destination) => files + Placed(files, source, destination)
    case _ => files
  }

  function Dropped<T>(s: seq<T>, at: nat): seq<T>
    requires at < |s|
  {
    s[..at] + s[at + 1..]
  }

  /** The chunk that a request adds to a file: the next one, or the one it names. */
  function AddedHandle(s: Durable, r: Request): Handle {
    if r.AddChunkToFileRequest? then r.handle else s.tables.next
  }

  /** The bytes the file gains.  A new chunk is empty; a chunk that is named is what it is. */
  function AddedBytes(c: Cluster, r: Request): str {
    if r.AddChunkToFileRequest? then BytesOf(c.store, r.handle) else []
  }

  /** The position of the chunk that a request removes. */
  function RemovedAt(s: Durable, r: Request): nat {
    if r.RemoveChunkFromFileRequest? && r.path in s.tables.files then FirstIndex(s.tables.files[r.path].chunks, r.handle) else 0
  }

  function FirstIndex(chunks: seq<Handle>, h: Handle): (i: nat)
    ensures i <= |chunks|
  {
    if chunks == [] || chunks[0] == h then 0 else 1 + FirstIndex(chunks[1..], h)
  }

  lemma {:induction false} WithoutIsDropped(chunks: seq<Handle>, h: Handle)
    requires h in chunks
    ensures FirstIndex(chunks, h) < |chunks| && Without(chunks, h) == Dropped(chunks, FirstIndex(chunks, h))
    ensures chunks[FirstIndex(chunks, h)] == h
  {
    if chunks[0] != h {
      WithoutIsDropped(chunks[1..], h);
      var i := FirstIndex(chunks[1..], h);
      assert Dropped(chunks, 1 + i) == [chunks[0]] + Dropped(chunks[1..], i);
    }
  }

  // ----- what a request does to the chunk lists -----

  lemma ListsOfKeys(t: Tables)
    ensures ListsOf(t).Keys == t.files.Keys
    ensures forall p :: p in t.files ==> ListsOf(t)[p] == t.files[p].chunks
  {}

  lemma PlacedLists(t: Tables, source: str, destination: str)
    ensures ListsOf(t.(files := t.files + Placed(t.files, source, destination))) ==
            ListsOf(t) + Placed(ListsOf(t), source, destination)
  {
    hide Placed, Under, Relocate;
    var lists, files := ListsOf(t), Placed(t.files, source, destination);
    forall p
      ensures p in files <==> p in Placed(lists, source, destination)
      ensures p in files ==> Placed(lists, source, destination)[p] == files[p].chunks
    {
      if p in files {
        var q := PlacedFrom(t.files, source, destination, p);
        PlacedAt(lists, source, destination, q);
      } else if p in Placed(lists, source, destination) {
        var q := PlacedFrom(lists, source, destination, p);
        PlacedAt(t.files, source, destination, q);
        assert false;
      }
    }
    assert Placed(lists, source, destination).Keys == files.Keys;
  }

  lemma SnapshotLists(s: Durable, source: str, destination: str)
    requires source in s.ns && source != []
    ensures var a := ApplyCreateSnapshot(s, source, destination);
            ListsOf(a.state.tables) == if a.ok then ListsOf(s.tables) + Placed(ListsOf(s.tables), source, destination) else ListsOf(s.tables)
  {
    PlacedLists(s.tables, source, destination);
    hide ListsOf, Placed, CanCreate;
  }

  lemma RenameLists(s: Durable, source: str, destination: str)
    ensures var a := ApplyRenameFile(s, source, destination);
            ListsOf(a.state.tables) ==
            if a.ok then (ListsOf(s.tables) - {source})[destination := s.tables.files[source].chunks] else ListsOf(s.tables)
  {
    hide CanRename, Renamed;
  }

  lemma DeleteLists(s: Durable, path: str)
    requires Inv(s) && IsFile(s.ns, path)
    ensures ApplyDeleteFile(s, path).ok && ListsOf(ApplyDeleteFile(s, path).state.tables) == ListsOf(s.tables) - {path}
  {
    hide WellFormed, Consistent;
  }

  lemma CreateLists(s: Durable, path: str, factor: u32)
    ensures var a := ApplyCreateFile(s, path, factor);
            ListsOf(a.state.tables) == if a.ok then ListsOf(s.tables)[path := []] else ListsOf(s.tables)
  {
    hide CanCreate;
  }

  lemma AllocateLists(s: Durable, path: str)
    requires Inv(s) && path in s.tables.files && s.tables.next != 0
    ensures ListsOf(AllocateChunk(s.tables, path, s.tables.next, 1, 0).state) ==
            ListsOf(s.tables)[path := s.tables.files[path].chunks + [s.tables.next]]
  {
    hide WellFormed;
    assert ConsistentFile(s.tables, path);
  }

  lemma CollectLists(s: Durable, h: Handle)
    requires References(s.tables, h) == 0 && h != 0
    ensures ListsOf(DeleteChunk(s.tables, h).state) == ListsOf(s.tables)
  {
    if h in s.tables.chunks {
      forall p | p in s.tables.files
        ensures Without(s.tables.files[p].chunks, h) == s.tables.files[p].chunks
      {
        assert p !in Holders(s.tables.files, h);
        WithoutMeans(s.tables.files[p].chunks, h);
      }
    }
  }

  lemma AppliedLists(s: Durable, r: Request, env: Env, op: Op)
    requires Inv(s) && !r.CopyOnWriteRequest? && RecordOf(s, r) == Some(op) && env.logging == Written
    ensures ListsOf(Live(s, r, env).state.tables) ==
            if TookEffect(s, r, env) then Applying(ListsOf(s.tables), r, AddedHandle(s, r), RemovedAt(s, r)) else ListsOf(s.tables)
  {
    hide Inv, Live, ListsOf, ApplyCreateFile, ApplyDeleteFile, ApplyRenameFile, ApplyCreateSnapshot, ApplyCreateDirectory,
      AllocateChunk, UpdateFileSize, SetChunkVersion, SetChunkSize, DeleteChunk, AddChunkToFile, RemoveChunkFromFile, References,
      Placed, FirstIndex, Dropped;
    Applied(s, r, op, env);
    ListsOfKeys(s.tables);
    match r {
      case CreateDirectoryRequest(path) => DirectoryLists(s, path);
      case CreateFileRequest(path, requested, live, default) => CreateLists(s, path, op.factor);
      case DeleteFileRequest(path) => DeleteLists(s, path);
      case RenameFileRequest(source, destination) =>
        RenameLists(s, source, destination);
        RenamedFileListed(s, source, destination);
      case AllocateChunkRequest(path) => AllocateLists(s, path);
      case UpdateFileSizeRequest(path, size) => ResizeLists(s, path, size);
      case SetChunkVersionRequest(h, version) => ChunkOpLists(s, h, version, 0);
      case SetChunkSizeRequest(h, size) => ChunkOpLists(s, h, 0, size);
      case AddChunkToFileRequest(path, h) => AddLists(s, path, h);
      case RemoveChunkFromFileRequest(path, h) => RemoveLists(s, path, h);
      case CollectRequest(h) => CollectLists(s, h);
      case CreateSnapshotRequest(source, destination) => SnapshotLists(s, source, destination);
    }
  }

  lemma DirectoryLists(s: Durable, path: str)
    ensures ListsOf(ApplyCreateDirectory(s, path).state.tables) == ListsOf(s.tables)
  {
    hide CanCreate;
  }

  lemma RenamedFileListed(s: Durable, source: str, destination: str)
    ensures ApplyRenameFile(s, source, destination).ok ==> source in s.tables.files
  {
    hide CanRename, Renamed;
  }

  lemma AddLists(s: Durable, path: str, h: Handle)
    ensures var a := AddChunkToFile(s.tables, path, h);
            ListsOf(a.state) ==
            if a.ok then ListsOf(s.tables)[path := ListsOf(s.tables)[path] + [h]] else ListsOf(s.tables)
    ensures AddChunkToFile(s.tables, path, h).ok ==> path in s.tables.files
  {}

  lemma RemoveLists(s: Durable, path: str, h: Handle)
    ensures var a := RemoveChunkFromFile(s.tables, path, h);
            && (a.ok ==> path in s.tables.files && FirstIndex(s.tables.files[path].chunks, h) < |s.tables.files[path].chunks|)
            && ListsOf(a.state) ==
               if a.ok then ListsOf(s.tables)[path := Dropped(ListsOf(s.tables)[path], FirstIndex(s.tables.files[path].chunks, h))]
               else ListsOf(s.tables)
  {
    if path in s.tables.files && h in s.tables.files[path].chunks {
      WithoutIsDropped(s.tables.files[path].chunks, h);
      hide FirstIndex;
    }
  }

  lemma ResizeLists(s: Durable, path: str, size: u64)
    ensures ListsOf(UpdateFileSize(s.tables, path, size).state) == ListsOf(s.tables)
  {}

  lemma ChunkOpLists(s: Durable, h: Handle, version: u64, size: u64)
    ensures ListsOf(SetChunkVersion(s.tables, h, version).state) == ListsOf(s.tables)
    ensures ListsOf(SetChunkSize(s.tables, h, size).state) == ListsOf(s.tables)
  {}

  lemma IdleLists(s: Durable, r: Request, env: Env)
    requires !r.CopyOnWriteRequest? && (RecordOf(s, r) == None || env.logging != Written)
    ensures Live(s, r, env).state == s
    ensures TookEffect(s, r, env) ==> Applying(ListsOf(s.tables), r, AddedHandle(s, r), RemovedAt(s, r)) == ListsOf(s.tables)
  {
    hide ListsOf;
    if r.CollectRequest? {
    } else if RecordOf(s, r) == None {
      Refused(s, r, env);
    } else {
      Unlogged(s, r, RecordOf(s, r).value, env);
    }
  }

  /** Every request changes the chunk lists as it would change private files. */
  lemma RequestLists(s: Durable, r: Request, env: Env)
    requires Inv(s) && !r.CopyOnWriteRequest?
    ensures ListsOf(Live(s, r, env).state.tables) ==
            if TookEffect(s, r, env) then Applying(ListsOf(s.tables), r, AddedHandle(s, r), RemovedAt(s, r)) else ListsOf(s.tables)
  {
    hide Inv, Live, ListsOf, RecordOf, TookEffect, Applying;
    if RecordOf(s, r) == None || env.logging != Written {
      IdleLists(s, r, env);
    } else {
      AppliedLists(s, r, env, RecordOf(s, r).value);
    }
  }

  // ----- from chunk lists to contents -----

  lemma GrownContents(lists: ChunkLists, store: map<Handle, str>, path: str, h: Handle)
    requires path in lists
    ensures ContentsOf(lists[path := lists[path] + [h]], store) ==
            ContentsOf(lists, store)[path := ContentsOf(lists, store)[path] + [BytesOf(store, h)]]
  {
    assert BytesOfAll(store, lists[path] + [h]) == BytesOfAll(store, lists[path]) + [BytesOf(store, h)];
    hide BytesOfAll;
  }

  lemma DroppedContents(lists: ChunkLists, store: map<Handle, str>, path: str, at: nat)
    requires path in lists && at < |lists[path]|
    ensures ContentsOf(lists[path := Dropped(lists[path], at)], store) ==
            ContentsOf(lists, store)[path := Dropped(ContentsOf(lists, store)[path], at)]
  {
    assert BytesOfAll(store, Dropped(lists[path], at)) == Dropped(BytesOfAll(store, lists[path]), at);
    hide BytesOfAll, Dropped;
  }

  /** Contents after a request, seen through the store. */
  lemma ApplyingContents(lists: ChunkLists, store: map<Handle, str>, r: Request, h: Handle, at: nat)
    ensures ContentsOf(Applying(lists, r, h, at), store) == Applying(ContentsOf(lists, store), r, BytesOf(store, h), at)
  {
    hide BytesOf, BytesOfAll, Placed, Dropped;
    match r {
      case AllocateChunkRequest(path) =>
        if path in lists {
          GrownContents(lists, store, path, h);
        }
      case AddChunkToFileRequest(path, _) =>
        if path in lists {
          GrownContents(lists, store, path, h);
        }
      case RemoveChunkFromFileRequest(path, _) =>
        if path in lists && at < |lists[path]| {
          DroppedContents(lists, store, path, at);
        }
      case CreateSnapshotRequest(source, destination) =>
        PlacedContents(lists, store, source, destination);
      case CreateFileRequest(path, _, _, _) =>
        assert BytesOfAll(store, []) == [];
      case _ =>
    }
  }

  lemma PlacedContents(lists: ChunkLists, store: map<Handle, str>, source: str, destination: str)
    ensures ContentsOf(lists + Placed(lists, source, destination), store) ==
            ContentsOf(lists, store) + Placed(ContentsOf(lists, store), source, destination)
  {
    hide Placed, Under, Relocate, BytesOfAll;
    var contents, placed := ContentsOf(lists, store), Placed(lists, source, destination);
    forall p
      ensures p in placed <==> p in Placed(contents, source, destination)
      ensures p in placed ==> Placed(contents, source, destination)[p] == BytesOfAll(store, placed[p])
    {
      if p in placed {
        var q := PlacedFrom(lists, source, destination, p);
        PlacedAt(contents, source, destination, q);
      } else if p in Placed(contents, source, destination) {
        var q := PlacedFrom(contents, source, destination, p);
        PlacedAt(lists, source, destination, q);
        assert false;
      }
    }
    assert Placed(contents, source, destination).Keys == placed.Keys;
  }

  /** Contents do not depend on the bytes of chunks that no file lists. */
  lemma UnlistedStore(lists: ChunkLists, store: map<Handle, str>, store': map<Handle, str>)
    requires forall p, h :: p in lists && h in lists[p] ==> BytesOf(store', h) == BytesOf(store, h)
    ensures ContentsOf(lists, store') == ContentsOf(lists, store)
  {
    forall p | p in lists
      ensures BytesOfAll(store', lists[p]) == BytesOfAll(store, lists[p])
    {
      forall i | 0 <= i < |lists[p]|
        ensures BytesOf(store', lists[p][i]) == BytesOf(store, lists[p][i])
      {
        assert lists[p][i] in lists[p];
      }
    }
  }

  lemma ListedIsLive(c: Cluster, p: str, h: Handle)
    requires Inv(c.master) && p in ListsOf(c.master.tables) && h in ListsOf(c.master.tables)[p]
    ensures h in c.master.tables.chunks && References(c.master.tables, h) > 0
    ensures c.master.tables.next != 0 ==> h < c.master.tables.next
  {
    hide WellFormed;
    var t := c.master.tables;
    assert ConsistentFile(t, p);
    assert p in Holders(t.files, h);
    if Holders(t.files, h) == {} {
      assert false;
    }
  }

  /** Collection deletes only what no file lists; other requests leave the store alone. */
  lemma RequestStore(c: Cluster, r: Request, env: Env)
    requires ClusterInv(c) && !r.CopyOnWriteRequest?
    ensures StoreAfter(c, r, env).Keys <= c.store.Keys
    ensures forall p, h :: p in ListsOf(c.master.tables) && h in ListsOf(c.master.tables)[p] ==>
              BytesOf(StoreAfter(c, r, env), h) == BytesOf(c.store, h)
  {
    forall p, h | p in ListsOf(c.master.tables) && h in ListsOf(c.master.tables)[p]
      ensures References(c.master.tables, h) > 0
    {
      ListedIsLive(c, p, h);
    }
    hide Inv, ListsOf, References;
  }

  /** The added chunk holds what it should, unless nothing is added. */
  lemma AddedHasItsBytes(c: Cluster, r: Request, env: Env)
    requires ClusterInv(c) && !r.CopyOnWriteRequest? && TookEffect(c.master, r, env)
    requires r.AllocateChunkRequest? || r.AddChunkToFileRequest?
    ensures BytesOf(StoreAfter(c, r, env), AddedHandle(c.master, r)) == AddedBytes(c, r)
  {
    hide Inv, Live;
  }

  lemma OnlyAddersAdd<T>(files: map<str, seq<T>>, r: Request, x: T, y: T, at: nat)
    requires !r.AllocateChunkRequest? && !r.AddChunkToFileRequest?
    ensures Applying(files, r, x, at) == Applying(files, r, y, at)
  {}

  /** A request other than copy-on-write: contents change as those of private files. */
  lemma RequestContents(c: Cluster, r: Request, env: Env)
    requires ClusterInv(c) && !r.CopyOnWriteRequest?
    ensures Contents(Ask(c, r, env)) ==
            if TookEffect(c.master, r, env) then Applying(Contents(c), r, AddedBytes(c, r), RemovedAt(c.master, r)) else Contents(c)
  {
    var s, lists, store := c.master, ListsOf(c.master.tables), StoreAfter(c, r, env);
    var h, at := AddedHandle(s, r), RemovedAt(s, r);
    RequestLists(s, r, env);
    RequestStore(c, r, env);
    if TookEffect(s, r, env) {
      if r.AllocateChunkRequest? || r.AddChunkToFileRequest? {
        AddedHasItsBytes(c, r, env);
      } else {
        OnlyAddersAdd(Contents(c), r, BytesOf(store, h), AddedBytes(c, r), at);
      }
    }
    hide Inv, Live, ListsOf, StoreAfter, TookEffect, Applying, BytesOf, ContentsOf, AddedHandle, AddedBytes, RemovedAt;
    UnlistedStore(lists, c.store, store);
    if TookEffect(s, r, env) {
      ApplyingContents(lists, store, r, h, at);
    }
  }

  // ----- copy-on-write moves a slot to a copy, and nobody can tell -----

  function Put(chunks: seq<Handle>, index: nat, h: Handle): seq<Handle>
    requires index < |chunks|
  {
    chunks[index := h]
  }

  lemma SlotMoved(lists: ChunkLists, store: map<Handle, str>, path: str, index: nat, h: Handle)
    requires path in lists && index < |lists[path]|
    requires forall p :: p in lists ==> h !in lists[p]
    ensures ContentsOf(lists[path := Put(lists[path], index, h)], store[h := BytesOf(store, lists[path][index])]) == ContentsOf(lists, store)
  {
    var after, store' := lists[path := Put(lists[path], index, h)], store[h := BytesOf(store, lists[path][index])];
    forall p | p in lists
      ensures BytesOfAll(store', after[p]) == BytesOfAll(store, lists[p])
    {
      forall i | 0 <= i < |lists[p]|
        ensures BytesOf(store', after[p][i]) == BytesOf(store, lists[p][i])
      {
        assert lists[p][i] in lists[p];
      }
    }
  }

  lemma ClonedWhenGranted(s: Durable, path: str, index: u64, env: Env)
    requires Inv(s)
    ensures var o := CopyOnWrite(s, path, index, env);
            && (o.ok && References(s.tables, Slot(s, path, index)) > 1 ==>
                  Cloned(s, path, index, env) == Some((Slot(s, path, index), s.tables.next)))
            && (Cloned(s, path, index, env) != None ==> s.tables.next != 0 && Cloned(s, path, index, env).value.1 == s.tables.next)
            && (o.ok ==> HasSlot(s, path, index))
            && (o.ok && References(s.tables, Slot(s, path, index)) <= 1 ==> Cloned(s, path, index, env) == None)
  {
    CopyOnWriteAllOrNothing(s, path, index, env);
    if Grants(s, path, index, env) && References(s.tables, Slot(s, path, index)) > 1 {
      SlotOfInv(s, path, index);
      NextIsFresh(s);
      var c := s.tables.chunks[Slot(s, path, index)];
      Exhausted(s.tables, s.tables.next, c.version, c.size);
    }
    hide Inv, References, AllocateStandalone, CopyOnWrite;
  }

  lemma FreshUnlisted(c: Cluster)
    requires Inv(c.master) && c.master.tables.next != 0
    ensures forall p :: p in ListsOf(c.master.tables) ==> c.master.tables.next !in ListsOf(c.master.tables)[p]
  {
    NextIsFresh(c.master);
    FreshIsUnlisted(c.master, c.master.tables.next);
    hide Inv;
  }

  lemma ListsDepend(t: Tables, u: Tables)
    requires t.files == u.files
    ensures ListsOf(t) == ListsOf(u)
  {}

  lemma ListsOfUpdate(t: Tables, u: Tables, path: str, f: FileMeta)
    requires path in t.files && u.files == t.files[path := f]
    ensures ListsOf(u) == ListsOf(t)[path := f.chunks]
  {}

  lemma CopyOnWriteLists(s: Durable, path: str, index: u64, env: Env)
    requires Inv(s)
    ensures var o, lists := CopyOnWrite(s, path, index, env), ListsOf(s.tables);
            ListsOf(o.state.tables) ==
            if o.ok && References(s.tables, Slot(s, path, index)) > 1
            then lists[path := Put(lists[path], index, s.tables.next)] else lists
    ensures CopyOnWrite(s, path, index, env).ok ==>
              HasSlot(s, path, index) && path in ListsOf(s.tables) && Slot(s, path, index) == ListsOf(s.tables)[path][index]
  {
    CopyOnWriteAllOrNothing(s, path, index, env);
    ListsOfKeys(s.tables);
    hide Inv, References, CopyOnWrite, ListsOf;
    var t, u := s.tables, CopyOnWrite(s, path, index, env).state.tables;
    if CopyOnWrite(s, path, index, env).ok && References(t, Slot(s, path, index)) > 1 {
      ListsOfUpdate(t, u, path, t.files[path].(chunks := t.files[path].chunks[index := t.next]));
    } else {
      ListsDepend(t, u);
    }
  }

  /** Copy-on-write changes no content, whether it succeeds or fails. */
  lemma CopyOnWriteContents(c: Cluster, path: str, index: u64, env: Env)
    requires ClusterInv(c)
    ensures Contents(Ask(c, CopyOnWriteRequest(path, index), env)) == Contents(c)
  {
    var s, r := c.master, CopyOnWriteRequest(path, index);
    var t, lists, store := s.tables, ListsOf(s.tables), StoreAfter(c, r, env);
    LiveCopyOnWrite(s, path, index);
    CopyOnWriteLists(s, path, index, env);
    ClonedWhenGranted(s, path, index, env);
    if t.next != 0 {
      FreshUnlisted(c);
    }
    hide Inv, CopyOnWrite, Cloned, ListsOf, References, ContentsOf, Live;
    if CopyOnWrite(s, path, index, env).ok && References(t, Slot(s, path, index)) > 1 {
      SlotMoved(lists, c.store, path, index, t.next);
    } else {
      UnlistedStore(lists, c.store, store);
    }
  }

  // ----- the invariant is kept -----

  lemma CounterGrows(s: Durable, r: Request, env: Env)
    ensures var next := Live(s, r, env).state.tables.next;
            && (s.tables.next == 0 ==> next == 0)
            && (next == 0 || s.tables.next <= next)
            && (r.CopyOnWriteRequest? && Cloned(s, r.path, r.index, env) != None ==> next == 0 || s.tables.next < next)
  {
    if r.CopyOnWriteRequest? {
      CopyOnWriteCounter(s, r.path, r.index, env);
      LiveCopyOnWrite(s, r.path, r.index);
      hide CopyOnWrite, Cloned, Live;
    } else if RecordOf(s, r) == None || env.logging != Written {
      IdleLists(s, r, env);
    } else {
      var op := RecordOf(s, r).value;
      Applied(s, r, op, env);
      hide Live;
      AppliedCounter(s, r, op, env);
    }
  }

  lemma AppliedCounter(s: Durable, r: Request, op: Op, env: Env)
    requires RecordOf(s, r) == Some(op)
    ensures var next := Apply(s, op, env).state.tables.next;
            (s.tables.next == 0 ==> next == 0) && (next == 0 || s.tables.next <= next)
  {
    hide CanCreate, CanRename, Renamed, Placed, References;
  }

  lemma CopyOnWriteCounter(s: Durable, path: str, index: u64, env: Env)
    ensures var next := CopyOnWrite(s, path, index, env).state.tables.next;
            && (s.tables.next == 0 ==> next == 0)
            && (next == 0 || s.tables.next <= next)
            && (Cloned(s, path, index, env) != None ==> next == 0 || s.tables.next < next)
  {
    hide References, Holders;
  }

  lemma AskKeepsInv(c: Cluster, r: Request, env: Env)
    requires ClusterInv(c)
    ensures ClusterInv(Ask(c, r, env))
  {
    LiveKeepsInv(c.master, r, env);
    CounterGrows(c.master, r, env);
    hide Inv, Live, RecordOf, AllocateStandalone;
  }

  // ----- writing -----

  /** Writing bytes to a chunk, with no questions asked. */
  function RawWrite(c: Cluster, h: Handle, offset: nat, data: str): Cluster {
    c.(store := c.store[h := Overlay(BytesOf(c.store, h), offset, data)])
  }

  /** A raw write changes every file that lists the chunk, and no other. */
  lemma RawWriteChanges(c: Cluster, h: Handle, offset: nat, data: str, p: str)
    requires p in Contents(c)
    ensures p in Contents(RawWrite(c, h, offset, data))
    ensures var before, after := BytesOf(c.store, h), Overlay(BytesOf(c.store, h), offset, data);
            Contents(RawWrite(c, h, offset, data))[p] == Contents(c)[p] <==> h !in ListsOf(c.master.tables)[p] || after == before
  {
    var lists, c' := ListsOf(c.master.tables), RawWrite(c, h, offset, data);
    var after := Overlay(BytesOf(c.store, h), offset, data);
    hide ListsOf, Overlay;
    var a, b := BytesOfAll(c.store, lists[p]), BytesOfAll(c'.store, lists[p]);
    if h in lists[p] {
      var i :| 0 <= i < |lists[p]| && lists[p][i] == h;
      assert a[i] == BytesOf(c.store, h) && b[i] == after;
      if after == BytesOf(c.store, h) {
        assert a == b;
      }
    } else {
      forall i | 0 <= i < |lists[p]|
        ensures a[i] == b[i]
      {
        assert lists[p][i] in lists[p];
      }
      assert a == b;
    }
  }

  /** A raw write leaves every other file alone, whatever is written, exactly if the chunk has no
      other holder. */
  lemma RawWriteIsolatedIff(c: Cluster, h: Handle, path: str)
    requires h in c.master.tables.chunks && h != 0 && path in Holders(c.master.tables.files, h)
    ensures (forall offset, data, q :: q != path && q in Contents(c) ==>
               q in Contents(RawWrite(c, h, offset, data)) && Contents(RawWrite(c, h, offset, data))[q] == Contents(c)[q])
       <==> References(c.master.tables, h) == 1
  {
    var files := c.master.tables.files;
    SoleHolder(c.master.tables, path, h);
    if Holders(files, h) == {path} {
      forall offset, data, q | q != path && q in Contents(c)
        ensures q in Contents(RawWrite(c, h, offset, data)) && Contents(RawWrite(c, h, offset, data))[q] == Contents(c)[q]
      {
        assert q !in Holders(files, h);
        RawWriteChanges(c, h, offset, data, q);
      }
    } else {
      var q :| q in Holders(files, h) && q != path;
      var data := BytesOf(c.store, h) + [0];
      assert q in Contents(c);
      RawWriteChanges(c, h, 0, data, q);
      assert |Overlay(BytesOf(c.store, h), 0, data)| > |BytesOf(c.store, h)|;
    }
  }

  /** How the surroundings behave during one chunk write: the log and the servers while a chunk is
      grew and while it is made private, whether replicas are known, and whether one answers. */
  datatype Weather = Weather(allocating: Env, copying: Env, located: bool, responsive: bool)

  datatype Resolved = Resolved(cluster: Cluster, handle: Option<Handle>, grew: bool)

  /** A cached handle is used as it is, however old; otherwise the master is asked, and a chunk is
      allocated if the index is the next one of the file. */
  function Resolve(c: Cluster, path: str, index: u64, cached: Option<Handle>, w: Weather): Resolved {
    var t := c.master.tables;
    if cached != None then Resolved(c, cached, false)
    else if path == [] || path !in t.files || |t.files[path].chunks| < index then Resolved(c, None, false)
    else if index < |t.files[path].chunks| then
      Resolved(c, if w.located && t.files[path].chunks[index] != 0 then Some(t.files[path].chunks[index]) else None, false)
    else
      var r := AllocateChunkRequest(path);
      Resolved(Ask(c, r, w.allocating),
               if Live(c.master, r, w.allocating).ok && w.located then Some(t.next) else None,
               TookEffect(c.master, r, w.allocating))
  }

  datatype Attempt = Attempt(cluster: Cluster, ok: bool, grew: bool, handle: Handle)

  /** A write to one chunk with the copy-on-write hook set: resolve, have the slot made private,
      forget the cached handle, resolve again, write. */
  function WriteChunk(c: Cluster, path: str, index: u64, offset: nat, data: str, cached: Option<Handle>, w: Weather): Attempt {
    var first := Resolve(c, path, index, cached, w);
    if first.handle == None then Attempt(first.cluster, false, first.grew, 0)
    else
      var r := CopyOnWriteRequest(path, index);
      var c' := Ask(first.cluster, r, w.copying);
      if !Live(first.cluster.master, r, w.copying).ok then Attempt(c', false, first.grew, 0)
      else
        var second := Resolve(c', path, index, None, w);
        if second.handle == None || !w.responsive then Attempt(second.cluster, false, first.grew, 0)
        else Attempt(RawWrite(second.cluster, second.handle.value, offset, data), true, first.grew, second.handle.value)
  }

  /** After copy-on-write was granted, the slot exists and holds a chunk with one reference. */
  lemma GrantedSlot(s: Durable, path: str, index: u64, env: Env)
    requires Inv(s) && CopyOnWrite(s, path, index, env).ok
    ensures var u := CopyOnWrite(s, path, index, env).state.tables;
            && path != [] && path in u.files && index < |u.files[path].chunks|
            && u.files[path].chunks[index] != 0 && u.files[path].chunks[index] in u.chunks
            && References(u, u.files[path].chunks[index]) == 1
  {
    CopyOnWriteAllOrNothing(s, path, index, env);
    SlotOfInv(s, path, index);
    hide Inv, CopyOnWrite;
    var u := CopyOnWrite(s, path, index, env).state.tables;
    if References(s.tables, Slot(s, path, index)) <= 1 {
      assert Holders(u.files, Slot(s, path, index)) == Holders(s.tables.files, Slot(s, path, index));
    }
  }

  /** The effect on private files of a write to one chunk. */
  function Writing(files: Files, path: str, index: nat, offset: nat, data: str, grew: bool, written: bool): Files {
    var grown := if grew && path in files then files[path := files[path] + [[]]] else files;
    if written && path in grown && index < |grown[path]|
    then grown[path := grown[path][index := Overlay(grown[path][index], offset, data)]] else grown
  }

  lemma ResolveIs(c: Cluster, path: str, index: u64, cached: Option<Handle>, w: Weather)
    ensures var r, ask := Resolve(c, path, index, cached, w), AllocateChunkRequest(path);
            || (r.cluster == c && !r.grew)
            || (r.cluster == Ask(c, ask, w.allocating) && r.grew == TookEffect(c.master, ask, w.allocating))
  {
    hide Ask, TookEffect, Live;
  }

  lemma WritingIs(files: Files, path: str, index: nat)
    ensures Writing(files, path, index, 0, [], false, false) == files
    ensures Writing(files, path, index, 0, [], true, false) == Applying(files, AllocateChunkRequest(path), [], 0)
  {}

  lemma ResolveContents(c: Cluster, path: str, index: u64, cached: Option<Handle>, w: Weather)
    requires ClusterInv(c)
    ensures var r := Resolve(c, path, index, cached, w);
            && ClusterInv(r.cluster)
            && Contents(r.cluster) == Writing(Contents(c), path, index, 0, [], r.grew, false)
  {
    hide *;
    var r := AllocateChunkRequest(path);
    ResolveIs(c, path, index, cached, w);
    WritingIs(Contents(c), path, index);
    AskKeepsInv(c, r, w.allocating);
    AllocationAddsNothing(c, path);
    RequestContents(c, r, w.allocating);
  }

  lemma AllocationAddsNothing(c: Cluster, path: str)
    ensures AddedBytes(c, AllocateChunkRequest(path)) == [] && RemovedAt(c.master, AllocateChunkRequest(path)) == 0
  {}

  lemma WroteSlot(store: map<Handle, str>, chunks: seq<Handle>, index: nat, bytes: str)
    requires index < |chunks| && NoDuplicates(chunks)
    ensures BytesOfAll(store[chunks[index] := bytes], chunks) == BytesOfAll(store, chunks)[index := bytes]
  {}

  /** A raw write to a chunk that one slot of one file holds is a write to that slot. */
  lemma SoleWrite(c: Cluster, path: str, index: u64, offset: nat, data: str)
    requires Inv(c.master) && path in c.master.tables.files && index < |c.master.tables.files[path].chunks|
    requires References(c.master.tables, c.master.tables.files[path].chunks[index]) == 1
    ensures var h := c.master.tables.files[path].chunks[index];
            Contents(RawWrite(c, h, offset, data)) == Writing(Contents(c), path, index, offset, data, false, true)
  {
    var t := c.master.tables;
    var h := t.files[path].chunks[index];
    OnlyThisFile(c.master, path, h);
    ListsOfKeys(t);
    hide Inv, Overlay, References, ListsOf, BytesOfAll;
    WroteSlot(c.store, t.files[path].chunks, index, Overlay(BytesOf(c.store, h), offset, data));
    var c' := RawWrite(c, h, offset, data);
    forall p | p in ListsOf(t) && p != path
      ensures Contents(c')[p] == Contents(c)[p]
    {
      RawWriteChanges(c, h, offset, data, p);
    }
    SlotBytes(c.store, t.files[path].chunks, index);
  }

  lemma SlotBytes(store: map<Handle, str>, chunks: seq<Handle>, index: nat)
    requires index < |chunks|
    ensures BytesOfAll(store, chunks)[index] == BytesOf(store, chunks[index])
  {}

  lemma OnlyThisFile(s: Durable, path: str, h: Handle)
    requires Inv(s) && path in s.tables.files && h in s.tables.files[path].chunks && References(s.tables, h) == 1
    ensures NoDuplicates(s.tables.files[path].chunks)
    ensures forall p :: p in s.tables.files && p != path ==> h !in s.tables.files[p].chunks
  {
    hide WellFormed;
    assert ConsistentFile(s.tables, path);
    SoleHolder(s.tables, path, h);
    forall p | p in s.tables.files && p != path
      ensures h !in s.tables.files[p].chunks
    {
      assert p !in Holders(s.tables.files, h);
    }
  }

  /** A write lands, if it succeeds, on the chunk that the master lists at that moment, which no
      other slot refers to; contents change as those of private files do.  The handle that the
      client had cached plays no part. */
  lemma WriteContents(c: Cluster, path: str, index: u64, offset: nat, data: str, cached: Option<Handle>, w: Weather)
    requires ClusterInv(c)
    ensures var a := WriteChunk(c, path, index, offset, data, cached, w);
            && ClusterInv(a.cluster)
            && Contents(a.cluster) == Writing(Contents(c), path, index, offset, data, a.grew, a.ok)
            && (a.ok ==>
                  var t := a.cluster.master.tables;
                  && path in t.files && index < |t.files[path].chunks|
                  && a.handle == t.files[path].chunks[index] && References(t, a.handle) == 1)
  {
    ResolveContents(c, path, index, cached, w);
    var first := Resolve(c, path, index, cached, w);
    if first.handle != None {
      var r := CopyOnWriteRequest(path, index);
      var c' := Ask(first.cluster, r, w.copying);
      AskKeepsInv(first.cluster, r, w.copying);
      CopyOnWriteContents(first.cluster, path, index, w.copying);
      LiveCopyOnWrite(first.cluster.master, path, index);
      if Live(first.cluster.master, r, w.copying).ok {
        hide Live, CopyOnWrite, Contents, RawWrite, Overlay, References;
        GrantedSlot(first.cluster.master, path, index, w.copying);
        SoleWrite(c', path, index, offset, data);
        var second := Resolve(c', path, index, None, w);
        assert second.cluster == c';
        if second.handle != None && w.responsive {
          StoreKeepsInv(c', second.handle.value, offset, data);
        }
      }
    }
  }

  lemma StoreKeepsInv(c: Cluster, h: Handle, offset: nat, data: str)
    requires ClusterInv(c) && h in c.master.tables.chunks
    ensures ClusterInv(RawWrite(c, h, offset, data))
  {
    hide WellFormed;
  }

  // ----- whole runs -----

  datatype Action =
    | Requested(request: Request, env: Env)
    | ChunkWrite(path: str, index: u64, offset: nat, data: str, cached: Option<Handle>, weather: Weather)
    | Restarted(master: Durable)

  /** What of an action took effect, the bytes that came into a file with a named chunk, and the
      position of a removed one. */
  datatype Effect = Effect(grew: bool, done: bool, added: str, removed: nat)

  /** A restart gives back the persisted state, with a counter at or above which no bytes are stored. */
  ghost predicate Possible(c: Cluster, a: Action) {
    a.Restarted? ==>
      && Same(c.master, a.master) && Recovering(a.master)
      && NoneStoredFrom(c.store, a.master.tables.next)
  }

  function Act(c: Cluster, a: Action): (Cluster, Effect) {
    match a
    case Requested(r, env) =>
      (Ask(c, r, env), Effect(false, TookEffect(c.master, r, env), AddedBytes(c, r), RemovedAt(c.master, r)))
    case ChunkWrite(path, index, offset, data, cached, w) =>
      var t := WriteChunk(c, path, index, offset, data, cached, w);
      (t.cluster, Effect(t.grew, t.ok, [], 0))
    case Restarted(master) => (c.(master := master), Effect(false, true, [], 0))
  }

  /** The same action on files that share nothing. */
  function ActPrivately(files: Files, a: Action, e: Effect): Files {
    match a
    case Requested(r, _) =>
      if e.done then Applying(files, r, if r.AddChunkToFileRequest? then e.added else [], e.removed) else files
    case ChunkWrite(path, index, offset, data, _, _) => Writing(files, path, index, offset, data, e.grew, e.done)
    case Restarted(_) => files
  }

  lemma SameContents(c: Cluster, t: Durable)
    requires Same(c.master, t)
    ensures Contents(c.(master := t)) == Contents(c)
    ensures Recovering(t) ==> (ClusterInv(c.(master := t)) <==> NoneStoredFrom(c.store, t.tables.next))
  {
    hide Inv;
  }

  lemma ActIsPrivate(c: Cluster, a: Action)
    requires ClusterInv(c) && Possible(c, a)
    ensures ClusterInv(Act(c, a).0)
    ensures Contents(Act(c, a).0) == ActPrivately(Contents(c), a, Act(c, a).1)
  {
    hide ClusterInv, Contents, WriteChunk, Live, TookEffect, Same, Recovering, RemovedAt;
    match a {
      case Requested(r, env) =>
        AskKeepsInv(c, r, env);
        if r.CopyOnWriteRequest? {
          CopyOnWriteContents(c, r.path, r.index, env);
        } else {
          RequestContents(c, r, env);
        }
      case ChunkWrite(path, index, offset, data, cached, w) =>
        WriteContents(c, path, index, offset, data, cached, w);
      case Restarted(master) =>
        SameContents(c, master);
    }
  }

  function ActAll(c: Cluster, actions: seq<Action>): (r: (Cluster, seq<Effect>))
    ensures |r.1| == |actions|
    decreases |actions|
  {
    if actions == [] then (c, [])
    else
      var (c', e) := Act(c, actions[0]);
      var (c'', es) := ActAll(c', actions[1..]);
      (c'', [e] + es)
  }

  ghost predicate PossibleRun(c: Cluster, actions: seq<Action>)
    decreases |actions|
  {
    actions == [] || (Possible(c, actions[0]) && PossibleRun(Act(c, actions[0]).0, actions[1..]))
  }

  function ActAllPrivately(files: Files, actions: seq<Action>, effects: seq<Effect>): Files
    requires |effects| == |actions|
    decreases |actions|
  {
    if actions == [] then files
    else ActAllPrivately(ActPrivately(files, actions[0], effects[0]), actions[1..], effects[1..])
  }

  /** Whole runs: any interleaving of requests, of writes with arbitrarily stale caches and of
      restarts leaves the contents that the same run leaves on files that share nothing. */
  lemma {:induction false} RunIsPrivate(c: Cluster, actions: seq<Action>)
    requires ClusterInv(c) && PossibleRun(c, actions)
    ensures var (c', effects) := ActAll(c, actions);
            && ClusterInv(c') && |effects| == |actions|
            && Contents(c') == ActAllPrivately(Contents(c), actions, effects)
    decreases |actions|
  {
    hide ClusterInv, Contents, Act, ActPrivately, Possible;
    if actions != [] {
      var e := Act(c, actions[0]);
      ActIsPrivate(c, actions[0]);
      RunIsPrivate(e.0, actions[1..]);
      var rest := ActAll(e.0, actions[1..]);
      assert ([e.1] + rest.1)[1..] == rest.1;
    }
  }

  const NEW_CLUSTER := Cluster(INITIAL, map[])

  /** The empty system satisfies the invariant. */
  lemma NewClusterInv()
    ensures ClusterInv(NEW_CLUSTER) && Contents(NEW_CLUSTER) == map[]
  {
    InitialInv();
    hide Inv;
  }

  /** From the empty system on: any run leaves what it leaves on private files, of which there are
      none at first. */
  lemma RunFromNewIsPrivate(actions: seq<Action>)
    requires PossibleRun(NEW_CLUSTER, actions)
    ensures var (c, effects) := ActAll(NEW_CLUSTER, actions);
            ClusterInv(c) && |effects| == |actions| && Contents(c) == ActAllPrivately(map[], actions, effects)
  {
    hide ClusterInv, Contents, Act, ActPrivately, Possible;
    NewClusterInv();
    RunIsPrivate(NEW_CLUSTER, actions);
  }

  lemma {:induction false} RunWithoutRestarts(c: Cluster, actions: seq<Action>)
    requires WithoutRestarts(actions)
    ensures PossibleRun(c, actions)
    decreases |actions|
  {
    hide Act;
    if actions != [] {
      RunWithoutRestarts(Act(c, actions[0]).0, actions[1..]);
    }
  }

  // ----- restarts -----

  predicate WithoutRestarts(actions: seq<Action>) {
    forall i :: 0 <= i < |actions| ==> !actions[i].Restarted?
  }

  /** From here on, whatever is requested and written leaves what it would leave on private files. */
  ghost predicate StaysPrivate(c: Cluster, files: Files) {
    forall actions :: WithoutRestarts(actions) ==>
      Contents(ActAll(c, actions).0) == ActAllPrivately(files, actions, ActAll(c, actions).1)
  }

  /** The new chunk of a file starts with whatever is stored under its handle. */
  lemma RevivedBytes(c: Cluster, path: str, env: Env)
    requires Inv(c.master) && path in c.master.tables.files && c.master.tables.next != 0 && env.logging == Written
    ensures var after := Contents(Ask(c, AllocateChunkRequest(path), env));
            path in Contents(c) && after == Contents(c)[path := Contents(c)[path] + [BytesOf(c.store, c.master.tables.next)]]
  {
    var r, lists := AllocateChunkRequest(path), ListsOf(c.master.tables);
    RequestLists(c.master, r, env);
    ListsOfKeys(c.master.tables);
    assert StoreAfter(c, r, env) == c.store && TookEffect(c.master, r, env);
    ApplyingContents(lists, c.store, r, c.master.tables.next, 0);
    hide Inv, Live, ListsOf, BytesOf;
  }

  const FINE := Env(Written, true, true, true)

  /** If everything stays private from some point on, it does after one action more. */
  lemma StaysPrivateAfter(c: Cluster, files: Files, a: Action)
    requires StaysPrivate(c, files) && !a.Restarted?
    ensures Contents(Act(c, a).0) == ActPrivately(files, a, Act(c, a).1)
    ensures StaysPrivate(Act(c, a).0, Contents(Act(c, a).0))
  {
    hide Act, ActPrivately, Contents;
    var (c', e) := Act(c, a);
    assert WithoutRestarts([a]) && [a][1..] == [];
    assert ActAll(c', []) == (c', []);
    assert ActAll(c, [a]) == (c', [e] + []);
    assert [e] + [] == [e] && [e][1..] == [];
    assert ActAllPrivately(files, [a], [e]) == ActAllPrivately(ActPrivately(files, a, e), [], []);
    forall actions | WithoutRestarts(actions)
      ensures Contents(ActAll(c', actions).0) == ActAllPrivately(Contents(c'), actions, ActAll(c', actions).1)
    {
      var all := [a] + actions;
      assert WithoutRestarts(all) && all[1..] == actions;
      var es := ActAll(c', actions).1;
      assert ActAll(c, all) == (ActAll(c', actions).0, [e] + es);
      assert ([e] + es)[1..] == es;
    }
  }

  /** What an allocation does to contents, tables and store. */
  lemma AllocationRuns(c: Cluster, path: str)
    requires Inv(c.master) && path in c.master.tables.files && c.master.tables.next != 0
    ensures var a, next := Requested(AllocateChunkRequest(path), FINE), c.master.tables.next;
            var (c', e) := Act(c, a);
            && Inv(c'.master) && c'.store == c.store && path in c'.master.tables.files
            && c'.master.tables.next == CounterAfter(next, next)
            && path in Contents(c)
            && Contents(c') == Contents(c)[path := Contents(c)[path] + [BytesOf(c.store, next)]]
            && ActPrivately(Contents(c), a, e) == Contents(c)[path := Contents(c)[path] + [[]]]
  {
    var s, r := c.master, AllocateChunkRequest(path);
    RevivedBytes(c, path, FINE);
    LiveKeepsInv(s, r, FINE);
    NextIsFresh(s);
    FreshIsUnlisted(s, s.tables.next);
    assert ConsistentFile(s.tables, path);
    hide Inv, Contents;
    Applied(s, r, OpAllocateChunk(path, s.tables.next, 1, 0), FINE);
    hide Live;
  }

  /** Chunk by chunk the handles are given out again; if all contents stay private, there was nothing
      stored under any of them. */
  lemma {:induction false} AllocationsReveal(c: Cluster, path: str, h: Handle)
    requires Inv(c.master) && path in c.master.tables.files && c.master.tables.next != 0
    requires h in c.store && c.master.tables.next <= h
    requires StaysPrivate(c, Contents(c))
    ensures c.store[h] == []
    decreases h - c.master.tables.next
  {
    hide Inv, Contents, StaysPrivate, Act, ActPrivately;
    var a, next := Requested(AllocateChunkRequest(path), FINE), c.master.tables.next;
    AllocationRuns(c, path);
    StaysPrivateAfter(c, Contents(c), a);
    var c' := Act(c, a).0;
    var x, y := Contents(c)[path] + [BytesOf(c.store, next)], Contents(c)[path] + [[]];
    assert Contents(c)[path := x][path] == x && Contents(c)[path := y][path] == y;
    assert x[|x| - 1] == y[|y| - 1];
    if h != next {
      AllocationsReveal(c', path, h);
    }
  }

  /** There is always a name free directly below the root. */
  lemma FreePath(ns: Tree) returns (path: str)
    requires WellFormed(ns)
    ensures CanCreate(ns, path)
  {
    var letters := LongerThanAll(ns.Keys);
    path := [SLASH] + letters;
    OneNamePath(letters);
    assert |path| > |letters|;
    assert path !in ns;
  }

  lemma {:induction false} LongerThanAll(paths: set<str>) returns (letters: str)
    ensures letters != [] && (forall b :: b in letters ==> b == 0x61) && forall p :: p in paths ==> |p| <= |letters|
    decreases paths
  {
    if paths == {} {
      letters := [0x61];
    } else {
      var p :| p in paths;
      var rest := LongerThanAll(paths - {p});
      letters := rest + seq(|p|, _ => 0x61);
    }
  }

  lemma OneNamePath(letters: str)
    requires letters != [] && forall b :: b in letters ==> b == 0x61
    ensures IsValid([SLASH] + letters) && [SLASH] + letters != ROOT && Parent([SLASH] + letters) == ROOT
  {
    assert letters[0] in letters;
    assert ValidName(letters);
    assert IsValid(ROOT);
    ChildOf(ROOT, letters);
  }

  lemma CreationRuns(c: Cluster, path: str)
    requires Inv(c.master) && CanCreate(c.master.ns, path)
    ensures var c' := Act(c, Requested(CreateFileRequest(path, 1, 1, 1), FINE)).0;
            && Inv(c'.master) && c'.store == c.store && path in c'.master.tables.files
            && c'.master.tables.next == c.master.tables.next
  {
    var s, r, op := c.master, CreateFileRequest(path, 1, 1, 1), OpCreateFile(path, 1);
    CreatableHasRealPath(s, path);
    LiveKeepsInv(s, r, FINE);
    hide Inv, CanCreate;
    assert RecordOf(s, r) == Some(op);
    Applied(s, r, op, FINE);
    hide Live;
  }

  lemma RunsReveal(c: Cluster, h: Handle)
    requires Inv(c.master) && c.master.tables.next != 0
    requires h in c.store && c.master.tables.next <= h
    requires StaysPrivate(c, Contents(c))
    ensures c.store[h] == []
  {
    var path := FreePath(c.master.ns);
    hide Inv, Contents, StaysPrivate, Act, ActPrivately, CanCreate;
    var a := Requested(CreateFileRequest(path, 1, 1, 1), FINE);
    CreationRuns(c, path);
    StaysPrivateAfter(c, Contents(c), a);
    AllocationsReveal(Act(c, a).0, path, h);
  }

  /** A restarted master has the same namespace and tables, but its handle counter is rebuilt, while
      the chunkservers keep their bytes.  Contents stay private, in every run that follows, if and only
      if no bytes are stored at or above the rebuilt counter. */
  lemma RestartIff(c: Cluster, t: Durable)
    requires ClusterInv(c) && Same(c.master, t) && Recovering(t)
    ensures Contents(c.(master := t)) == Contents(c)
    ensures StaysPrivate(c.(master := t), Contents(c)) <==> NoneStoredFrom(c.store, t.tables.next)
  {
    var d := c.(master := t);
    SameContents(c, t);
    hide Inv, Contents, Same;
    if NoneStoredFrom(c.store, t.tables.next) {
      hide Recovering;
      forall actions | WithoutRestarts(actions)
        ensures Contents(ActAll(d, actions).0) == ActAllPrivately(Contents(c), actions, ActAll(d, actions).1)
      {
        RunWithoutRestarts(d, actions);
        RunIsPrivate(d, actions);
      }
    }
    if StaysPrivate(d, Contents(c)) {
      forall h | h in c.store && t.tables.next <= h
        ensures c.store[h] == []
      {
        RunsReveal(d, h);
      }
    }
  }

  /** Right after a checkpoint the rebuilt counter is one past the largest live handle.  Then contents
      stay private if and only if every handle with bytes is at most a live one: the chunks with the
      highest numbers have not been outlived by their bytes. */
  lemma RebuiltCounterIff(c: Cluster, t: Durable)
    requires ClusterInv(c) && Same(c.master, t) && Recovering(t)
    requires t.tables.next == 1 || t.tables.next - 1 in t.tables.chunks
    ensures StaysPrivate(c.(master := t), Contents(c)) <==>
            forall h :: h in c.store && h != 0 && c.store[h] != [] ==> exists k :: k in c.master.tables.chunks && h <= k
  {
    RestartIff(c, t);
    assert Consistent(t.tables);
    hide WellFormed, ClusterInv, StaysPrivate, Contents;
    var next := t.tables.next;
    assert forall k :: k in t.tables.chunks ==> k < next;
    forall h | h in c.store && h != 0
      ensures h < next <==> exists k :: k in t.tables.chunks && h <= k
    {
      if h < next {
        assert next - 1 in t.tables.chunks;
      }
    }
  }

  // ----- a step touches only the file it names -----

  /** The files an action names.  A snapshot names what lies under its destination. */
  predicate Names(a: Action, p: str) {
    match a
    case ChunkWrite(path, _, _, _, _, _) => p == path
    case Restarted(_) => false
    case Requested(r, _) =>
      match r
      case CreateFileRequest(path, _, _, _) => p == path
      case DeleteFileRequest(path) => p == path
      case RenameFileRequest(source, destination) => p == source || p == destination
      case AllocateChunkRequest(path) => p == path
      case AddChunkToFileRequest(path, _) => p == path
      case RemoveChunkFromFileRequest(path, _) => p == path
      case CreateSnapshotRequest(_, destination) => Under(destination, p)
      case _ => false
  }

  lemma OthersUntouched(c: Cluster, a: Action, p: str)
    requires ClusterInv(c) && Possible(c, a) && !Names(a, p)
    ensures p in Contents(Act(c, a).0) <==> p in Contents(c)
    ensures p in Contents(c) ==> Contents(Act(c, a).0)[p] == Contents(c)[p]
  {
    hide ClusterInv, Contents, Act, Overlay, ActPrivately, Names, Possible;
    ActIsPrivate(c, a);
    RootIsNoDestination(c, a);
    PrivateOthersUntouched(Contents(c), a, Act(c, a).1, p);
  }

  lemma RootIsNoDestination(c: Cluster, a: Action)
    ensures a.Requested? && a.request.CreateSnapshotRequest? && Act(c, a).1.done ==> a.request.destination != ROOT
  {
    if a.Requested? && a.request.CreateSnapshotRequest? && a.request.destination == ROOT {
      Refused(c.master, a.request, a.env);
      hide Live;
    }
  }

  lemma PrivateOthersUntouched(files: Files, a: Action, e: Effect, p: str)
    requires !Names(a, p)
    requires a.Requested? && a.request.CreateSnapshotRequest? && e.done ==> a.request.destination != ROOT
    ensures p in ActPrivately(files, a, e) <==> p in files
    ensures p in files ==> ActPrivately(files, a, e)[p] == files[p]
  {
    hide Overlay;
    if a.Requested? && a.request.CreateSnapshotRequest? && e.done {
      NotPlaced(files, a.request.source, a.request.destination, p);
      hide Placed, Under;
    }
  }

  lemma NotPlaced(files: Files, source: str, destination: str, p: str)
    requires destination != ROOT && !Under(destination, p)
    ensures p !in Placed(files, source, destination)
  {
    hide Placed, Under, Relocate;
    if p in Placed(files, source, destination) {
      var q := PlacedFrom(files, source, destination, p);
      RelocateBack(source, destination, q);
      assert false;
    }
  }
}
