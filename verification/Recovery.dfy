// Recovery rebuilds the live state.

module Recovery {
  // A run of the live master leaves a log; replaying the log with the separately written replay
  // code, from the empty state or from the state saved at any earlier point, gives the same
  // namespace, the same file table and the same chunk table - exactly when every logged operation
  // could be applied.

  import opened Bytes
  import opened Paths
  import opened Namespace
  import opened ChunkTables
  import opened MasterState

  /** Equality of what is persisted: everything but the handle counter. */
  predicate Same(s: Durable, t: Durable) {
    && s.ns == t.ns
    && s.tables.files == t.tables.files
    && s.tables.chunks == t.tables.chunks
  }

  /** A recovering master: the invariant holds and handles are not exhausted. */
  ghost predicate Recovering(t: Durable) {
    Inv(t) && t.tables.next != 0
  }

  // ----- replay keeps the invariant, for any record whatever -----

  lemma ReplayKeepsInv(t: Durable, op: Op)
    requires Recovering(t)
    ensures Inv(Replay(t, op).state)
    ensures Replay(t, op).ok ==> Replay(t, op).state.tables.next != 0
  {
    hide WellFormed, Consistent, ApplyCreateDirectory, ApplyCreateSnapshot, CanCreate, CanRename,
      AllocateChunk, UpdateFileSize, SetChunkVersion, AddChunkToFile, RemoveChunkFromFile, DeleteChunk, SetChunkSize,
      ReplayCreateFile, ReplayDeleteFile, ReplayRenameFile, ReplayCopyOnWrite;
    match op {
      case OpCreateDirectory(path) =>
        CreateDirectoryKeepsInv(t, path);
        DirectoryKeepsTables(t, path);
      case OpCreateFile(path, factor) => ReplayCreateKeepsInv(t, path, factor);
      case OpDeleteFile(path) => ReplayDeleteKeepsInv(t, path);
      case OpRenameFile(source, destination) => ReplayRenameKeepsInv(t, source, destination);
      case OpCreateSnapshot(source, destination) =>
        SnapshotKeepsInv(t, source, destination);
        SnapshotKeepsCounter(t, source, destination);
      case OpCopyOnWrite(path, index, from, to, version, size) =>
        ReplayCopyOnWriteKeepsInv(t, path, index, from, to, version, size);
      case _ =>
        TableOpsKeepInv(t, op);
        TableOpKeepsCounter(t, op);
    }
  }

  lemma DirectoryKeepsTables(t: Durable, path: str)
    ensures ApplyCreateDirectory(t, path).state.tables == t.tables
  {}

  lemma SnapshotKeepsCounter(t: Durable, source: str, destination: str)
    ensures ApplyCreateSnapshot(t, source, destination).state.tables.next == t.tables.next
  {
    hide Placed;
  }

  lemma TableOpKeepsCounter(t: Durable, op: Op)
    requires Recovering(t) && IsTableOp(op)
    ensures TableOp(t.tables, op).ok ==> TableOp(t.tables, op).state.next != 0
  {
    if op.OpAllocateChunk? {
      AllocateKeepsConsistent(t.tables, op.path, op.handle, op.version, op.size);
    }
  }

  lemma ReplayCreateKeepsInv(t: Durable, path: str, factor: u32)
    requires Recovering(t)
    ensures Inv(ReplayCreateFile(t, path, factor).state) || factor == 0
    ensures ReplayCreateFile(t, path, factor).state.tables.next == t.tables.next
  {
    if path !in t.ns && CanCreate(t.ns, path) && factor != 0 {
      CreateFileKeepsInv(t, path, factor);
    }
  }

  lemma ReplayDeleteKeepsInv(t: Durable, path: str)
    requires Recovering(t)
    ensures Inv(ReplayDeleteFile(t, path).state)
    ensures ReplayDeleteFile(t, path).state.tables.next == t.tables.next
    ensures IsFile(t.ns, path) ==> ReplayDeleteFile(t, path) == ApplyDeleteFile(t, path)
  {
    DeleteFileKeepsInv(t, path);
  }

  lemma ReplayRenameKeepsInv(t: Durable, source: str, destination: str)
    requires Recovering(t)
    ensures Inv(ReplayRenameFile(t, source, destination).state)
    ensures ReplayRenameFile(t, source, destination).state.tables.next == t.tables.next
    ensures IsFile(t.ns, source) ==>
              && (ReplayRenameFile(t, source, destination).ok <==> CanCreate(t.ns, destination))
              && ReplayRenameFile(t, source, destination) == ApplyRenameFile(t, source, destination)
  {
    hide WellFormed, Consistent, Renamed;
    if IsFile(t.ns, source) {
      RenameFileKeepsInv(t, source, destination);
      if CanCreate(t.ns, destination) {
        RenameOfFile(t.ns, source, destination);
        FileHasRealPath(t, source);
        CreatableHasRealPath(t, destination);
      }
    }
  }

  lemma ReplayCopyOnWriteKeepsInv(t: Durable, path: str, index: u64, from: Handle, to: Handle, version: u64, size: u64)
    requires Recovering(t)
    ensures Inv(t.(tables := ReplayCopyOnWrite(t.tables, path, index, from, to, version, size).state))
    ensures ReplayCopyOnWrite(t.tables, path, index, from, to, version, size).ok ==>
              ReplayCopyOnWrite(t.tables, path, index, from, to, version, size).state.next != 0
  {
    hide WellFormed, Consistent;
    AllocateStandaloneKeepsConsistent(t.tables, to, version, size);
    var a := if to in t.tables.chunks then Step(t.tables, true) else AllocateStandalone(t.tables, to, version, size);
    ReplaceKeepsConsistent(a.state, path, index, to);
    assert a.state.files == t.tables.files;
    ReplaceKeepsPaths(a.state, path, index, to);
    hide AllocateStandalone, ReplaceChunkInFile;
  }

  lemma ReplaceKeepsPaths(t: Tables, path: str, index: nat, h: Handle)
    ensures ReplaceChunkInFile(t, path, index, h).state.files.Keys == t.files.Keys
    ensures ReplaceChunkInFile(t, path, index, h).state.next == t.next
    ensures ReplaceChunkInFile(t, path, index, h).state.chunks == t.chunks
  {}

  // ----- one step: live against replay -----

  /** Whether a request leaves a log that replays to the live state.  A caller can tell beforehand.
      If the record is written and flushed, it must be possible to apply it: the new path must be
      valid, free and in an existing directory; the handle counter must not be at its last value; and
      the chunkservers must delete a collected chunk.  If it is written but not flushed, the live
      master does not apply it, so that it must be one that changes nothing. */
  predicate Clean(s: Durable, r: Request, env: Env) {
    match env.logging
    case NotWritten => true
    case Written => RecordOf(s, r) == None || CanApply(s, RecordOf(s, r).value, env)
    case WrittenNotFlushed =>
      if r.CopyOnWriteRequest? then CopyOnWrite(s, r.path, r.index, env).logged == None
      else RecordOf(s, r) == None || ChangesNothing(s, RecordOf(s, r).value)
  }

  predicate CanApply(s: Durable, op: Op, env: Env) {
    match op
    case OpCreateDirectory(path) => CanCreate(s.ns, path)
    case OpCreateFile(path, _) => CanCreate(s.ns, path)
    case OpRenameFile(_, destination) => CanCreate(s.ns, destination)
    case OpCreateSnapshot(_, destination) => CanCreate(s.ns, destination)
    case OpAllocateChunk(_, h, _, _) => h != U64 - 1
    case OpDeleteChunk(_) => env.deleted
    case _ => true
  }

  predicate ChangesNothing(s: Durable, op: Op) {
    match op
    case OpUpdateFileSize(path, size) => path in s.tables.files && s.tables.files[path].size == size
    case OpSetChunkVersion(h, version) => h in s.tables.chunks && s.tables.chunks[h].version == version
    case OpSetChunkSize(h, size) => h in s.tables.chunks && s.tables.chunks[h].size == size
    case OpAddChunkToFile(path, h) => path in s.tables.files && h in s.tables.files[path].chunks
    case OpRemoveChunkFromFile(path, h) => path in s.tables.files && h !in s.tables.files[path].chunks
    case _ => false
  }

  ghost predicate Agrees(s: Durable, t: Step<Durable>) {
    t.ok && Same(s, t.state)
  }

  lemma TableOpSame(t: Tables, u: Tables, op: Op)
    requires IsTableOp(op) && t.files == u.files && t.chunks == u.chunks
    ensures TableOp(t, op).state.files == TableOp(u, op).state.files
    ensures TableOp(t, op).state.chunks == TableOp(u, op).state.chunks
    ensures !op.OpAllocateChunk? ==> TableOp(t, op).ok == TableOp(u, op).ok
  {}

  lemma SnapshotSame(s: Durable, t: Durable, source: str, destination: str)
    requires Same(s, t)
    ensures Same(ApplyCreateSnapshot(s, source, destination).state, ApplyCreateSnapshot(t, source, destination).state)
    ensures ApplyCreateSnapshot(s, source, destination).ok == ApplyCreateSnapshot(t, source, destination).ok
  {
    hide Placed, CanCreate;
  }

  lemma DeleteSame(s: Durable, t: Durable, path: str)
    requires Same(s, t)
    ensures Same(ApplyDeleteFile(s, path).state, ApplyDeleteFile(t, path).state)
    ensures ApplyDeleteFile(s, path).ok == ApplyDeleteFile(t, path).ok
  {
    assert path in s.tables.files ==> LastReferences(s.tables, path) == LastReferences(t.tables, path);
  }

  lemma CreateSame(s: Durable, t: Durable, path: str, factor: u32)
    requires Same(s, t)
    ensures Same(ApplyCreateFile(s, path, factor).state, ApplyCreateFile(t, path, factor).state)
    ensures ApplyCreateFile(s, path, factor).ok == ApplyCreateFile(t, path, factor).ok
    ensures path !in t.ns && path !in t.tables.files && path != [] && factor != 0 ==>
              ReplayCreateFile(t, path, factor) == ApplyCreateFile(t, path, factor)
  {
    hide CanCreate;
  }

  lemma RenameSame(s: Durable, t: Durable, source: str, destination: str)
    requires Same(s, t)
    ensures Same(ApplyRenameFile(s, source, destination).state, ApplyRenameFile(t, source, destination).state)
    ensures ApplyRenameFile(s, source, destination).ok == ApplyRenameFile(t, source, destination).ok
  {
    hide CanRename, Renamed;
  }

  /** The namespace operations: replay does what the live code did, and fails where it failed. */
  lemma NamespaceOpSimulates(s: Durable, t: Durable, op: Op, env: Env)
    requires Inv(s) && Recovering(t) && Same(s, t)
    requires op.OpCreateDirectory? || op.OpCreateFile? || op.OpDeleteFile? || op.OpRenameFile? || op.OpCreateSnapshot?
    requires op.OpCreateDirectory? ==> op.path !in s.ns
    requires op.OpCreateFile? ==> op.path !in s.ns && op.path != [] && op.factor != 0
    requires op.OpDeleteFile? ==> IsFile(s.ns, op.path)
    requires op.OpRenameFile? ==> IsFile(s.ns, op.source)
    requires op.OpCreateSnapshot? ==> op.source in s.ns && op.source != [] && op.destination !in s.ns
    ensures Same(Apply(s, op, env).state, Replay(t, op).state)
    ensures Apply(s, op, env).ok == Replay(t, op).ok
    ensures Replay(t, op).ok <==> CanApply(s, op, env)
  {
    hide WellFormed, Consistent, CanCreate, CanRename, Renamed, Placed;
    match op {
      case OpCreateDirectory(path) =>
      case OpCreateFile(path, factor) =>
        CreateSame(s, t, path, factor);
        CreateFileKeepsInv(t, path, factor);
      case OpDeleteFile(path) =>
        hide ApplyDeleteFile, ReplayDeleteFile;
        DeleteSame(s, t, path);
        ReplayDeleteKeepsInv(t, path);
        DeleteFileKeepsInv(t, path);
      case OpRenameFile(source, destination) =>
        hide ApplyRenameFile, ReplayRenameFile;
        RenameSame(s, t, source, destination);
        ReplayRenameKeepsInv(t, source, destination);
      case OpCreateSnapshot(source, destination) =>
        SnapshotSame(s, t, source, destination);
    }
  }

  /** The table operations: for each, when replay agrees with the live code. */
  lemma TableOpSimulates(s: Durable, t: Durable, r: Request, env: Env, op: Op)
    requires Inv(s) && Recovering(t) && Same(s, t)
    requires RecordOf(s, r) == Some(op) && IsTableOp(op)
    ensures Agrees(Apply(s, op, env).state, Replay(t, op)) <==> CanApply(s, op, env)
  {
    hide WellFormed;
    match op {
      case OpAllocateChunk(path, h, version, size) =>
        TableOpSame(s.tables, t.tables, op);
        AllocateSimulates(s.tables, t.tables, path, h);
      case OpDeleteChunk(h) =>
        TableOpSame(s.tables, t.tables, op);
      case _ =>
        TableOpSame(s.tables, t.tables, op);
    }
  }

  lemma AllocateSimulates(t: Tables, u: Tables, path: str, h: Handle)
    requires Consistent(t) && Consistent(u) && t.files == u.files && t.chunks == u.chunks
    requires t.next == h != 0 && u.next != 0 && path in t.files
    ensures h !in u.chunks
    ensures AllocateChunk(u, path, h, 1, 0).ok <==> h != U64 - 1
  {
    assert ConsistentFile(t, path);
    if h == U64 - 1 {
      assert CounterAfter(u.next, h) == 0;
    }
  }

  /** What a logged copy-on-write did. */
  lemma CopyOnWriteLogs(s: Durable, path: str, index: u64, env: Env)
    requires env.logging == Written
    ensures var o := CopyOnWrite(s, path, index, env);
            match o.logged
            case None => Same(o.state, s)
            case Some(op) =>
              var t := s.tables;
              && path != [] && path in t.files && index < |t.files[path].chunks|
              && var from := t.files[path].chunks[index];
                 && from != 0 && from in t.chunks && t.next != 0
                 && var c := t.chunks[from];
                    && op == OpCopyOnWrite(path, index, from, t.next, c.version, c.size)
                    && var a := AllocateStandalone(t, t.next, c.version, c.size);
                       a.ok && o.state == s.(tables := ReplaceChunkInFile(a.state, path, index, t.next).state)
  {
    hide ReplaceChunkInFile;
  }

  /** The same two table operations, from tables that differ in the counter only. */
  lemma CopyOnWriteTablesSimulate(t: Tables, u: Tables, path: str, index: u64)
    requires Consistent(t) && Consistent(u) && t.files == u.files && t.chunks == u.chunks && u.next != 0
    requires path != [] && path in t.files && index < |t.files[path].chunks|
    requires var from := t.files[path].chunks[index];
             && from in t.chunks && t.next != 0
             && AllocateStandalone(t, t.next, t.chunks[from].version, t.chunks[from].size).ok
    ensures var from := t.files[path].chunks[index];
            var c := t.chunks[from];
            var after := ReplaceChunkInFile(AllocateStandalone(t, t.next, c.version, c.size).state, path, index, t.next).state;
            var r := ReplayCopyOnWrite(u, path, index, from, t.next, c.version, c.size);
            && r.ok && r.state.files == after.files && r.state.chunks == after.chunks
            && from != t.next && c.version != 0
  {
    assert ConsistentFile(t, path);
    var from := t.files[path].chunks[index];
    var c := t.chunks[from];
    var a, b := AllocateStandalone(t, t.next, c.version, c.size), AllocateStandalone(u, t.next, c.version, c.size);
    FreshCounter(t, u.next, t.next);
    assert t.next !in t.chunks && t.next !in t.files[path].chunks;
    assert b.ok && b.state.chunks == a.state.chunks && b.state.files == a.state.files;
    hide Consistent;
    ReplaceSame(a.state, b.state, path, index, t.next);
    hide ReplaceChunkInFile, AllocateStandalone;
  }

  /** Copy-on-write logs only after it has succeeded, so its record always replays. */
  lemma CopyOnWriteSimulates(s: Durable, t: Durable, path: str, index: u64, env: Env)
    requires Inv(s) && Recovering(t) && Same(s, t)
    requires env.logging == Written
    ensures match CopyOnWrite(s, path, index, env).logged
            case None => Same(CopyOnWrite(s, path, index, env).state, t)
            case Some(op) => Agrees(CopyOnWrite(s, path, index, env).state, Replay(t, op))
  {
    CopyOnWriteLogs(s, path, index, env);
    if CopyOnWrite(s, path, index, env).logged != None {
      var u := s.tables;
      assert Consistent(u) && Consistent(t.tables);
      hide WellFormed, Consistent, CopyOnWrite, ReplaceChunkInFile, AllocateStandalone, ReplayCopyOnWrite;
      var from := u.files[path].chunks[index];
      var c := u.chunks[from];
      CopyOnWriteTablesSimulate(u, t.tables, path, index);
      ReplayOfCopyOnWrite(t, path, index, from, u.next, c.version, c.size);
    }
  }

  lemma ReplayOfCopyOnWrite(t: Durable, path: str, index: u64, from: Handle, to: Handle, version: u64, size: u64)
    requires from != 0 && to != 0 && version != 0 && from != to
    ensures Replay(t, OpCopyOnWrite(path, index, from, to, version, size))
         == OnTables(t, ReplayCopyOnWrite(t.tables, path, index, from, to, version, size))
  {
    hide ReplayCopyOnWrite;
  }

  lemma FreshCounter(t: Tables, next: u64, h: Handle)
    requires t.next == h != 0 && next != 0
    requires exists version, size :: AllocateStandalone(t, h, version, size).ok
    ensures h >= next ==> CounterAfter(next, h) != 0
  {}

  lemma ReplaceSame(t: Tables, u: Tables, path: str, index: nat, h: Handle)
    requires t.files == u.files && t.chunks == u.chunks
    requires path != [] && h != 0 && path in t.files && h in t.chunks && index < |t.files[path].chunks|
    requires h !in t.files[path].chunks
    ensures ReplaceChunkInFile(u, path, index, h).ok
    ensures ReplaceChunkInFile(t, path, index, h).state.files == ReplaceChunkInFile(u, path, index, h).state.files
    ensures ReplaceChunkInFile(t, path, index, h).state.chunks == ReplaceChunkInFile(u, path, index, h).state.chunks
  {}

  // ----- a record that was written but not applied live -----

  lemma UnappliedNamespaceOp(s: Durable, t: Durable, op: Op)
    requires Inv(s) && Recovering(t) && Same(s, t)
    requires op.OpCreateDirectory? || op.OpCreateFile? || op.OpDeleteFile? || op.OpRenameFile? || op.OpCreateSnapshot?
    requires op.OpCreateDirectory? ==> op.path !in s.ns
    requires op.OpCreateFile? ==> op.path !in s.ns && op.path != [] && op.factor != 0
    requires op.OpDeleteFile? ==> IsFile(s.ns, op.path)
    requires op.OpRenameFile? ==> IsFile(s.ns, op.source) && op.destination !in s.ns
    requires op.OpCreateSnapshot? ==> op.source in s.ns && op.source != [] && op.destination !in s.ns
    ensures !Agrees(s, Replay(t, op)) && !ChangesNothing(s, op)
  {
    hide WellFormed, Consistent, CanRename, Renamed, Placed, IsValid;
    match op {
      case OpRenameFile(source, destination) =>
        if CanRename(t.ns, source, destination) {
          RenamedIsThere(t.ns, source, destination);
        }
      case OpCreateSnapshot(source, destination) =>
        PlacedIsThere(t.ns, source, destination);
      case _ =>
    }
  }

  lemma RenamedIsThere(ns: Tree, source: str, destination: str)
    requires source in ns
    ensures destination in Renamed(ns, source, destination)
  {
    PlacedIsThere(ns, source, destination);
  }

  lemma PlacedIsThere(ns: Tree, source: str, destination: str)
    requires source in ns
    ensures destination in Placed(ns, source, destination)
  {
    assert Under(source, source) && Relocate(source, destination, source) == destination;
  }

  lemma UnappliedTableOp(s: Durable, t: Durable, r: Request, op: Op)
    requires Inv(s) && Recovering(t) && Same(s, t)
    requires RecordOf(s, r) == Some(op) && IsTableOp(op)
    ensures Agrees(s, Replay(t, op)) <==> ChangesNothing(s, op)
  {
    hide WellFormed, References;
    match op {
      case OpAllocateChunk(path, h, version, size) =>
        AllocateSimulates(s.tables, t.tables, path, h);
      case OpRemoveChunkFromFile(path, h) =>
        assert ConsistentFile(s.tables, path);
        WithoutMeans(s.tables.files[path].chunks, h);
      case _ =>
    }
  }

  lemma UnappliedCopyOnWrite(s: Durable, t: Durable, path: str, index: u64, env: Env)
    requires Inv(s) && Recovering(t) && Same(s, t)
    requires env.logging == WrittenNotFlushed
    ensures Same(CopyOnWrite(s, path, index, env).state, s)
    ensures CopyOnWrite(s, path, index, env).logged != None ==> !Agrees(s, Replay(t, CopyOnWrite(s, path, index, env).logged.value))
  {
    CopyOnWriteLogs(s, path, index, env.(logging := Written));
    UnflushedCopyOnWrite(s, path, index, env);
    if CopyOnWrite(s, path, index, env).logged != None {
      var u := s.tables;
      assert Consistent(u) && Consistent(t.tables);
      hide WellFormed, Consistent, CopyOnWrite, ReplaceChunkInFile, AllocateStandalone, ReplayCopyOnWrite;
      var from := u.files[path].chunks[index];
      var c := u.chunks[from];
      CopyOnWriteTablesSimulate(u, t.tables, path, index);
      ReplayOfCopyOnWrite(t, path, index, from, u.next, c.version, c.size);
      FreshIsNew(u, c.version, c.size);
      ReplaceKeepsPaths(AllocateStandalone(u, u.next, c.version, c.size).state, path, index, u.next);
    }
  }

  lemma UnflushedCopyOnWrite(s: Durable, path: str, index: u64, env: Env)
    requires env.logging == WrittenNotFlushed
    ensures Same(CopyOnWrite(s, path, index, env).state, s)
    ensures CopyOnWrite(s, path, index, env).logged == CopyOnWrite(s, path, index, env.(logging := Written)).logged
  {
    hide ReplaceChunkInFile;
  }

  lemma FreshIsNew(t: Tables, version: u64, size: u64)
    requires AllocateStandalone(t, t.next, version, size).ok
    ensures t.next !in t.chunks && t.next in AllocateStandalone(t, t.next, version, size).state.chunks
  {}

  /** One live step against the replay of its record, from states that agree.  They agree
      afterwards if and only if the step was clean. */
  lemma StepSimulates(s: Durable, t: Durable, r: Request, env: Env)
    requires Inv(s) && Recovering(t) && Same(s, t)
    ensures match Live(s, r, env).logged
            case None => Same(Live(s, r, env).state, t)
            case Some(op) => Agrees(Live(s, r, env).state, Replay(t, op)) <==> Clean(s, r, env)
  {
    hide WellFormed, Consistent, Apply, Replay, CopyOnWrite, CanApply, ChangesNothing;
    if r.CopyOnWriteRequest? {
      match env.logging {
        case Written => CopyOnWriteSimulates(s, t, r.path, r.index, env);
        case NotWritten => CopyOnWriteUnlogged(s, r.path, r.index, env);
        case WrittenNotFlushed => UnappliedCopyOnWrite(s, t, r.path, r.index, env);
      }
    } else if RecordOf(s, r) != None {
      var op := RecordOf(s, r).value;
      match env.logging {
        case Written =>
          if IsTableOp(op) {
            TableOpSimulates(s, t, r, env, op);
          } else {
            LoggedNamespaceOp(s, r, op);
            NamespaceOpSimulates(s, t, op, env);
          }
        case NotWritten =>
        case WrittenNotFlushed =>
          if IsTableOp(op) {
            UnappliedTableOp(s, t, r, op);
          } else {
            LoggedNamespaceOp(s, r, op);
            UnappliedNamespaceOp(s, t, op);
          }
      }
    }
  }

  lemma CopyOnWriteUnlogged(s: Durable, path: str, index: u64, env: Env)
    requires env.logging == NotWritten
    ensures CopyOnWrite(s, path, index, env).logged == None
    ensures Same(CopyOnWrite(s, path, index, env).state, s)
  {
    hide ReplaceChunkInFile;
  }

  lemma LoggedNamespaceOp(s: Durable, r: Request, op: Op)
    requires RecordOf(s, r) == Some(op) && !IsTableOp(op)
    ensures !op.OpCopyOnWrite?
    ensures op.OpCreateDirectory? ==> op.path !in s.ns
    ensures op.OpCreateFile? ==> op.path !in s.ns && op.path != [] && op.factor != 0
    ensures op.OpDeleteFile? ==> IsFile(s.ns, op.path)
    ensures op.OpRenameFile? ==> IsFile(s.ns, op.source) && op.destination !in s.ns
    ensures op.OpCreateSnapshot? ==> op.source in s.ns && op.source != [] && op.destination !in s.ns
  {}

  // ----- whole runs -----

  datatype Event = Event(request: Request, env: Env)

  function Logged(o: Outcome): seq<Op> {
    if o.logged == None then [] else [o.logged.value]
  }

  /** The state after a run, and the records it appended to the log. */
  function Run(s: Durable, events: seq<Event>): (Durable, seq<Op>)
    decreases |events|
  {
    if events == [] then (s, [])
    else
      var o := Live(s, events[0].request, events[0].env);
      var (s', log) := Run(o.state, events[1..]);
      (s', Logged(o) + log)
  }

  lemma RunOne(s: Durable, e: Event)
    ensures Run(s, [e]) == (Live(s, e.request, e.env).state, Logged(Live(s, e.request, e.env)))
  {
    hide Live;
    assert [e][1..] == [];
    assert Run(Live(s, e.request, e.env).state, []) == (Live(s, e.request, e.env).state, []);
    assert Logged(Live(s, e.request, e.env)) + [] == Logged(Live(s, e.request, e.env));
  }

  ghost predicate CleanRun(s: Durable, events: seq<Event>)
    decreases |events|
  {
    events == []
    || (&& Clean(s, events[0].request, events[0].env)
        && CleanRun(Live(s, events[0].request, events[0].env).state, events[1..]))
  }

  /** Replay of a log, stopping at the first record that cannot be applied. */
  function ReplayAll(t: Durable, log: seq<Op>): Step<Durable>
    decreases |log|
  {
    if log == [] then Step(t, true)
    else
      var r := Replay(t, log[0]);
      if r.ok then ReplayAll(r.state, log[1..]) else r
  }

  lemma {:induction false} ReplayConcat(t: Durable, a: seq<Op>, b: seq<Op>)
    ensures ReplayAll(t, a + b) == (if ReplayAll(t, a).ok then ReplayAll(ReplayAll(t, a).state, b) else ReplayAll(t, a))
    decreases |a|
  {
    hide Replay;
    if a == [] {
      assert a + b == b;
    } else {
      assert (a + b)[1..] == a[1..] + b;
      ReplayConcat(Replay(t, a[0]).state, a[1..], b);
    }
  }

  lemma {:induction false} RunConcat(s: Durable, a: seq<Event>, b: seq<Event>)
    ensures Run(s, a + b).0 == Run(Run(s, a).0, b).0
    ensures Run(s, a + b).1 == Run(s, a).1 + Run(Run(s, a).0, b).1
    ensures CleanRun(s, a + b) <==> CleanRun(s, a) && CleanRun(Run(s, a).0, b)
    decreases |a|
  {
    hide Live, Clean;
    if a == [] {
      assert a + b == b;
    } else {
      assert (a + b)[1..] == a[1..] + b;
      RunConcat(Live(s, a[0].request, a[0].env).state, a[1..], b);
    }
  }

  lemma {:induction false} RunKeepsInv(s: Durable, events: seq<Event>)
    requires Inv(s)
    ensures Inv(Run(s, events).0)
    decreases |events|
  {
    hide Live, Inv;
    if events != [] {
      LiveKeepsInv(s, events[0].request, events[0].env);
      RunKeepsInv(Live(s, events[0].request, events[0].env).state, events[1..]);
    }
  }

  /** Replaying the log of a clean run, from any state that agrees with its start, succeeds and
      ends in a state that agrees with its end. */
  lemma {:induction false} RunSimulates(s: Durable, t: Durable, events: seq<Event>)
    requires Inv(s) && Recovering(t) && Same(s, t)
    requires CleanRun(s, events)
    ensures Agrees(Run(s, events).0, ReplayAll(t, Run(s, events).1))
    ensures Recovering(ReplayAll(t, Run(s, events).1).state)
    decreases |events|
  {
    hide Live, Inv, Replay, Clean, Same;
    if events != [] {
      var e := events[0];
      var o := Live(s, e.request, e.env);
      LiveKeepsInv(s, e.request, e.env);
      StepSimulates(s, t, e.request, e.env);
      if o.logged == None {
        RunSimulates(o.state, t, events[1..]);
        assert Run(s, events).1 == Run(o.state, events[1..]).1;
      } else {
        var t' := Replay(t, o.logged.value);
        ReplayKeepsInv(t, o.logged.value);
        RunSimulates(o.state, t'.state, events[1..]);
        assert Run(s, events).1[1..] == Run(o.state, events[1..]).1;
      }
    }
  }

  /** Recovery from the log alone: replaying everything from the empty state gives back the live
      state. */
  lemma RecoverFromLog(events: seq<Event>)
    requires CleanRun(INITIAL, events)
    ensures Agrees(Run(INITIAL, events).0, ReplayAll(INITIAL, Run(INITIAL, events).1))
  {
    InitialInv();
    hide Inv;
    RunSimulates(INITIAL, INITIAL, events);
  }

  /** Recovery from a checkpoint: whatever point of the run it was taken at, restoring it and
      replaying only the later records gives back the live state. */
  lemma RecoverFromCheckpoint(before: seq<Event>, after: seq<Event>, restored: Durable)
    requires CleanRun(INITIAL, before + after)
    requires Recovering(restored) && Same(Run(INITIAL, before).0, restored)
    ensures var n := |Run(INITIAL, before).1|;
            var log := Run(INITIAL, before + after).1;
            n <= |log| && Agrees(Run(INITIAL, before + after).0, ReplayAll(restored, log[n..]))
  {
    InitialInv();
    hide Inv, Live;
    RunConcat(INITIAL, before, after);
    RunKeepsInv(INITIAL, before);
    var s := Run(INITIAL, before).0;
    RunSimulates(s, restored, after);
    assert Run(INITIAL, before + after).1[|Run(INITIAL, before).1|..] == Run(s, after).1;
  }

  // ----- where recovery fails -----

  /** A clean run followed by one step that is logged but not clean is not recovered: replay fails or
      ends in another state. */
  lemma UncleanStepIsNotRecovered(events: seq<Event>, e: Event)
    requires CleanRun(INITIAL, events)
    requires var s := Run(INITIAL, events).0; Live(s, e.request, e.env).logged != None && !Clean(s, e.request, e.env)
    ensures var (s, log) := Run(INITIAL, events + [e]);
            !Agrees(s, ReplayAll(INITIAL, log))
  {
    InitialInv();
    hide Inv, Live, Clean, Replay;
    var s := Run(INITIAL, events).0;
    var o := Live(s, e.request, e.env);
    RunConcat(INITIAL, events, [e]);
    RunKeepsInv(INITIAL, events);
    RunSimulates(INITIAL, INITIAL, events);
    var t := ReplayAll(INITIAL, Run(INITIAL, events).1).state;
    StepSimulates(s, t, e.request, e.env);
    RunOne(s, e);
    ReplayConcat(INITIAL, Run(INITIAL, events).1, [o.logged.value]);
    assert [o.logged.value][1..] == [];
    assert ReplayAll(t, [o.logged.value]) == Replay(t, o.logged.value);
  }

  /** A request that is logged although the new path cannot be created. */
  ghost predicate RefusedAfterLogging(s: Durable, e: Event) {
    && e.env.logging == Written
    && RecordOf(s, e.request) != None
    && match RecordOf(s, e.request).value
       case OpCreateDirectory(path) => !CanCreate(s.ns, path)
       case OpCreateFile(path, _) => !CanCreate(s.ns, path)
       case OpRenameFile(_, destination) => !CanCreate(s.ns, destination)
       case OpCreateSnapshot(_, destination) => !CanCreate(s.ns, destination)
       case _ => false
  }

  /** Such a request is refused and leaves the live state as it was.  Replay of its record fails. */
  lemma RefusedDoesNotReplay(s: Durable, t: Durable, e: Event)
    requires Inv(s) && Recovering(t) && Same(s, t) && RefusedAfterLogging(s, e)
    ensures Live(s, e.request, e.env) == Outcome(s, false, RecordOf(s, e.request))
    ensures !Replay(t, RecordOf(s, e.request).value).ok
  {
    var op := RecordOf(s, e.request).value;
    LoggedNamespaceOp(s, e.request, op);
    NamespaceOpSimulates(s, t, op, e.env);
    hide WellFormed, Consistent, CanCreate, Replay, RecordOf, Renamed, Placed;
  }

  /** Creating a file or a directory, renaming and taking a snapshot where the new path cannot be
      created is refused, but only after it has been logged: whatever was served before, and whatever
      is logged later, no recovery from the log succeeds from then on. */
  lemma RefusedPathPoisonsTheLog(events: seq<Event>, e: Event, later: seq<Event>)
    requires CleanRun(INITIAL, events) && RefusedAfterLogging(Run(INITIAL, events).0, e)
    ensures var s := Run(INITIAL, events).0; Live(s, e.request, e.env).state == s && !Live(s, e.request, e.env).ok
    ensures !ReplayAll(INITIAL, Run(INITIAL, events + ([e] + later)).1).ok
  {
    InitialInv();
    hide Inv, Live, Clean, Replay, RecordOf, Recovering;
    var s := Run(INITIAL, events).0;
    RunKeepsInv(INITIAL, events);
    assert Recovering(INITIAL) by {
      FreshRecovers();
    }
    RunSimulates(INITIAL, INITIAL, events);
    var t := ReplayAll(INITIAL, Run(INITIAL, events).1).state;
    RefusedDoesNotReplay(s, t, e);
    var op := RecordOf(s, e.request).value;
    RunConcat(INITIAL, events, [e] + later);
    RunConcat(s, [e], later);
    RunOne(s, e);
    ReplayConcat(INITIAL, Run(INITIAL, events).1, [op] + Run(s, later).1);
    assert ([op] + Run(s, later).1)[0] == op;
  }

  lemma FreshRecovers()
    ensures Recovering(INITIAL)
  {
    InitialInv();
  }

  /** "/d/f" cannot be created while there is no "/d". */
  lemma OrphanPath()
    ensures ORPHAN != [] && ORPHAN !in EMPTY && !CanCreate(EMPTY, ORPHAN)
  {
    if IsValid(ORPHAN) {
      assert ORPHAN[2] == SLASH && ORPHAN[3..] == [0x66];
      LastSlashUnique(ORPHAN, 2);
      assert Parent(ORPHAN) == [0x2F, 0x64];
    }
  }

  const ORPHAN: str := [0x2F, 0x64, 0x2F, 0x66]

  /** The first request to a new master can be one: create "/d/f".  The state stays as it was, the
      record stays in the log, and no replay of the log succeeds, whatever is logged later. */
  lemma RefusedCreatePoisonsTheLog(later: seq<Event>)
    ensures var e := Event(CreateFileRequest(ORPHAN, 1, 1, 1), Env(Written, true, true, true));
            && Run(INITIAL, [e]) == (INITIAL, [OpCreateFile(ORPHAN, 1)])
            && !ReplayAll(INITIAL, Run(INITIAL, [e] + later).1).ok
  {
    var e := Event(CreateFileRequest(ORPHAN, 1, 1, 1), Env(Written, true, true, true));
    OrphanPath();
    hide CanCreate;
    assert RefusedAfterLogging(INITIAL, e);
    InitialInv();
    FreshRecovers();
    RefusedDoesNotReplay(INITIAL, INITIAL, e);
    hide RefusedAfterLogging, Live, Replay, Inv, Recovering;
    RefusedPathPoisonsTheLog([], e, later);
    RunOne(INITIAL, e);
    assert [] + ([e] + later) == [e] + later;
  }
}
