// The master's state and steps.

module MasterState {
  // What each operation does to namespace, file table, chunk table and handle counter: live, where it is
  // first logged and then applied, and in replay, where a log record is applied again by separately
  // written code.

  import opened Bytes
  import opened Paths
  import opened Namespace
  import opened ChunkTables

  datatype Durable = Durable(ns: Tree, tables: Tables)

  const INITIAL := Durable(EMPTY, NO_TABLES)

  /** The operations that reach the log, with the values that are logged. */
  datatype Op =
    | OpCreateDirectory(path: str)
    | OpCreateFile(path: str, factor: u32)
    | OpDeleteFile(path: str)
    | OpRenameFile(source: str, destination: str)
    | OpAllocateChunk(path: str, handle: Handle, version: u64, size: u64)
    | OpUpdateFileSize(path: str, size: u64)
    | OpSetChunkVersion(handle: Handle, version: u64)
    | OpAddChunkToFile(path: str, handle: Handle)
    | OpRemoveChunkFromFile(path: str, handle: Handle)
    | OpDeleteChunk(handle: Handle)
    | OpSetChunkSize(handle: Handle, size: u64)
    | OpCreateSnapshot(source: str, destination: str)
    | OpCopyOnWrite(path: str, index: u64, from: Handle, to: Handle, version: u64, size: u64)

  /** What replay demands of the arguments of a record before it looks at the state. */
  predicate ValidOp(op: Op) {
    match op
    case OpCreateFile(_, factor) => factor != 0
    case OpAllocateChunk(_, h, version, _) => h != 0 && version != 0
    case OpSetChunkVersion(h, version) => h != 0 && version != 0
    case OpAddChunkToFile(_, h) => h != 0
    case OpRemoveChunkFromFile(_, h) => h != 0
    case OpDeleteChunk(h) => h != 0
    case OpSetChunkSize(h, _) => h != 0
    case OpCopyOnWrite(_, _, from, to, version, _) => from != 0 && to != 0 && version != 0 && from != to
    case _ => true
  }

  /** The joint invariant: the files of the namespace are the files of the file table, and the
      two tables agree. */
  ghost predicate Inv(s: Durable) {
    && WellFormed(s.ns)
    && Consistent(s.tables)
    && forall p :: p in s.tables.files <==> IsFile(s.ns, p)
  }

  // ----- applying an operation, live -----

  function ApplyCreateDirectory(s: Durable, path: str): Step<Durable> {
    if CanCreate(s.ns, path) then Step(s.(ns := s.ns[path := Directory]), true) else Step(s, false)
  }

  /** The namespace first; if the file table then refuses, the namespace is rolled back. */
  function ApplyCreateFile(s: Durable, path: str, factor: u32): Step<Durable> {
    var t := CreateFile(s.tables, path, factor);
    if CanCreate(s.ns, path) && t.ok then Step(Durable(s.ns[path := File], t.state), true) else Step(s, false)
  }

  /** The file table first, then the namespace. */
  function ApplyDeleteFile(s: Durable, path: str): Step<Durable> {
    var t := DeleteFile(s.tables, path);
    if !t.ok then Step(s, false)
    else if IsFile(s.ns, path) then Step(Durable(s.ns - {path}, t.state), true)
    else Step(s.(tables := t.state), false)
  }

  /** The namespace first; if the file table then refuses, the namespace is rolled back. */
  function ApplyRenameFile(s: Durable, source: str, destination: str): Step<Durable> {
    var t := RenameFile(s.tables, source, destination);
    if CanRename(s.ns, source, destination) && t.ok
    then Step(Durable(Renamed(s.ns, source, destination), t.state), true)
    else Step(s, false)
  }

  /** A change of the tables alone. */
  function OnTables(s: Durable, t: Step<Tables>): Step<Durable> {
    Step(s.(tables := t.state), t.ok)
  }

  /** A snapshot puts an image of the source's subtree - names, kinds, file entries - at the
      destination.  A source that does not exist (possible only in replay of a foreign record)
      gives an empty directory, except that the empty string matches every node and fails. */
  function ApplyCreateSnapshot(s: Durable, source: str, destination: str): Step<Durable> {
    if !CanCreate(s.ns, destination) || source == [] then Step(s, false)
    else if source !in s.ns then Step(s.(ns := s.ns[destination := Directory]), true)
    else Step(Durable(s.ns + Placed(s.ns, source, destination),
                      s.tables.(files := s.tables.files + Placed(s.tables.files, source, destination))), true)
  }

  // ----- live operations -----

  /** What a caller asks of the master. */
  datatype Request =
    | CreateDirectoryRequest(path: str)
    | CreateFileRequest(path: str, requested: u32, live: nat, default: u32)
    | DeleteFileRequest(path: str)
    | RenameFileRequest(source: str, destination: str)
    | AllocateChunkRequest(path: str)
    | UpdateFileSizeRequest(path: str, size: u64)
    | SetChunkVersionRequest(handle: Handle, version: u64)
    | AddChunkToFileRequest(path: str, handle: Handle)
    | RemoveChunkFromFileRequest(path: str, handle: Handle)
    | CollectRequest(handle: Handle)
    | SetChunkSizeRequest(handle: Handle, size: u64)
    | CreateSnapshotRequest(source: str, destination: str)
    | CopyOnWriteRequest(path: str, index: u64)

  /** How appending to the log and flushing it went. */
  datatype Logging = Written | NotWritten | WrittenNotFlushed

  /** The outcomes of everything outside the durable state: the log, the deletion of a chunk on
      the chunkservers, the registration and the cloning of replicas. */
  datatype Env = Env(logging: Logging, deleted: bool, registered: bool, cloned: bool)

  datatype Outcome = Outcome(state: Durable, ok: bool, logged: Option<Op>)

  /** The replication factor of a new file: an explicit one must not exceed the live servers; the
      default is reduced to them. */
  function ResolveFactor(requested: u32, live: nat, default: u32): Option<u32> {
    if requested == 0 then
      var factor: u32 := if 0 < live < default then live else default;
      if factor == 0 then None else Some(factor)
    else if 0 < live < requested then None
    else Some(requested)
  }

  /** The record a request will log, if it gets past the checks made before logging. */
  function RecordOf(s: Durable, r: Request): Option<Op> {
    match r
    case CreateDirectoryRequest(path) =>
      if path in s.ns then None else Some(OpCreateDirectory(path))
    case CreateFileRequest(path, requested, live, default) =>
      if path == [] || path in s.ns then None
      else
        var factor := ResolveFactor(requested, live, default);
        if factor == None then None else Some(OpCreateFile(path, factor.value))
    case DeleteFileRequest(path) =>
      if IsFile(s.ns, path) then Some(OpDeleteFile(path)) else None
    case RenameFileRequest(source, destination) =>
      if IsFile(s.ns, source) && destination !in s.ns then Some(OpRenameFile(source, destination)) else None
    case AllocateChunkRequest(path) =>
      if path in s.tables.files && s.tables.next != 0 then Some(OpAllocateChunk(path, s.tables.next, 1, 0)) else None
    case UpdateFileSizeRequest(path, size) =>
      if path in s.tables.files then Some(OpUpdateFileSize(path, size)) else None
    case SetChunkVersionRequest(h, version) =>
      if h in s.tables.chunks && version != 0 then Some(OpSetChunkVersion(h, version)) else None
    case AddChunkToFileRequest(path, h) =>
      if path in s.tables.files && h in s.tables.chunks then Some(OpAddChunkToFile(path, h)) else None
    case RemoveChunkFromFileRequest(path, h) =>
      if path in s.tables.files && h in s.tables.chunks then Some(OpRemoveChunkFromFile(path, h)) else None
    case CollectRequest(h) =>
      if h != 0 && References(s.tables, h) == 0 && h in s.tables.chunks then Some(OpDeleteChunk(h)) else None
    case SetChunkSizeRequest(h, size) =>
      if h in s.tables.chunks then Some(OpSetChunkSize(h, size)) else None
    case CreateSnapshotRequest(source, destination) =>
      if source != [] && destination != [] && source != destination && source in s.ns && destination !in s.ns
         && destination != ROOT
      then Some(OpCreateSnapshot(source, destination)) else None
    case CopyOnWriteRequest(path, index) =>
      None
  }

  /** Applying a record that has just been logged. */
  function Apply(s: Durable, op: Op, env: Env): Step<Durable> {
    match op
    case OpCreateDirectory(path) => ApplyCreateDirectory(s, path)
    case OpCreateFile(path, factor) => ApplyCreateFile(s, path, factor)
    case OpDeleteFile(path) => ApplyDeleteFile(s, path)
    case OpRenameFile(source, destination) => ApplyRenameFile(s, source, destination)
    case OpAllocateChunk(path, h, version, size) => OnTables(s, AllocateChunk(s.tables, path, h, version, size))
    case OpUpdateFileSize(path, size) => OnTables(s, UpdateFileSize(s.tables, path, size))
    case OpSetChunkVersion(h, version) => OnTables(s, SetChunkVersion(s.tables, h, version))
    case OpAddChunkToFile(path, h) => OnTables(s, AddChunkToFile(s.tables, path, h))
    case OpRemoveChunkFromFile(path, h) => OnTables(s, RemoveChunkFromFile(s.tables, path, h))
    case OpDeleteChunk(h) => if env.deleted then OnTables(s, DeleteChunk(s.tables, h)) else Step(s, false)
    case OpSetChunkSize(h, size) => OnTables(s, SetChunkSize(s.tables, h, size))
    case OpCreateSnapshot(source, destination) => ApplyCreateSnapshot(s, source, destination)
    case OpCopyOnWrite(_, _, _, _, _, _) => Step(s, false)
  }

  /** Copy-on-write works the other way round: it changes the tables first and logs last, and
      undoes its change if any step fails.  Only the handle counter may have moved. */
  function CopyOnWrite(s: Durable, path: str, index: u64, env: Env): Outcome {
    var t := s.tables;
    if path == [] || path !in t.files || index >= |t.files[path].chunks| || t.files[path].chunks[index] == 0 then
      Outcome(s, false, None)
    else
      var from := t.files[path].chunks[index];
      if References(t, from) <= 1 then Outcome(s, true, None)
      else if t.next == 0 then Outcome(s, false, None)
      else
        var c := t.chunks[from];
        var a := AllocateStandalone(t, t.next, c.version, c.size);
        var moved := s.(tables := t.(next := a.state.next));
        if !a.ok then Outcome(s.(tables := a.state), false, None)
        else if !env.registered || !env.cloned then Outcome(moved, false, None)
        else
          var op := OpCopyOnWrite(path, index, from, t.next, c.version, c.size);
          match env.logging
          case Written => Outcome(s.(tables := ReplaceChunkInFile(a.state, path, index, t.next).state), true, Some(op))
          case NotWritten => Outcome(moved, false, None)
          case WrittenNotFlushed => Outcome(moved, false, Some(op))
  }

  /** One request to the live master. */
  function Live(s: Durable, r: Request, env: Env): Outcome {
    if r.CopyOnWriteRequest? then CopyOnWrite(s, r.path, r.index, env)
    else
      match RecordOf(s, r)
      case None =>
        Outcome(s, r.CollectRequest? && r.handle != 0 && r.handle !in s.tables.chunks, None)
      case Some(op) =>
        match env.logging
        case NotWritten => Outcome(s, false, None)
        case WrittenNotFlushed => Outcome(s, false, Some(op))
        case Written =>
          var a := Apply(s, op, env);
          Outcome(a.state, a.ok, Some(op))
  }

  // ----- replay -----

  function ReplayCreateFile(s: Durable, path: str, factor: u32): Step<Durable> {
    if path in s.ns then Step(s, IsFile(s.ns, path) && path in s.tables.files)
    else if !CanCreate(s.ns, path) then Step(s, false)
    else
      var t := CreateFile(s.tables, path, factor);
      Step(Durable(s.ns[path := File], t.state), t.ok)
  }

  function ReplayDeleteFile(s: Durable, path: str): Step<Durable> {
    var inTable, inTree := path in s.tables.files, IsFile(s.ns, path);
    Step(Durable(if inTree then s.ns - {path} else s.ns,
                 if inTable then DeleteFile(s.tables, path).state else s.tables), true)
  }

  function ReplayRenameFile(s: Durable, source: str, destination: str): Step<Durable> {
    if !IsFile(s.ns, source) || !CanRename(s.ns, source, destination) then Step(s, false)
    else
      var t := RenameFile(s.tables, source, destination);
      Step(Durable(Renamed(s.ns, source, destination), t.state), t.ok)
  }

  function ReplayCopyOnWrite(t: Tables, path: str, index: u64, from: Handle, to: Handle, version: u64, size: u64): Step<Tables> {
    if path !in t.files || index >= |t.files[path].chunks| then Step(t, false)
    else if t.files[path].chunks[index] == to then Step(t, true)
    else if t.files[path].chunks[index] != from then Step(t, false)
    else
      var a := if to in t.chunks then Step(t, true) else AllocateStandalone(t, to, version, size);
      if !a.ok then a else ReplaceChunkInFile(a.state, path, index, to)
  }

  /** Applying one record of the log to a recovering master. */
  function Replay(s: Durable, op: Op): Step<Durable> {
    if !ValidOp(op) then Step(s, false)
    else
      match op
      case OpCreateDirectory(path) =>
        if path in s.ns then Step(s, IsDirectory(s.ns, path)) else ApplyCreateDirectory(s, path)
      case OpCreateFile(path, factor) => ReplayCreateFile(s, path, factor)
      case OpDeleteFile(path) => ReplayDeleteFile(s, path)
      case OpRenameFile(source, destination) => ReplayRenameFile(s, source, destination)
      case OpAllocateChunk(path, h, version, size) =>
        if h in s.tables.chunks then Step(s, true)
        else OnTables(s, AllocateChunk(s.tables, path, h, version, size))
      case OpUpdateFileSize(path, size) => OnTables(s, UpdateFileSize(s.tables, path, size))
      case OpSetChunkVersion(h, version) => OnTables(s, SetChunkVersion(s.tables, h, version))
      case OpAddChunkToFile(path, h) =>
        if h !in s.tables.chunks then Step(s, false)
        else if path in s.tables.files && h in s.tables.files[path].chunks then Step(s, true)
        else OnTables(s, AddChunkToFile(s.tables, path, h))
      case OpRemoveChunkFromFile(path, h) =>
        if path !in s.tables.files || h !in s.tables.files[path].chunks then Step(s, true)
        else OnTables(s, RemoveChunkFromFile(s.tables, path, h))
      case OpDeleteChunk(h) =>
        if h !in s.tables.chunks then Step(s, true) else OnTables(s, DeleteChunk(s.tables, h))
      case OpSetChunkSize(h, size) => OnTables(s, SetChunkSize(s.tables, h, size))
      case OpCreateSnapshot(source, destination) =>
        if destination in s.ns then Step(s, true) else ApplyCreateSnapshot(s, source, destination)
      case OpCopyOnWrite(path, index, from, to, version, size) =>
        OnTables(s, ReplayCopyOnWrite(s.tables, path, index, from, to, version, size))
  }

  // ----- every step keeps the invariant -----

  lemma InitialInv()
    ensures Inv(INITIAL)
  {
    assert ValidEntry(EMPTY, ROOT);
  }

  lemma CreateDirectoryKeepsInv(s: Durable, path: str)
    requires Inv(s)
    ensures Inv(ApplyCreateDirectory(s, path).state)
  {
    if CanCreate(s.ns, path) {
      CreateKeepsWellFormed(s.ns, path, Directory);
    }
  }

  lemma CreateFileKeepsInv(s: Durable, path: str, factor: u32)
    requires Inv(s)
    ensures Inv(ApplyCreateFile(s, path, factor).state)
    ensures ApplyCreateFile(s, path, factor).ok <==> CanCreate(s.ns, path) && factor != 0
  {
    CreateKeepsConsistent(s.tables, path, factor);
    if CanCreate(s.ns, path) {
      CreateKeepsWellFormed(s.ns, path, File);
      assert path !in s.tables.files;
    }
  }

  lemma DeleteFileKeepsInv(s: Durable, path: str)
    requires Inv(s)
    ensures Inv(ApplyDeleteFile(s, path).state)
    ensures ApplyDeleteFile(s, path).ok <==> IsFile(s.ns, path)
  {
    DeleteKeepsConsistent(s.tables, path);
    if IsFile(s.ns, path) {
      FilesAreChildless(s.ns, path);
      DeleteKeepsWellFormed(s.ns, path);
    }
  }

  lemma RenameFileKeepsInv(s: Durable, source: str, destination: str)
    requires Inv(s) && IsFile(s.ns, source)
    ensures Inv(ApplyRenameFile(s, source, destination).state)
    ensures ApplyRenameFile(s, source, destination).ok <==> CanCreate(s.ns, destination)
  {
    RenameKeepsConsistent(s.tables, source, destination);
    hide WellFormed, Consistent, CanCreate, Renamed;
    if CanRename(s.ns, source, destination) {
      RenameKeepsWellFormed(s.ns, source, destination);
      RenameOfFile(s.ns, source, destination);
      FileHasRealPath(s, source);
      CreatableHasRealPath(s, destination);
    } else if CanCreate(s.ns, destination) {
      RenameOfFile(s.ns, source, destination);
    }
  }

  lemma FileHasRealPath(s: Durable, path: str)
    requires Inv(s) && IsFile(s.ns, path)
    ensures path != [] && path in s.tables.files
  {
    assert ConsistentFile(s.tables, path);
  }

  lemma CreatableHasRealPath(s: Durable, path: str)
    requires Inv(s) && CanCreate(s.ns, path)
    ensures path != [] && path !in s.tables.files && path !in s.ns
  {}

  /** The file entries of a copied subtree refer to the same chunks as before, and to no others. */
  lemma CopiedFilesConsistent(t: Tables, source: str, destination: str)
    requires Consistent(t) && destination != []
    ensures Consistent(t.(files := t.files + Placed(t.files, source, destination)))
  {
    hide Placed, Relocate, Under;
    var after := t.(files := t.files + Placed(t.files, source, destination));
    forall p | p in after.files
      ensures ConsistentFile(after, p)
    {
      if p in Placed(t.files, source, destination) {
        var q := PlacedFrom(t.files, source, destination, p);
        assert ConsistentFile(t, q);
        RelocatedNotEmpty(source, destination, q);
      } else {
        assert ConsistentFile(t, p);
      }
    }
  }

  lemma RelocatedNotEmpty(source: str, destination: str, q: str)
    requires Under(source, q) && destination != []
    ensures Relocate(source, destination, q) != []
  {}

  /** The image of a subtree has a file entry exactly where it has a file node. */
  lemma ImageAgrees(s: Durable, source: str, destination: str, t: str)
    requires Inv(s) && IsValid(source) && CanCreate(s.ns, destination)
    ensures var ns' := Placed(s.ns, source, destination);
            var files' := Placed(s.tables.files, source, destination);
            && (t in files' <==> t in ns' && ns'[t] == File)
            && (t in ns' ==> t !in s.ns)
  {
    hide Placed, Relocate, Under, Consistent, WellFormed, CanCreate, IsValid;
    PlacedIsNew(s.ns, source, destination);
    if t in Placed(s.ns, source, destination) {
      var p := PlacedFrom(s.ns, source, destination, t);
      if s.ns[p] == File {
        PlacedAt(s.tables.files, source, destination, p);
      }
    }
    if t in Placed(s.tables.files, source, destination) {
      var q := PlacedFrom(s.tables.files, source, destination, t);
      PlacedAt(s.ns, source, destination, q);
    }
  }

  lemma SnapshotKeepsInv(s: Durable, source: str, destination: str)
    requires Inv(s)
    ensures Inv(ApplyCreateSnapshot(s, source, destination).state)
  {
    if !CanCreate(s.ns, destination) || source == [] {
    } else if source !in s.ns {
      CreateKeepsWellFormed(s.ns, destination, Directory);
    } else {
      assert ValidEntry(s.ns, source);
      hide Placed, Relocate, Under, Consistent, WellFormed, IsValid;
      CopyKeepsWellFormed(s.ns, source, destination);
      CreatableHasRealPath(s, destination);
      CopiedFilesConsistent(s.tables, source, destination);
      hide CanCreate;
      forall t
        ensures t in s.tables.files + Placed(s.tables.files, source, destination)
           <==> IsFile(s.ns + Placed(s.ns, source, destination), t)
      {
        ImageAgrees(s, source, destination, t);
      }
    }
  }

  lemma ApplyKeepsInv(s: Durable, op: Op, env: Env)
    requires Inv(s)
    requires op.OpRenameFile? ==> IsFile(s.ns, op.source)
    requires op.OpAllocateChunk? ==> s.tables.next != 0
    ensures Inv(Apply(s, op, env).state)
  {
    hide WellFormed, Consistent, ApplyCreateDirectory, ApplyCreateFile, ApplyDeleteFile, ApplyRenameFile, ApplyCreateSnapshot,
      AllocateChunk, UpdateFileSize, SetChunkVersion, AddChunkToFile, RemoveChunkFromFile, DeleteChunk, SetChunkSize;
    match op {
      case OpCreateDirectory(path) => CreateDirectoryKeepsInv(s, path);
      case OpCreateFile(path, factor) => CreateFileKeepsInv(s, path, factor);
      case OpDeleteFile(path) => DeleteFileKeepsInv(s, path);
      case OpRenameFile(source, destination) => RenameFileKeepsInv(s, source, destination);
      case OpCreateSnapshot(source, destination) => SnapshotKeepsInv(s, source, destination);
      case OpCopyOnWrite(_, _, _, _, _, _) =>
      case _ => TableOpsKeepInv(s, op);
    }
  }

  predicate IsTableOp(op: Op) {
    op.OpAllocateChunk? || op.OpUpdateFileSize? || op.OpSetChunkVersion? || op.OpAddChunkToFile?
    || op.OpRemoveChunkFromFile? || op.OpDeleteChunk? || op.OpSetChunkSize?
  }

  /** The operations that leave the namespace alone, as one function. */
  function TableOp(t: Tables, op: Op): Step<Tables>
    requires IsTableOp(op)
  {
    match op
    case OpAllocateChunk(path, h, version, size) => AllocateChunk(t, path, h, version, size)
    case OpUpdateFileSize(path, size) => UpdateFileSize(t, path, size)
    case OpSetChunkVersion(h, version) => SetChunkVersion(t, h, version)
    case OpAddChunkToFile(path, h) => AddChunkToFile(t, path, h)
    case OpRemoveChunkFromFile(path, h) => RemoveChunkFromFile(t, path, h)
    case OpDeleteChunk(h) => DeleteChunk(t, h)
    case OpSetChunkSize(h, size) => SetChunkSize(t, h, size)
  }

  lemma TableOpKeepsConsistent(t: Tables, op: Op)
    requires IsTableOp(op) && Consistent(t)
    requires op.OpAllocateChunk? ==> t.next != 0
    ensures Consistent(TableOp(t, op).state)
  {
    hide Consistent, AllocateChunk, UpdateFileSize, SetChunkVersion, AddChunkToFile, RemoveChunkFromFile, DeleteChunk, SetChunkSize;
    match op {
      case OpAllocateChunk(path, h, version, size) => AllocateKeepsConsistent(t, path, h, version, size);
      case OpUpdateFileSize(path, size) => ResizeKeepsConsistent(t, path, size);
      case OpSetChunkVersion(h, version) => SetVersionKeepsConsistent(t, h, version);
      case OpAddChunkToFile(path, h) => AddKeepsConsistent(t, path, h);
      case OpRemoveChunkFromFile(path, h) => RemoveKeepsConsistent(t, path, h);
      case OpDeleteChunk(h) => DeleteChunkKeepsConsistent(t, h);
      case OpSetChunkSize(h, size) => SetSizeKeepsConsistent(t, h, size);
    }
  }

  lemma TableOpKeepsFiles(t: Tables, op: Op)
    requires IsTableOp(op)
    ensures TableOp(t, op).state.files.Keys == t.files.Keys
  {}

  lemma TableOpsKeepInv(s: Durable, op: Op)
    requires Inv(s) && IsTableOp(op)
    requires op.OpAllocateChunk? ==> s.tables.next != 0
    ensures Inv(OnTables(s, TableOp(s.tables, op)).state)
  {
    hide WellFormed, Consistent, TableOp;
    TableOpKeepsConsistent(s.tables, op);
    TableOpKeepsFiles(s.tables, op);
  }

  /** The tables copy-on-write can leave: as they were up to the counter, or with one slot of one
      file moved to a fresh chunk. */
  ghost predicate CopyOnWriteTables(t: Tables, path: str, index: u64, after: Tables) {
    || after == t
    || (after.files == t.files && after.chunks == t.chunks && (after.next == 0 || (t.next != 0 && t.next <= after.next)))
    || (&& path in t.files && index < |t.files[path].chunks| && t.files[path].chunks[index] in t.chunks && t.next != 0
        && var c := t.chunks[t.files[path].chunks[index]];
           var a := AllocateStandalone(t, t.next, c.version, c.size);
           a.ok && after == ReplaceChunkInFile(a.state, path, index, t.next).state)
  }

  lemma CopyOnWriteLeaves(s: Durable, path: str, index: u64, env: Env)
    ensures CopyOnWrite(s, path, index, env).state.ns == s.ns
    ensures CopyOnWriteTables(s.tables, path, index, CopyOnWrite(s, path, index, env).state.tables)
  {
    hide ReplaceChunkInFile;
  }

  lemma CopyOnWriteKeepsInv(s: Durable, path: str, index: u64, env: Env)
    requires Inv(s)
    ensures Inv(CopyOnWrite(s, path, index, env).state)
  {
    hide WellFormed, Consistent, CopyOnWrite, AllocateStandalone, ReplaceChunkInFile;
    CopyOnWriteLeaves(s, path, index, env);
    var t, after := s.tables, CopyOnWrite(s, path, index, env).state.tables;
    if after == t {
    } else if after.files == t.files && after.chunks == t.chunks && (after.next == 0 || (t.next != 0 && t.next <= after.next)) {
      CounterMoves(t, after.next);
    } else {
      var c := t.chunks[t.files[path].chunks[index]];
      AllocateStandaloneKeepsConsistent(t, t.next, c.version, c.size);
      var a := AllocateStandalone(t, t.next, c.version, c.size);
      ReplaceKeepsConsistent(a.state, path, index, t.next);
      ReplaceKeepsFiles(t, path, index, c);
    }
  }

  lemma ReplaceKeepsFiles(t: Tables, path: str, index: u64, c: ChunkMeta)
    ensures ReplaceChunkInFile(AllocateStandalone(t, t.next, c.version, c.size).state, path, index, t.next).state.files.Keys == t.files.Keys
  {}

  lemma CounterMoves(t: Tables, next: u64)
    requires Consistent(t)
    requires next == 0 || (t.next != 0 && t.next <= next)
    ensures Consistent(t.(next := next))
  {
    var after := t.(next := next);
    forall p | p in after.files
      ensures ConsistentFile(after, p)
    {
      assert ConsistentFile(t, p);
    }
  }

  /** Every live step keeps the joint invariant, whether it succeeds or fails, and whatever the
      log, the servers and the clock do. */
  lemma LiveKeepsInv(s: Durable, r: Request, env: Env)
    requires Inv(s)
    ensures Inv(Live(s, r, env).state)
  {
    hide WellFormed, Consistent, Apply, CopyOnWrite;
    if r.CopyOnWriteRequest? {
      CopyOnWriteKeepsInv(s, r.path, r.index, env);
    } else if RecordOf(s, r) != None {
      ApplyKeepsInv(s, RecordOf(s, r).value, env);
    }
  }

  // ----- the three ways a live step can go -----

  lemma Refused(s: Durable, r: Request, env: Env)
    requires RecordOf(s, r) == None && !r.CopyOnWriteRequest? && !r.CollectRequest?
    ensures Live(s, r, env) == Outcome(s, false, None)
  {
    hide RecordOf;
  }

  lemma Unlogged(s: Durable, r: Request, op: Op, env: Env)
    requires RecordOf(s, r) == Some(op) && !r.CopyOnWriteRequest? && env.logging != Written
    ensures Live(s, r, env) == Outcome(s, false, if env.logging == NotWritten then None else Some(op))
  {
    hide RecordOf;
  }

  lemma Applied(s: Durable, r: Request, op: Op, env: Env)
    requires RecordOf(s, r) == Some(op) && !r.CopyOnWriteRequest? && env.logging == Written
    ensures Live(s, r, env) == Outcome(Apply(s, op, env).state, Apply(s, op, env).ok, Some(op))
    ensures Inv(s) ==> Inv(Live(s, r, env).state)
  {
    LiveKeepsInvIf(s, r, env);
    hide RecordOf, Inv, Apply;
  }

  lemma LiveKeepsInvIf(s: Durable, r: Request, env: Env)
    ensures Inv(s) ==> Inv(Live(s, r, env).state)
  {
    hide *;
    if Inv(s) {
      LiveKeepsInv(s, r, env);
    }
  }
}
