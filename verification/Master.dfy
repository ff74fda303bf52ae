// The master: requests are checked, logged and applied to the namespace and the tables, which it
// owns as objects.  Each method is proved against the live step of MasterState.dfy.

module Master {
  import opened Bytes
  import opened Paths
  import opened Namespace
  import opened NamespaceListing
  import opened ChunkTables
  import opened MasterState
  import opened Recovery
  import opened LogFormat
  import opened LogRecords
  import opened Replicas
  import opened Sharing
  import opened Snapshot
  import Meta = Metadata
  import Space = NamespaceTree
  import Placement = ReplicaManager
  import Log = OperationLog
  import Form = CheckpointFormat
  import Image = Checkpoint
  import Startup

  /** How appending an operation goes: the log must be open and not at its last number, and the
      record must fit and be written in full; then the flush decides. */
  function Appending(open: bool, lastSequence: u64, op: Op, written: nat, flushed: bool): Logging {
    if open && lastSequence < U64 - 1 && |PayloadOf(op)| < U32 && written >= HEADER + |PayloadOf(op)|
    then if flushed then Written else WrittenNotFlushed
    else NotWritten
  }

  /** The record a request writes unless something fails before; copy-on-write writes it last. */
  function DueRecord(s: Durable, r: Request): Option<Op> {
    if !r.CopyOnWriteRequest? then RecordOf(s, r)
    else if !Shared(s, r.path, r.index) || s.tables.next == 0 || !Allocated(s, r.path, r.index).ok then None
    else
      var from := Slot(s, r.path, r.index);
      Some(OpCopyOnWrite(r.path, r.index, from, s.tables.next, s.tables.chunks[from].version, s.tables.chunks[from].size))
  }

  /** Whether the fresh chunk of a copy-on-write can be registered on all servers of the old one. */
  predicate Registers(r: ReplicaMap, s: Durable, q: Request) {
    q.CopyOnWriteRequest? && HasSlot(s, q.path, q.index) ==>
      forall x :: x in ServersAt(r, Slot(s, q.path, q.index)) ==> x !in ServersAt(r, s.tables.next)
  }

  /** A slot whose chunk no other file lists. */
  predicate OwnSlot(t: Tables, path: str, index: u64, h: Handle) {
    && path in t.files && index < |t.files[path].chunks| && t.files[path].chunks[index] == h
    && References(t, h) == 1
  }

  /** The tables between allocating the fresh chunk of a copy-on-write and putting it in its slot. */
  function CopyAllocated(s: Durable, path: str, index: u64): Tables {
    if Shared(s, path, index) then Allocated(s, path, index).state else s.tables
  }

  ghost predicate Installing(s: Durable, path: str, index: u64, from: Handle, h: Handle, chunk: ChunkMeta) {
    && Shared(s, path, index) && Allocated(s, path, index).ok
    && from == Slot(s, path, index) && h == s.tables.next != 0 && chunk == s.tables.chunks[from]
  }

  /** What copy-on-write does to replica lists and leases.  A fresh chunk is registered where the old
      one was, the first of these servers is its primary, and the old one loses its lease; otherwise at most the list of the handle that was next
      has changed, and at most the old chunk's lease has gone. */
  ghost predicate CopyPlaced(s: Durable, path: str, index: u64, result: Option<Handle>, before: ReplicaMap, after: ReplicaMap,
                             leased: set<Handle>, leased': set<Handle>)
  {
    var from := if HasSlot(s, path, index) then Slot(s, path, index) else 0;
    && (forall k :: k != s.tables.next ==> ListAt(after, k) == ListAt(before, k))
    && match result
       case None => leased' == leased || (Shared(s, path, index) && leased' == leased - {from})
       case Some(h) =>
         HasSlot(s, path, index)
         && if References(s.tables, from) <= 1 then h == from && after == before && leased' == leased
            else
              && h == s.tables.next && ServersAt(after, h) == ServersAt(before, h) + ServersAt(before, from) && leased' == leased - {from}
              && (ServersAt(before, from) != [] ==> PrimaryAt(after, h) == Some(ServersAt(before, from)[0]))
  }

  class Master {
    const metadata: Meta.Metadata
    const namespaces: Space.NamespaceManager
    const replicas: Placement.ReplicaManager
    const log: Log.OperationLog
    var leases: set<Handle>
    var orphans: set<Handle>

    ghost function State(): Durable
      reads this, metadata, namespaces, namespaces.repr
    {
      Durable(namespaces.View(), metadata.State())
    }

    constructor ()
      ensures namespaces.Valid() && replicas.Valid() && log.Valid()
      ensures fresh(metadata) && fresh(namespaces) && fresh(namespaces.repr) && fresh(replicas) && fresh(log)
      ensures State() == INITIAL && Inv(State()) && log.records == [] && leases == {} && orphans == {}
    {
      hide Inv, Space.NamespaceManager.Valid, Space.NamespaceManager.View, Log.OperationLog.Valid, Meta.Metadata.State,
        Placement.ReplicaManager.Valid;
      InitialInv();
      metadata := new Meta.Metadata();
      namespaces := new Space.NamespaceManager();
      replicas := new Placement.ReplicaManager();
      log := new Log.OperationLog();
      leases, orphans := {}, {};
    }

    /** What has happened to the log: nothing that counts, or one more record. */
    twostate predicate Logs(logged: Option<Op>)
      reads log
    {
      && log.open == old(log.open)
      && match logged
         case None => log.records == old(log.records) && log.lastSequence == old(log.lastSequence)
         case Some(op) =>
           && old(log.lastSequence) < U64 - 1 && log.lastSequence == old(log.lastSequence) + 1
           && log.file == Startup.LogAfter(old(log.file), old(log.lastSequence), Some(op))
           && (old(log.torn) == [] ==>
                 log.torn == [] && log.records == old(log.records) + [RecordFor(old(log.lastSequence) + 1, op)])
    }

    /** The outcomes that decide how a request goes, as they follow from the state, from whether the
        chunkservers delete and clone when they are asked to, and from how much of a log record
        reaches the file. */
    ghost function Outside(r: Request, deleted: bool, cloned: bool, written: nat, flushed: bool): Env
      reads this, metadata, namespaces, namespaces.repr, replicas, log
    {
      Env(match DueRecord(State(), r)
          case None => NotWritten
          case Some(op) => Appending(log.open, log.lastSequence, op, written, flushed),
          deleted, Registers(replicas.replicas, State(), r), cloned)
    }

    /** The request was served as the live step says, and the joint invariant was kept. */
    twostate predicate Served(r: Request, deleted: bool, cloned: bool, written: nat, flushed: bool, ok: bool)
      reads this, metadata, namespaces, namespaces.repr, replicas, log
    {
      var o := Live(old(State()), r, old(Outside(r, deleted, cloned, written, flushed)));
      && State() == o.state && ok == o.ok && Logs(o.logged)
      && (old(Inv(State())) ==> Inv(State()))
    }

    lemma LogLength()
      requires log.Valid()
      ensures log.open && log.torn == [] ==> log.lastSequence == |log.records|
    {
      hide Consecutive, EncodeLog;
    }

    /** Writes the record of an operation, of which only `written` bytes may reach the file. */
    method WriteOperation(op: Op, written: nat) returns (ok: bool)
      requires log.Valid()
      modifies log
      ensures log.Valid() && log.open == old(log.open)
      ensures ok <==> Appending(old(log.open), old(log.lastSequence), op, written, true) == Written
      ensures ok ==> old(log.lastSequence) < U64 - 1 && log.lastSequence == old(log.lastSequence) + 1
      ensures ok ==> log.file == Startup.LogAfter(old(log.file), old(log.lastSequence), Some(op))
      ensures ok && old(log.torn) == [] ==>
                log.torn == [] && log.records == old(log.records) + [RecordFor(old(log.lastSequence) + 1, op)]
      ensures !ok ==> log.records == old(log.records) && log.lastSequence == old(log.lastSequence)
    {
      IsRecordFor(op);
      hide *;
      if log.lastSequence < U64 - 1 {
        LogAfterIs(log.file, log.lastSequence, op);
      }
      AppendingIs(log.open, log.lastSequence, op, written, true);
      var payload := Log.EncodeFieldList(FieldsOf(op));
      ok := log.Append(KindOf(op), payload, written);
    }

    /** Appends an operation to the log and flushes it; the flush may fail. */
    method AppendOperation(op: Op, written: nat, flushed: bool) returns (how: Logging)
      requires log.Valid()
      modifies log
      ensures log.Valid()
      ensures how == old(Appending(log.open, log.lastSequence, op, written, flushed))
      ensures Logs(if how == NotWritten then None else Some(op))
    {
      hide EncodeFields, FieldsOf, KindOf, PayloadOf, RecordFor, EncodeRecord, Log.OperationLog.Valid, Startup.LogAfter;
      if !log.open {
        return NotWritten;
      }
      var ok := WriteOperation(op, written);
      if !ok {
        return NotWritten;
      }
      return if flushed then Written else WrittenNotFlushed;
    }

    // ----- the namespace operations -----

    method CreateDirectory(path: str, written: nat, flushed: bool) returns (ok: bool)
      requires namespaces.Valid() && log.Valid()
      modifies namespaces, namespaces.repr, log
      ensures Served(CreateDirectoryRequest(path), true, true, written, flushed, ok)
      ensures namespaces.Valid() && log.Valid() && fresh(namespaces.repr - old(namespaces.repr))
    {
      hide DueRecord, Appending, Registers, Startup.LogAfter, Live, Inv, Apply, RecordOf, CanCreate, RecordFor, Space.NamespaceManager.Valid, Space.NamespaceManager.View,
        Log.OperationLog.Valid, Meta.Metadata.State;
      ghost var s, r, op := State(), CreateDirectoryRequest(path), OpCreateDirectory(path);
      CreateDirectoryIs(s, path);
      DueIsRecord(s, r);
      ghost var env := Outside(r, true, true, written, flushed);
      var taken := namespaces.Exists(path);
      if taken {
        Refused(s, r, env);
        return false;
      }
      var how := AppendOperation(OpCreateDirectory(path), written, flushed);
      if how != Written {
        Unlogged(s, r, op, env);
        return false;
      }
      ok := namespaces.Create(path, Directory);
      Applied(s, r, op, env);
    }

    method CreateFile(path: str, requested: u32, live: nat, default: u32, written: nat, flushed: bool)
      returns (ok: bool)
      requires namespaces.Valid() && log.Valid()
      modifies metadata, namespaces, namespaces.repr, log
      ensures Served(CreateFileRequest(path, requested, live, default), true, true, written, flushed, ok)
      ensures ok ==>
                && ResolveFactor(requested, live, default) != None
                && metadata.files == old(metadata.files)[path := FileMeta(0, ResolveFactor(requested, live, default).value, [])]
                && metadata.chunks == old(metadata.chunks) && metadata.next == old(metadata.next)
      ensures namespaces.Valid() && log.Valid() && fresh(namespaces.repr - old(namespaces.repr))
    {
      hide DueRecord, Appending, Registers, Startup.LogAfter, Live, Inv, Apply, RecordOf, RecordFor, Space.NamespaceManager.Valid, Space.NamespaceManager.View,
        Log.OperationLog.Valid, Meta.Metadata.State, ApplyCreateFile, ResolveFactor;
      ghost var s, r := State(), CreateFileRequest(path, requested, live, default);
      CreateFileIs(s, path, requested, live, default);
      DueIsRecord(s, r);
      ghost var env := Outside(r, true, true, written, flushed);
      var taken := namespaces.Exists(path);
      if path == [] || taken {
        Refused(s, r, env);
        return false;
      }
      var resolved := Replication(requested, live, default);
      if resolved == None {
        Refused(s, r, env);
        return false;
      }
      var factor := resolved.value;
      ghost var op := OpCreateFile(path, factor);
      var how := AppendOperation(OpCreateFile(path, factor), written, flushed);
      if how != Written {
        Unlogged(s, r, op, env);
        return false;
      }
      Applied(s, r, op, env);
      ok := CreateEverywhere(path, factor, s);
    }

    /** The factor of a new file: a given one must not exceed the live servers, and the default is
        lowered to them. */
    method Replication(requested: u32, live: nat, default: u32) returns (factor: Option<u32>)
      ensures factor == ResolveFactor(requested, live, default)
    {
      var f := requested;
      if f == 0 {
        f := if 0 < live < default then live else default;
      } else if 0 < live < f {
        return None;
      }
      factor := if f == 0 then None else Some(f);
    }

    /** The namespace first, then the file table; if the table refuses, the namespace is rolled back. */
    method CreateEverywhere(path: str, factor: u32, ghost s: Durable) returns (ok: bool)
      requires namespaces.Valid() && s == Durable(namespaces.View(), metadata.State())
      modifies metadata, namespaces, namespaces.repr
      ensures Step(Durable(namespaces.View(), metadata.State()), ok) == ApplyCreateFile(s, path, factor)
      ensures ok ==> metadata.files == old(metadata.files)[path := FileMeta(0, factor, [])]
      ensures ok ==> metadata.chunks == old(metadata.chunks) && metadata.next == old(metadata.next)
      ensures namespaces.Valid() && fresh(namespaces.repr - old(namespaces.repr))
    {
      hide Space.NamespaceManager.Valid, Space.NamespaceManager.View, Meta.Metadata.State, CanCreate, ChunkTables.CreateFile;
      CreateApplies(s, path, factor);
      ok := namespaces.Create(path, File);
      if !ok {
        return;
      }
      ok := metadata.CreateFile(path, factor);
      if !ok {
        var undone := namespaces.DeleteFile(path);
      }
    }

    method DeleteFile(path: str, written: nat, flushed: bool) returns (ok: bool)
      requires namespaces.Valid() && log.Valid() && replicas.Valid()
      modifies this, metadata, namespaces, namespaces.repr, replicas, log
      ensures Served(DeleteFileRequest(path), true, true, written, flushed, ok)
      ensures namespaces.Valid() && log.Valid() && replicas.Valid() && fresh(namespaces.repr - old(namespaces.repr))
      ensures orphans == old(orphans) + if IsFile(old(namespaces.View()), path) then SoleReferences(old(metadata.State()), path) else {}
      ensures ok ==> leases == old(leases) - Unreferenced(metadata.State(), ChunksOf(old(metadata.State()), path))
      ensures ok ==> replicas.replicas == old(replicas.replicas) - Unreferenced(metadata.State(), ChunksOf(old(metadata.State()), path))
      ensures !ok ==> leases == old(leases) && replicas.replicas == old(replicas.replicas)
    {
      hide DueRecord, Appending, Registers, Startup.LogAfter, Live, Inv, Apply, RecordOf, RecordFor, Space.NamespaceManager.Valid, Space.NamespaceManager.View,
        Log.OperationLog.Valid, ChunkTables.DeleteFile, SoleReferences, Unreferenced, Placement.ReplicaManager.Valid;
      ghost var s, r, op := State(), DeleteFileRequest(path), OpDeleteFile(path);
      DeleteFileIs(s, path);
      DueIsRecord(s, r);
      ghost var env := Outside(r, true, true, written, flushed);
      var isFile := namespaces.IsFileAt(path);
      if !isFile {
        Refused(s, r, env);
        return false;
      }
      var chunks := if path in metadata.files then metadata.files[path].chunks else [];
      MarkOrphans(path, chunks);
      var how := AppendOperation(OpDeleteFile(path), written, flushed);
      if how != Written {
        Unlogged(s, r, op, env);
        return false;
      }
      Applied(s, r, op, env);
      ok := metadata.DeleteFile(path);
      if !ok {
        return;
      }
      ForgetUnreferenced(chunks);
      ok := namespaces.DeleteFile(path);
    }

    /** Marks the chunks of a file that no other file lists. */
    method MarkOrphans(path: str, chunks: seq<Handle>)
      requires chunks == ChunksOf(metadata.State(), path)
      modifies this`orphans
      ensures orphans == old(orphans) + SoleReferences(metadata.State(), path)
    {
      hide References;
      for i := 0 to |chunks|
        invariant orphans == old(orphans) + set h | h in chunks[..i] && References(metadata.State(), h) == 1
      {
        assert chunks[..i + 1] == chunks[..i] + [chunks[i]];
        var count := metadata.GetChunkReferenceCount(chunks[i]);
        if count == 1 {
          orphans := orphans + {chunks[i]};
        }
      }
      assert chunks[..|chunks|] == chunks;
    }

    /** Drops replicas and leases of the chunks that no file lists any more. */
    method ForgetUnreferenced(chunks: seq<Handle>)
      requires replicas.Valid()
      modifies this`leases, replicas
      ensures replicas.Valid()
      ensures leases == old(leases) - Unreferenced(metadata.State(), chunks)
      ensures replicas.replicas == old(replicas.replicas) - Unreferenced(metadata.State(), chunks)
    {
      hide References, ValidList;
      ghost var gone: set<Handle> := {};
      for i := 0 to |chunks|
        invariant replicas.Valid()
        invariant gone == set h | h in chunks[..i] && References(metadata.State(), h) == 0
        invariant leases == old(leases) - gone && replicas.replicas == old(replicas.replicas) - gone
      {
        assert chunks[..i + 1] == chunks[..i] + [chunks[i]];
        var count := metadata.GetChunkReferenceCount(chunks[i]);
        if count == 0 {
          var _ := replicas.RemoveChunk(chunks[i]);
          leases := leases - {chunks[i]};
          gone := gone + {chunks[i]};
        }
      }
      assert chunks[..|chunks|] == chunks;
    }

    method RenameFile(source: str, destination: str, written: nat, flushed: bool) returns (ok: bool)
      requires namespaces.Valid() && log.Valid()
      modifies metadata, namespaces, namespaces.repr, log
      ensures Served(RenameFileRequest(source, destination), true, true, written, flushed, ok)
      ensures ok ==>
                && source in old(metadata.files)
                && metadata.files == (old(metadata.files) - {source})[destination := old(metadata.files)[source]]
                && metadata.chunks == old(metadata.chunks) && metadata.next == old(metadata.next)
      ensures namespaces.Valid() && log.Valid() && fresh(namespaces.repr - old(namespaces.repr))
    {
      hide DueRecord, Appending, Registers, Startup.LogAfter, Live, Inv, Apply, RecordOf, RecordFor, Space.NamespaceManager.Valid, Space.NamespaceManager.View,
        Log.OperationLog.Valid, Meta.Metadata.State, CanRename, Renamed, ChunkTables.RenameFile, WellFormed;
      ghost var s, r, op := State(), RenameFileRequest(source, destination), OpRenameFile(source, destination);
      RenameFileIs(s, source, destination);
      namespaces.ViewIsWellFormed();
      DueIsRecord(s, r);
      ghost var env := Outside(r, true, true, written, flushed);
      var isFile := namespaces.IsFileAt(source);
      var taken := namespaces.Exists(destination);
      if !isFile || taken {
        Refused(s, r, env);
        return false;
      }
      var how := AppendOperation(OpRenameFile(source, destination), written, flushed);
      if how != Written {
        Unlogged(s, r, op, env);
        return false;
      }
      Applied(s, r, op, env);
      ok := namespaces.Rename(source, destination);
      if !ok {
        return;
      }
      ok := metadata.RenameFile(source, destination);
      if !ok {
        RenameBack(s.ns, source, destination);
        var undone := namespaces.Rename(destination, source);
      }
    }

    // ----- the operations on the tables -----

    method UpdateFileSize(path: str, size: u64, written: nat, flushed: bool) returns (ok: bool)
      requires log.Valid()
      modifies metadata, log
      ensures Served(UpdateFileSizeRequest(path, size), true, true, written, flushed, ok)
      ensures ok ==>
                && path in old(metadata.files)
                && metadata.files == old(metadata.files)[path := FileMeta(size, old(metadata.files)[path].factor, old(metadata.files)[path].chunks)]
      ensures log.Valid()
    {
      hide DueRecord, Appending, Registers, Startup.LogAfter, Live, Inv, Apply, RecordOf, RecordFor, Space.NamespaceManager.View, Log.OperationLog.Valid, ChunkTables.UpdateFileSize;
      ghost var s, r := State(), UpdateFileSizeRequest(path, size);
      UpdateFileSizeIs(s, path, size);
      DueIsRecord(s, r);
      ghost var env := Outside(r, true, true, written, flushed);
      if path !in metadata.files {
        Refused(s, r, env);
        return false;
      }
      ghost var op := OpUpdateFileSize(path, size);
      var how := AppendOperation(OpUpdateFileSize(path, size), written, flushed);
      if how != Written {
        Unlogged(s, r, op, env);
        return false;
      }
      Applied(s, r, op, env);
      ok := metadata.UpdateFileSize(path, size);
    }

    method SetChunkVersion(h: Handle, version: u64, written: nat, flushed: bool) returns (ok: bool)
      requires log.Valid()
      modifies metadata, log
      ensures Served(SetChunkVersionRequest(h, version), true, true, written, flushed, ok)
      ensures ok ==>
                && h in old(metadata.chunks)
                && metadata.chunks == old(metadata.chunks)[h := ChunkMeta(version, old(metadata.chunks)[h].size)]
      ensures log.Valid()
    {
      hide DueRecord, Appending, Registers, Startup.LogAfter, Live, Inv, Apply, RecordOf, RecordFor, Space.NamespaceManager.View, Log.OperationLog.Valid, ChunkTables.SetChunkVersion;
      ghost var s, r := State(), SetChunkVersionRequest(h, version);
      SetChunkVersionIs(s, h, version);
      DueIsRecord(s, r);
      ghost var env := Outside(r, true, true, written, flushed);
      if h !in metadata.chunks || version == 0 {
        Refused(s, r, env);
        return false;
      }
      ghost var op := OpSetChunkVersion(h, version);
      var how := AppendOperation(OpSetChunkVersion(h, version), written, flushed);
      if how != Written {
        Unlogged(s, r, op, env);
        return false;
      }
      Applied(s, r, op, env);
      ok := metadata.SetChunkVersion(h, version);
    }

    method SetChunkSize(h: Handle, size: u64, written: nat, flushed: bool) returns (ok: bool)
      requires log.Valid()
      modifies metadata, log
      ensures Served(SetChunkSizeRequest(h, size), true, true, written, flushed, ok)
      ensures ok ==>
                && h in old(metadata.chunks)
                && metadata.chunks == old(metadata.chunks)[h := ChunkMeta(old(metadata.chunks)[h].version, size)]
      ensures log.Valid()
    {
      hide DueRecord, Appending, Registers, Startup.LogAfter, Live, Inv, Apply, RecordOf, RecordFor, Space.NamespaceManager.View, Log.OperationLog.Valid, ChunkTables.SetChunkSize;
      ghost var s, r := State(), SetChunkSizeRequest(h, size);
      SetChunkSizeIs(s, h, size);
      DueIsRecord(s, r);
      ghost var env := Outside(r, true, true, written, flushed);
      if h !in metadata.chunks {
        Refused(s, r, env);
        return false;
      }
      ghost var op := OpSetChunkSize(h, size);
      var how := AppendOperation(OpSetChunkSize(h, size), written, flushed);
      if how != Written {
        Unlogged(s, r, op, env);
        return false;
      }
      Applied(s, r, op, env);
      ok := metadata.SetChunkSize(h, size);
    }

    method AddChunkToFile(path: str, h: Handle, written: nat, flushed: bool) returns (ok: bool)
      requires log.Valid()
      modifies metadata, log
      ensures Served(AddChunkToFileRequest(path, h), true, true, written, flushed, ok)
      ensures ok ==> path in old(metadata.files) && var f := old(metadata.files)[path];
                metadata.files == old(metadata.files)[path := FileMeta(f.size, f.factor, f.chunks + [h])]
      ensures log.Valid()
    {
      hide DueRecord, Appending, Registers, Startup.LogAfter, Live, Inv, Apply, RecordOf, RecordFor, Space.NamespaceManager.View, Log.OperationLog.Valid, ChunkTables.AddChunkToFile;
      ghost var s, r := State(), AddChunkToFileRequest(path, h);
      AddChunkToFileIs(s, path, h);
      DueIsRecord(s, r);
      ghost var env := Outside(r, true, true, written, flushed);
      if path !in metadata.files || h !in metadata.chunks {
        Refused(s, r, env);
        return false;
      }
      ghost var op := OpAddChunkToFile(path, h);
      var how := AppendOperation(OpAddChunkToFile(path, h), written, flushed);
      if how != Written {
        Unlogged(s, r, op, env);
        return false;
      }
      Applied(s, r, op, env);
      ok := metadata.AddChunkToFile(path, h);
    }

    method RemoveChunkFromFile(path: str, h: Handle, written: nat, flushed: bool) returns (ok: bool)
      requires log.Valid()
      modifies metadata, log, this`orphans
      ensures Served(RemoveChunkFromFileRequest(path, h), true, true, written, flushed, ok)
      ensures log.Valid()
      ensures orphans == old(orphans) + if ok && References(metadata.State(), h) == 0 then {h} else {}
    {
      hide DueRecord, Appending, Registers, Startup.LogAfter, Live, Inv, Apply, RecordOf, RecordFor, Space.NamespaceManager.View, Log.OperationLog.Valid, ChunkTables.RemoveChunkFromFile;
      ghost var s, r := State(), RemoveChunkFromFileRequest(path, h);
      RemoveChunkFromFileIs(s, path, h);
      DueIsRecord(s, r);
      ghost var env := Outside(r, true, true, written, flushed);
      if path !in metadata.files || h !in metadata.chunks {
        Refused(s, r, env);
        return false;
      }
      ghost var op := OpRemoveChunkFromFile(path, h);
      var how := AppendOperation(OpRemoveChunkFromFile(path, h), written, flushed);
      if how != Written {
        Unlogged(s, r, op, env);
        return false;
      }
      Applied(s, r, op, env);
      ok := metadata.RemoveChunkFromFile(path, h);
      if ok {
        var count := metadata.GetChunkReferenceCount(h);
        if count == 0 {
          orphans := orphans + {h};
        }
      }
    }

    method AllocateChunk(path: str, written: nat, flushed: bool) returns (ok: bool, h: Handle)
      requires log.Valid()
      modifies metadata, log
      ensures Served(AllocateChunkRequest(path), true, true, written, flushed, ok)
      ensures ok ==> path in old(metadata.files) && var f := old(metadata.files)[path];
                && metadata.files == old(metadata.files)[path := FileMeta(f.size, f.factor, f.chunks + [h])]
                && metadata.chunks == old(metadata.chunks)[h := ChunkMeta(1, 0)] && metadata.next == h + 1
      ensures log.Valid()
      ensures h == old(metadata.next)
    {
      hide DueRecord, Appending, Registers, Startup.LogAfter, Live, Inv, Apply, RecordOf, RecordFor, Space.NamespaceManager.View, Log.OperationLog.Valid, ChunkTables.AllocateChunk;
      ghost var s, r := State(), AllocateChunkRequest(path);
      AllocateChunkIs(s, path);
      DueIsRecord(s, r);
      ghost var env := Outside(r, true, true, written, flushed);
      h := metadata.next;
      if path !in metadata.files || h == 0 {
        Refused(s, r, env);
        return false, h;
      }
      ghost var op := OpAllocateChunk(path, h, 1, 0);
      var how := AppendOperation(OpAllocateChunk(path, h, 1, 0), written, flushed);
      if how != Written {
        Unlogged(s, r, op, env);
        return false, h;
      }
      Applied(s, r, op, env);
      ok := metadata.AllocateChunk(path, h, 1, 0);
    }

    /** Collects a chunk that no file lists.  The deletion on the chunkservers comes after the log
        record and may fail. */
    method GarbageCollectChunk(h: Handle, deleted: bool, written: nat, flushed: bool) returns (ok: bool)
      requires log.Valid() && replicas.Valid()
      modifies this, metadata, replicas, log
      ensures Served(CollectRequest(h), deleted, true, written, flushed, ok)
      ensures log.Valid() && replicas.Valid()
      ensures orphans == if ok then old(orphans) - {h} else old(orphans)
      ensures ok ==> h !in metadata.chunks
      ensures leases == old(leases) - if ok && h in old(metadata.chunks) then {h} else {}
      ensures replicas.replicas == old(replicas.replicas) - if ok && h in old(metadata.chunks) then {h} else {}
    {
      hide DueRecord, Appending, Registers, Startup.LogAfter, Live, Inv, Apply, RecordOf, RecordFor, Space.NamespaceManager.View, Log.OperationLog.Valid, References, ValidList;
      ghost var s, r, op := State(), CollectRequest(h), OpDeleteChunk(h);
      CollectIs(s, h);
      DueIsRecord(s, r);
      ghost var env := Outside(r, deleted, true, written, flushed);
      var count := metadata.GetChunkReferenceCount(h);
      if h == 0 || count != 0 {
        return false;
      }
      if h !in metadata.chunks {
        orphans := orphans - {h};
        return true;
      }
      var how := AppendOperation(OpDeleteChunk(h), written, flushed);
      if how != Written {
        Unlogged(s, r, op, env);
        return false;
      }
      Applied(s, r, op, env);
      if !deleted {
        return false;
      }
      var _ := replicas.RemoveChunk(h);
      leases := leases - {h};
      ok := metadata.DeleteChunk(h);
      orphans := orphans - {h};
    }

    // ----- snapshots -----

    method ReleaseLeases(chunks: seq<Handle>)
      modifies this`leases
      ensures leases == old(leases) - set h | h in chunks
    {
      for i := 0 to |chunks|
        invariant leases == old(leases) - set h | h in chunks[..i]
      {
        assert chunks[..i + 1] == chunks[..i] + [chunks[i]];
        leases := leases - {chunks[i]};
      }
      assert chunks[..|chunks|] == chunks;
    }

    lemma FilesOfState()
      ensures metadata.State().files == metadata.files
    {}

    /** Undoes a copy: the files in reverse order, then the directories in reverse order. */
    method Rollback(files: seq<str>, dirs: seq<str>, ghost s: Durable, ghost c: Copy)
      requires namespaces.Valid()
      requires WellFormed(s.ns) && FilesHaveNodes(s) && Undoable(s, c) && c.files == files && c.dirs == dirs
      requires Durable(namespaces.View(), metadata.State()) == With(s, c)
      modifies metadata, namespaces, namespaces.repr
      ensures namespaces.Valid() && namespaces.repr == old(namespaces.repr)
      ensures Durable(namespaces.View(), metadata.State()) == s
    {
      hide *;
      NothingRemoved(s, c, files);
      var i := |files|;
      while i > 0
        invariant 0 <= i <= |files|
        invariant namespaces.Valid() && namespaces.repr == old(namespaces.repr)
        invariant namespaces.View() == s.ns + (c.made - Keys(files[i..]))
        invariant metadata.State() == s.tables.(files := s.tables.files + (c.clones - Keys(files[i..])))
      {
        i := i - 1;
        FileDropped(s, c, i);
        FileRemoved(s, c, i);
        var _ := metadata.DeleteFile(files[i]);
        var _ := namespaces.DeleteFile(files[i]);
      }
      OnlyDirectoriesLeft(s, c);
      var j := |dirs|;
      while j > 0
        invariant 0 <= j <= |dirs|
        invariant namespaces.Valid() && namespaces.repr == old(namespaces.repr)
        invariant namespaces.View() == s.ns + (c.made - Keys(files) - Keys(dirs[j..]))
        invariant metadata.State() == s.tables.(files := s.tables.files + (c.clones - Keys(files[0..])))
      {
        j := j - 1;
        DirectoryRemoved(s, c, j);
        var _ := namespaces.DeleteDirectory(dirs[j]);
      }
      assert dirs[0..] == dirs && files[0..] == files;
      AllRemoved(s, c);
    }

    /** Copies one node.  A file that was made but whose entry could not be cloned counts as made. */
    method CopyNode(e: NodeInfo, destination: str, ghost s: Durable, ghost c: Copy) returns (ok: bool, made: bool, ghost c': Copy)
      requires namespaces.Valid()
      requires WellFormed(s.ns) && FilesHaveNodes(s) && Undoable(s, c) && e.path in s.ns
      requires Durable(namespaces.View(), metadata.State()) == With(s, c)
      modifies this`leases, metadata, namespaces, namespaces.repr
      ensures namespaces.Valid() && fresh(namespaces.repr - old(namespaces.repr))
      ensures Undoable(s, c') && Durable(namespaces.View(), metadata.State()) == With(s, c')
      ensures c'.files == c.files + if made && e.kind == File then [destination] else []
      ensures c'.dirs == c.dirs + if made && e.kind == Directory then [destination] else []
      ensures ok ==> made && destination !in c.made && c'.made == c.made[destination := e.kind]
      ensures ok && e.kind == Directory ==> c'.clones == c.clones && leases == old(leases)
      ensures ok && e.kind == File ==>
                && e.path in s.tables.files && c'.clones == c.clones[destination := s.tables.files[e.path]]
                && leases == old(leases) - set h | h in s.tables.files[e.path].chunks
      ensures !ok ==> leases == old(leases)
      ensures ok <==> && CanCreate(With(s, c).ns, destination)
                      && (e.kind == File ==> e.path in s.tables.files && CloneFile(With(s, c).tables, e.path, destination).ok)
    {
      hide *;
      FilesOfState();
      CopyFacts(s, c, e, destination);
      CreatableIsNew(With(s, c).ns, destination);
      ok, made, c' := false, false, c;
      if e.kind == Directory {
        made := namespaces.Create(destination, Directory);
        if made {
          c' := AnotherDirectory(s, c, destination);
        }
        return made, made, c';
      }
      if e.path !in metadata.files {
        return;
      }
      var file := metadata.files[e.path];
      made := namespaces.Create(destination, File);
      if !made {
        return;
      }
      c' := AnotherFile(s, c, destination);
      CloneSame(s, c, c', e.path, destination);
      ok := metadata.CloneFileMetadata(e.path, destination);
      if ok {
        c' := AnotherClone(s, c', e.path, destination);
        ReleaseLeases(file.chunks);
      }
    }

    method SnapshotFile(source: str, destination: str, ghost s: Durable) returns (ok: bool)
      requires namespaces.Valid() && WellFormed(s.ns) && FilesHaveNodes(s) && s == Durable(namespaces.View(), metadata.State())
      requires IsFile(s.ns, source) && source != []
      modifies this`leases, metadata, namespaces, namespaces.repr
      ensures namespaces.Valid() && fresh(namespaces.repr - old(namespaces.repr))
      ensures !ok ==> Durable(namespaces.View(), metadata.State()) == s && leases == old(leases)
      ensures ok ==> leases == old(leases) - ChunksUnder(s.tables.files, source)
      ensures Inv(s) ==> Step(Durable(namespaces.View(), metadata.State()), ok) == ApplyCreateSnapshot(s, source, destination)
    {
      hide *;
      FilesOfState();
      if Inv(s) {
        SnapshotFileApplied(s, source, destination);
      }
      if source !in metadata.files {
        return false;
      }
      FileChunksUnder(s, source);
      var file := metadata.files[source];
      var created := namespaces.Create(destination, File);
      if !created {
        return false;
      }
      SnapshotFileUndone(s, source, destination);
      ok := metadata.CloneFileMetadata(source, destination);
      if !ok {
        var _ := metadata.DeleteFile(destination);
        var _ := namespaces.DeleteFile(destination);
        return false;
      }
      ReleaseLeases(file.chunks);
    }

    method SnapshotDirectory(source: str, destination: str, ghost s: Durable) returns (ok: bool)
      requires namespaces.Valid() && WellFormed(s.ns) && FilesHaveNodes(s) && s == Durable(namespaces.View(), metadata.State())
      requires !IsFile(s.ns, source)
      modifies this`leases, metadata, namespaces, namespaces.repr
      ensures namespaces.Valid() && fresh(namespaces.repr - old(namespaces.repr))
      ensures !ok ==> Durable(namespaces.View(), metadata.State()) == s && leases <= old(leases)
      ensures ok ==> leases == old(leases) - ChunksUnder(s.tables.files, source)
      ensures Inv(s) ==> Step(Durable(namespaces.View(), metadata.State()), ok) == ApplyCreateSnapshot(s, source, destination)
    {
      hide *;
      var nodes := namespaces.ExportNodes();
      var affected := SelectAffected(nodes, source, s.ns);
      var created := namespaces.Create(destination, Directory);
      if !created {
        SnapshotRefused(s, source, destination);
        return false;
      }
      ghost var c := FirstCopied(s, source, destination, affected);
      var files: seq<str>, dirs: seq<str> := [], [destination];
      for i := 0 to |affected|
        invariant namespaces.Valid() && fresh(namespaces.repr - old(namespaces.repr))
        invariant Undoable(s, c) && Durable(namespaces.View(), metadata.State()) == With(s, c) && c.files == files && c.dirs == dirs
        invariant Copied(s, source, destination, affected, i, c)
        invariant leases == old(leases) - ChunksListed(s.tables.files, affected[..i])
      {
        var e := affected[i];
        SubtreeNode(affected, s.ns, source, i);
        ListedSnoc(s.tables.files, affected, i);
        if e.path == source {
          SourceIsDirectory(s, source, e);
          SourceCopied(s, source, destination, affected, i, c);
        } else {
          SnapshotNodeSucceeds(s, source, destination, affected, i, c);
          var target := Relocate(source, destination, e.path);
          ImageIs(source, destination, e);
          ghost var before := c;
          var done, made;
          done, made, c := CopyNode(e, target, s, c);
          if made && e.kind == Directory {
            dirs := dirs + [target];
          } else if made {
            files := files + [target];
          }
          if !done {
            Rollback(files, dirs, s, c);
            if Inv(s) {
              SnapshotFailsOnlyForEmpty(s, source, destination, affected, i);
            }
            return false;
          }
          NodeCopied(s, source, destination, affected, i, before, c);
        }
      }
      assert affected[..|affected|] == affected;
      ListedIsUnder(s, source, affected);
      namespaces.ViewIsWellFormed();
      SnapshotComplete(s, source, destination, affected, c);
      ok := true;
    }

    /** The snapshot of a subtree, as it is made both live and in replay. */
    method CreateSnapshotInternal(source: str, destination: str, ghost s: Durable) returns (ok: bool)
      requires namespaces.Valid() && FilesHaveNodes(s) && s == Durable(namespaces.View(), metadata.State())
      modifies this`leases, metadata, namespaces, namespaces.repr
      ensures namespaces.Valid() && fresh(namespaces.repr - old(namespaces.repr))
      ensures !ok ==> Durable(namespaces.View(), metadata.State()) == s && leases <= old(leases)
      ensures ok ==> leases == old(leases) - ChunksUnder(s.tables.files, source)
      ensures Inv(s) ==> Step(Durable(namespaces.View(), metadata.State()), ok) == ApplyCreateSnapshot(s, source, destination)
    {
      hide *;
      namespaces.ViewIsWellFormed();
      var isFile := namespaces.IsFileAt(source);
      if isFile {
        FileIsNotEmpty(s.ns, source);
        ok := SnapshotFile(source, destination, s);
      } else {
        ok := SnapshotDirectory(source, destination, s);
      }
    }

    method CreateSnapshot(source: str, destination: str, written: nat, flushed: bool) returns (ok: bool)
      requires namespaces.Valid() && log.Valid() && Inv(State())
      modifies this`leases, metadata, namespaces, namespaces.repr, log
      ensures Served(CreateSnapshotRequest(source, destination), true, true, written, flushed, ok)
      ensures namespaces.Valid() && log.Valid() && fresh(namespaces.repr - old(namespaces.repr))
      ensures ok ==> leases == old(leases) - ChunksUnder(old(metadata.files), source)
      ensures !ok ==> State() == old(State()) && leases <= old(leases)
    {
      hide DueRecord, Appending, Registers, Startup.LogAfter, Live, Inv, Apply, RecordOf, RecordFor, Space.NamespaceManager.Valid, Space.NamespaceManager.View, WellFormed,
        Log.OperationLog.Valid, Meta.Metadata.State, ApplyCreateSnapshot, FilesHaveNodes, ChunksUnder;
      ghost var s, r, op := State(), CreateSnapshotRequest(source, destination), OpCreateSnapshot(source, destination);
      CreateSnapshotIs(s, source, destination);
      InvMeansNodes(s);
      FilesOfState();
      DueIsRecord(s, r);
      ghost var env := Outside(r, true, true, written, flushed);
      var present := namespaces.Exists(source);
      var taken := namespaces.Exists(destination);
      if source == [] || destination == [] || source == destination || !present || taken || destination == ROOT {
        Refused(s, r, env);
        return false;
      }
      var how := AppendOperation(OpCreateSnapshot(source, destination), written, flushed);
      if how != Written {
        Unlogged(s, r, op, env);
        return false;
      }
      Applied(s, r, op, env);
      ok := CreateSnapshotInternal(source, destination, s);
    }

    // ----- copy-on-write -----

    /** Registers a list of servers for a chunk, the first as primary, until one is refused. */
    method RegisterAll(h: Handle, servers: seq<ServerId>) returns (registered: bool)
      requires replicas.Valid() && h != 0 && NoDuplicates(servers) && 0 !in servers
      modifies replicas
      ensures replicas.Valid()
      ensures registered <==> forall x :: x in servers ==> x !in ServersAt(old(replicas.replicas), h)
      ensures registered ==> ServersAt(replicas.replicas, h) == ServersAt(old(replicas.replicas), h) + servers
      ensures registered && servers != [] ==> PrimaryAt(replicas.replicas, h) == Some(servers[0])
      ensures forall k :: k != h ==> ListAt(replicas.replicas, k) == ListAt(old(replicas.replicas), k)
    {
      ghost var before := replicas.replicas;
      hide *;
      ReplicasAreValid();
      RegistrationStarts(before, h, servers);
      var primaryRegistered := false;
      for i := 0 to |servers|
        invariant replicas.Valid() && (primaryRegistered <==> i > 0)
        invariant RegisteredUpTo(before, replicas.replicas, h, servers, i)
      {
        ReplicasAreValid();
        RegistrationStep(before, replicas.replicas, h, servers, i);
        var ok := replicas.RegisterReplica(h, servers[i], !primaryRegistered);
        if !ok {
          return false;
        }
        primaryRegistered := true;
      }
      RegistrationEnds(before, replicas.replicas, h, servers);
      registered := true;
    }

    lemma ReplicasAreValid()
      ensures replicas.Valid() <==> ValidReplicas(replicas.replicas)
    {
      hide ValidReplicas;
    }

    /** Takes back the fresh chunk. */
    method DropChunk(h: Handle)
      requires replicas.Valid() && h != 0
      modifies replicas, metadata
      ensures replicas.Valid() && replicas.replicas == old(replicas.replicas) - {h}
      ensures forall k :: k != h ==> ListAt(replicas.replicas, k) == ListAt(old(replicas.replicas), k)
      ensures metadata.State() == DeleteChunk(old(metadata.State()), h).state
    {
      DroppedLists(replicas.replicas, h);
      hide Meta.Metadata.State, ChunkTables.DeleteChunk, ValidReplicas;
      var _ := replicas.RemoveChunk(h);
      var _ := metadata.DeleteChunk(h);
    }

    lemma StateOfTables()
      ensures metadata.State() == Tables(metadata.files, metadata.chunks, metadata.next)
    {}

    /** Allocates the fresh chunk and registers it on the servers of the old one; a chunk that cannot be
        registered everywhere is taken back. */
    method AllocateCopy(from: Handle, path: str, index: u64, ghost s: Durable) returns (registered: bool)
      requires replicas.Valid() && Inv(s) && metadata.State() == s.tables
      requires Shared(s, path, index) && from == Slot(s, path, index) && s.tables.next != 0
      modifies metadata, replicas
      ensures replicas.Valid()
      ensures registered <==> Allocated(s, path, index).ok && Registers(old(replicas.replicas), s, CopyOnWriteRequest(path, index))
      ensures metadata.State() == if registered || !Allocated(s, path, index).ok then Allocated(s, path, index).state
                                  else s.tables.(next := Allocated(s, path, index).state.next)
      ensures registered ==>
                ServersAt(replicas.replicas, s.tables.next) ==
                ServersAt(old(replicas.replicas), s.tables.next) + ServersAt(old(replicas.replicas), from)
      ensures registered && ServersAt(old(replicas.replicas), from) != [] ==>
                PrimaryAt(replicas.replicas, s.tables.next) == Some(ServersAt(old(replicas.replicas), from)[0])
      ensures forall k :: k != s.tables.next ==> ListAt(replicas.replicas, k) == ListAt(old(replicas.replicas), k)
    {
      CopySource(s, path, index);
      CopyOnWriteDue(s, replicas.replicas, path, index);
      StateOfTables();
      ServersAreDistinct(replicas.replicas, from);
      hide *;
      var chunk := metadata.chunks[from];
      var servers := Servers(ListAt(replicas.replicas, from));
      var h := metadata.next;
      registered := metadata.AllocateStandaloneChunk(h, chunk.version, chunk.size);
      if !registered {
        return;
      }
      AllocationUndone(s, h, chunk.version, chunk.size);
      registered := RegisterAll(h, servers);
      if !registered {
        DropChunk(h);
      }
    }

    /** Puts the cloned chunk into the slot and logs the exchange.  If cloning or logging has failed,
        slot and chunk are taken back. */
    method InstallCopy(path: str, index: u64, from: Handle, h: Handle, chunk: ChunkMeta, cloned: bool, written: nat, flushed: bool,
                       ghost s: Durable, ghost env: Env)
      returns (ok: bool)
      requires log.Valid() && replicas.Valid() && Inv(s) && metadata.State() == CopyAllocated(s, path, index)
      requires Installing(s, path, index, from, h, chunk) && env.registered && env.cloned == cloned
      requires env.logging == Appending(log.open, log.lastSequence, OpCopyOnWrite(path, index, from, h, chunk.version, chunk.size), written, flushed)
      modifies metadata, replicas, log
      ensures ok == CopyOnWrite(s, path, index, env).ok
      ensures metadata.State() == CopyOnWrite(s, path, index, env).state.tables
      ensures Logs(CopyOnWrite(s, path, index, env).logged)
      ensures ok ==> replicas.replicas == old(replicas.replicas) && OwnSlot(metadata.State(), path, index, h)
      ensures forall k :: k != h ==> ListAt(replicas.replicas, k) == ListAt(old(replicas.replicas), k)
      ensures log.Valid() && replicas.Valid()
    {
      hide CopyAllocated, Installing, CopyOnWrite, Inv, OwnSlot, ReplaceChunkInFile, ChunkTables.DeleteChunk, ListAt, Appending,
        Startup.LogAfter, RecordFor, Log.OperationLog.Valid, Placement.ReplicaManager.Valid, Meta.Metadata.State;
      InstallOutcomes(s, path, index, from, h, chunk, env);
      if !cloned {
        DropChunk(h);
        return false;
      }
      var replaced := metadata.ReplaceChunkInFile(path, index, h);
      if !replaced {
        assert false;
        return false;
      }
      var how := AppendOperation(OpCopyOnWrite(path, index, from, h, chunk.version, chunk.size), written, flushed);
      if how != Written {
        var _ := metadata.ReplaceChunkInFile(path, index, from);
        DropChunk(h);
        return false;
      }
      ok := true;
    }

    /** Gives a slot of a file a chunk of its own before it is written: a chunk that other files
        list too is replaced by a fresh one, registered on the same servers and cloned there.  Every
        failure takes the tables back to where they were, up to the handle counter. */
    method PrepareCopyOnWrite(path: str, index: u64, cloned: bool, written: nat, flushed: bool)
      returns (result: Option<Handle>)
      requires log.Valid() && replicas.Valid() && Inv(State())
      modifies this`leases, metadata, replicas, log
      ensures Served(CopyOnWriteRequest(path, index), true, cloned, written, flushed, result != None)
      ensures result != None ==> OwnSlot(metadata.State(), path, index, result.value)
      ensures CopyPlaced(old(State()), path, index, result, old(replicas.replicas), replicas.replicas, old(leases), leases)
      ensures log.Valid() && replicas.Valid()
    {
      hide DueRecord, Appending, Registers, Startup.LogAfter, Live, Inv, Space.NamespaceManager.View, Log.OperationLog.Valid,
        Placement.ReplicaManager.Valid, RecordFor, References, Shared, Allocated, CopyOnWrite, CopyOnWriteTables, OwnSlot, CopyPlaced,
        Servers, ListAt, CopyAllocated, Installing, HasSlot, Slot;
      ghost var s, r, before, leased := State(), CopyOnWriteRequest(path, index), replicas.replicas, leases;
      ghost var env := Outside(r, true, cloned, written, flushed);
      LiveCopyOnWrite(s, path, index);
      CopyOnWriteDue(s, before, path, index);
      CopyOnWriteLeaves(s, path, index, env);
      NotCopied(s, path, index, before, leased);
      StateOfTables();
      if path == [] || path !in metadata.files || index >= |metadata.files[path].chunks| {
        CopyOnWriteRefused(s, path, index, env);
        return None;
      }
      IsSlot(s, path, index);
      var from := metadata.files[path].chunks[index];
      SlotOfInv(s, path, index);
      var references := metadata.GetChunkReferenceCount(from);
      if references <= 1 {
        CopyOnWriteUnshared(s, path, index, env);
        IsOwnSlot(s, path, index);
        return Some(from);
      }
      IsShared(s, path, index);
      var chunk := metadata.chunks[from];
      var h := metadata.next;
      if h == 0 {
        CopyOnWriteExhausted(s, path, index, env);
        return None;
      }
      var registered := AllocateCopy(from, path, index, s);
      if !registered {
        Unregistered(s, path, index, env);
        NotPlaced(s, path, index, before, replicas.replicas, leased);
        return None;
      }
      leases := leases - {from};
      StartInstalling(s, path, index);
      ghost var middle := replicas.replicas;
      var ok := InstallCopy(path, index, from, h, chunk, cloned, written, flushed, s, env);
      if !ok {
        NotInstalled(s, path, index, before, middle, replicas.replicas, leased);
        return None;
      }
      Installed(s, path, index, before, replicas.replicas, leased);
      return Some(h);
    }

    // ----- replay -----

    method ReplayCreateFile(path: str, factor: u32, ghost s: Durable) returns (ok: bool)
      requires namespaces.Valid() && s == Durable(namespaces.View(), metadata.State())
      modifies metadata, namespaces, namespaces.repr
      ensures Step(Durable(namespaces.View(), metadata.State()), ok) == MasterState.ReplayCreateFile(s, path, factor)
      ensures namespaces.Valid() && fresh(namespaces.repr - old(namespaces.repr))
    {
      ReplayCreateFileIs(s, path, factor);
      hide *;
      FilesOfState();
      var taken := namespaces.Exists(path);
      if taken {
        var isFile := namespaces.IsFileAt(path);
        return isFile && path in metadata.files;
      }
      var created := namespaces.Create(path, File);
      if !created {
        return false;
      }
      ok := metadata.CreateFile(path, factor);
    }

    method ReplayDeleteFile(path: str, ghost s: Durable) returns (ok: bool)
      requires namespaces.Valid() && s == Durable(namespaces.View(), metadata.State())
      modifies metadata, namespaces, namespaces.repr
      ensures Step(Durable(namespaces.View(), metadata.State()), ok) == MasterState.ReplayDeleteFile(s, path)
      ensures namespaces.Valid() && namespaces.repr == old(namespaces.repr)
    {
      ReplayDeleteFileIs(s, path);
      hide *;
      FilesOfState();
      var inTable := path in metadata.files;
      var inTree := namespaces.IsFileAt(path);
      if !inTable && !inTree {
        return true;
      }
      if inTable {
        var deleted := metadata.DeleteFile(path);
        if !deleted {
          return false;
        }
      }
      if inTree {
        var deleted := namespaces.DeleteFile(path);
        if !deleted {
          return false;
        }
      }
      ok := true;
    }

    method ReplayRenameFile(source: str, destination: str, ghost s: Durable) returns (ok: bool)
      requires namespaces.Valid() && s == Durable(namespaces.View(), metadata.State())
      modifies metadata, namespaces, namespaces.repr
      ensures Step(Durable(namespaces.View(), metadata.State()), ok) == MasterState.ReplayRenameFile(s, source, destination)
      ensures namespaces.Valid() && namespaces.repr == old(namespaces.repr)
    {
      ReplayRenameFileIs(s, source, destination);
      hide *;
      var isFile := namespaces.IsFileAt(source);
      if !isFile {
        return false;
      }
      ok := namespaces.Rename(source, destination);
      if !ok {
        return;
      }
      ok := metadata.RenameFile(source, destination);
    }

    method ReplayCopyOnWrite(path: str, index: u64, from: Handle, to: Handle, version: u64, size: u64) returns (ok: bool)
      modifies metadata
      ensures Step(metadata.State(), ok) == MasterState.ReplayCopyOnWrite(old(metadata.State()), path, index, from, to, version, size)
    {
      hide AllocateStandalone, ReplaceChunkInFile;
      if path !in metadata.files || index >= |metadata.files[path].chunks| {
        return false;
      }
      var chunks := metadata.files[path].chunks;
      if chunks[index] == to {
        return true;
      }
      if chunks[index] != from {
        return false;
      }
      if to !in metadata.chunks {
        ok := metadata.AllocateStandaloneChunk(to, version, size);
        if !ok {
          return;
        }
      }
      ok := metadata.ReplaceChunkInFile(path, index, to);
    }

    /** The records that change the tables only. */
    method ReplayOnTables(op: Op) returns (ok: bool)
      requires IsTableOp(op) || op.OpCopyOnWrite?
      modifies metadata
      ensures Step(metadata.State(), ok) == ReplayTables(old(metadata.State()), op)
    {
      hide ChunkTables.AllocateChunk, ChunkTables.UpdateFileSize, ChunkTables.SetChunkVersion, ChunkTables.AddChunkToFile,
        ChunkTables.RemoveChunkFromFile, ChunkTables.DeleteChunk, ChunkTables.SetChunkSize, MasterState.ReplayCopyOnWrite;
      match op {
        case OpAllocateChunk(path, h, version, size) =>
          if h in metadata.chunks {
            return true;
          }
          ok := metadata.AllocateChunk(path, h, version, size);
        case OpUpdateFileSize(path, size) =>
          ok := metadata.UpdateFileSize(path, size);
        case OpSetChunkVersion(h, version) =>
          ok := metadata.SetChunkVersion(h, version);
        case OpAddChunkToFile(path, h) =>
          if h !in metadata.chunks {
            return false;
          }
          if path in metadata.files && h in metadata.files[path].chunks {
            return true;
          }
          ok := metadata.AddChunkToFile(path, h);
        case OpRemoveChunkFromFile(path, h) =>
          if path !in metadata.files || h !in metadata.files[path].chunks {
            return true;
          }
          ok := metadata.RemoveChunkFromFile(path, h);
        case OpDeleteChunk(h) =>
          if h !in metadata.chunks {
            return true;
          }
          ok := metadata.DeleteChunk(h);
        case OpSetChunkSize(h, size) =>
          ok := metadata.SetChunkSize(h, size);
        case OpCopyOnWrite(path, index, from, to, version, size) =>
          ok := ReplayCopyOnWrite(path, index, from, to, version, size);
      }
    }

    /** Applies one record of the log: parse, check, apply. */
    method ReplayOperation(record: Record, ghost s: Durable) returns (ok: bool)
      requires namespaces.Valid() && Recovering(s) && s == Durable(namespaces.View(), metadata.State())
      modifies this`leases, metadata, namespaces, namespaces.repr
      ensures Step(Durable(namespaces.View(), metadata.State()), ok) == ReplayRecord(s, record)
      ensures namespaces.Valid() && fresh(namespaces.repr - old(namespaces.repr))
    {
      hide *;
      var decoded, fields := Log.DecodeFieldList(record.payload);
      OperationIs(record);
      if !decoded {
        ReplayRecordIs(s, record);
        return false;
      }
      var op := FromFields(record.kind, fields);
      ReplayRecordIs(s, record);
      match op {
        case None =>
          return false;
        case Some(o) =>
          ParsedIsValid(record.kind, fields);
          ok := ReplayOp(o, s);
      }
    }

    method ReplayOp(op: Op, ghost s: Durable) returns (ok: bool)
      requires namespaces.Valid() && Recovering(s) && s == Durable(namespaces.View(), metadata.State()) && ValidOp(op)
      modifies this`leases, metadata, namespaces, namespaces.repr
      ensures Step(Durable(namespaces.View(), metadata.State()), ok) == MasterState.Replay(s, op)
      ensures namespaces.Valid() && fresh(namespaces.repr - old(namespaces.repr))
    {
      hide *;
      match op {
        case OpCreateDirectory(path) =>
          ReplayDirectoryIs(s, path);
          var taken := namespaces.Exists(path);
          if taken {
            ok := namespaces.IsDirectoryAt(path);
          } else {
            ok := namespaces.Create(path, Directory);
          }
        case OpCreateFile(path, factor) =>
          ReplayNamespaceIs(s, op);
          ok := ReplayCreateFile(path, factor, s);
        case OpDeleteFile(path) =>
          ReplayNamespaceIs(s, op);
          ok := ReplayDeleteFile(path, s);
        case OpRenameFile(source, destination) =>
          ReplayNamespaceIs(s, op);
          ok := ReplayRenameFile(source, destination, s);
        case OpCreateSnapshot(source, destination) =>
          ReplaySnapshotIs(s, source, destination);
          RecoveringMeansInv(s);
          var taken := namespaces.Exists(destination);
          if taken {
            return true;
          }
          ok := CreateSnapshotInternal(source, destination, s);
        case _ =>
          ReplayTablesIs(s, op);
          ok := ReplayOnTables(op);
      }
    }

    // ----- starting and saving -----

    /** The first checkpoint file that can be read and validated. */
    method LoadLatest(files: seq<str>) returns (found: bool, c: Form.State)
      ensures found <==> Startup.LoadLatest(files) != None
      ensures found ==> Startup.LoadLatest(files) == Some(c)
    {
      c := Form.State(0, [], [], []);
      assert files[0..] == files;
      hide Startup.Load;
      for i := 0 to |files|
        invariant Startup.LoadLatest(files) == Startup.LoadLatest(files[i..])
      {
        assert files[i..][1..] == files[i + 1..];
        found, c := Image.Deserialize(files[i]);
        LoadIs(files[i]);
        if found {
          return;
        }
      }
      assert files[|files|..] == [];
      found := false;
    }

    /** Restores a checkpoint that loaded. */
    method RestoreFrom(c: Form.State) returns (ok: bool)
      requires namespaces.Valid() && Image.Validated(c)
      modifies metadata, namespaces, namespaces.repr
      ensures ok <==> Startup.CanRestore(c)
      ensures ok ==> Durable(namespaces.View(), metadata.State()) == Startup.Restored(c)
      ensures namespaces.Valid() && fresh(namespaces.repr - old(namespaces.repr))
    {
      CanRestoreIs(c);
      hide *;
      ok := Image.Restore(c, metadata, namespaces);
      if ok {
        RestoredIs(c, namespaces.View());
      }
    }

    /** The replay loop: stops at the first record that cannot be applied. */
    method ReplayAllRecords(records: seq<Record>, ghost start: Durable) returns (ok: bool)
      requires namespaces.Valid() && Recovering(start) && start == Durable(namespaces.View(), metadata.State())
      modifies this`leases, metadata, namespaces, namespaces.repr
      ensures Step(Durable(namespaces.View(), metadata.State()), ok) == ReplayRecords(start, records)
      ensures ok ==> Recovering(Durable(namespaces.View(), metadata.State()))
      ensures namespaces.Valid() && fresh(namespaces.repr - old(namespaces.repr))
    {
      hide *;
      ghost var s := start;
      assert records[0..] == records;
      for i := 0 to |records|
        invariant namespaces.Valid() && fresh(namespaces.repr - old(namespaces.repr))
        invariant s == Durable(namespaces.View(), metadata.State()) && Recovering(s)
        invariant ReplayRecords(start, records) == ReplayRecords(s, records[i..])
      {
        ReplayRecordsStep(s, records, i);
        ok := ReplayOperation(records[i], s);
        if !ok {
          return false;
        }
        s := Durable(namespaces.View(), metadata.State());
      }
      ReplayNone(s, records);
      ok := true;
    }

    /** Rebuilds the state from the log and the checkpoint files, newest first. */
    method Initialize(files: seq<str>) returns (ok: bool)
      requires namespaces.Valid() && log.Valid() && replicas.Valid()
      requires Startup.LoadLatest(files) != None ==> Startup.FilesMatch(Startup.LoadLatest(files).value)
      requires log.open && ParseLog(log.file, 1) != None ==> log.lastSequence == |ParseLog(log.file, 1).value|
      modifies this, metadata, namespaces, namespaces.repr, replicas, log
      ensures ok <==> Startup.Start(Startup.Disk(log.file, files)).ok
      ensures ok ==> Durable(namespaces.View(), metadata.State()) == Startup.Start(Startup.Disk(log.file, files)).state
      ensures ok ==> Recovering(Durable(namespaces.View(), metadata.State()))
      ensures ok ==> orphans == {} && replicas.replicas == map[]
      ensures log.file == old(log.file)
      ensures namespaces.Valid() && log.Valid() && replicas.Valid() && fresh(namespaces.repr - old(namespaces.repr))
    {
      hide *;
      StartIs(log.file, files);
      if !log.open {
        var readable := log.Open();
        if !readable {
          return false;
        }
      }
      assert log.file == old(log.file);
      LogLength();
      var valid, all := log.ReadRecords();
      if !valid {
        return false;
      }
      var sequence: u64 := 0;
      var found, c := LoadLatest(files);
      if found {
        sequence := c.sequence;
        if sequence > log.lastSequence {
          return false;
        }
        LoadedIsGenuine(files, c);
        ok := RestoreFrom(c);
        if !ok {
          return;
        }
      } else {
        metadata.Clear();
        namespaces.Clear();
        InitialRecovering();
      }
      ghost var start := Durable(namespaces.View(), metadata.State());
      assert start == if found then Startup.Restored(c) else INITIAL;
      var records := log.Replay(sequence);
      ok := ReplayAllRecords(records, start);
      if ok {
        replicas.Clear();
        orphans := {};
      }
    }

    /** Saves the state under the number of the last record. */
    method CreateCheckpoint() returns (bytes: str)
      requires namespaces.Valid() && log.Valid() && log.open
      ensures exists c :: bytes == Form.EncodeState(c) && c.sequence == log.lastSequence
                          && Image.ExportOf(c, Durable(namespaces.View(), metadata.State()))
    {
      hide *;
      var exported := Image.Export(metadata, namespaces, log.lastSequence);
      bytes := Image.Serialize(exported);
      ghost var c :| bytes == Form.EncodeState(c) && Image.SameEntries(c, exported);
      Image.SortedIsExport(exported, c, Durable(namespaces.View(), metadata.State()));
    }
  }

  // ----- the records and effects of the requests -----

  lemma IsRecordFor(op: Op)
    ensures PayloadOf(op) == EncodeFields(FieldsOf(op)) && 1 <= KindOf(op) <= LAST_KIND
  {
    hide FieldsOf, EncodeFields;
  }

  lemma LogAfterIs(file: str, sequence: u64, op: Op)
    requires sequence < U64 - 1
    ensures RecordFor(sequence + 1, op) == Record(sequence + 1, KindOf(op), PayloadOf(op))
    ensures Startup.LogAfter(file, sequence, Some(op)) == Extended(file, Record(sequence + 1, KindOf(op), PayloadOf(op)))
  {
    hide EncodeRecord, PayloadOf;
  }

  lemma AppendingIs(open: bool, lastSequence: u64, op: Op, written: nat, flushed: bool)
    ensures Appending(open, lastSequence, op, written, flushed) ==
            if open && lastSequence < U64 - 1 && |PayloadOf(op)| < U32 && written >= HEADER + |PayloadOf(op)|
            then if flushed then Written else WrittenNotFlushed else NotWritten
  {
    hide PayloadOf;
  }

  lemma DueIsRecord(s: Durable, r: Request)
    requires !r.CopyOnWriteRequest?
    ensures DueRecord(s, r) == RecordOf(s, r)
  {}

  lemma CopyOnWriteDue(s: Durable, r: ReplicaMap, path: str, index: u64)
    ensures Shared(s, path, index) && s.tables.next != 0 && Allocated(s, path, index).ok ==>
              var from := Slot(s, path, index);
              DueRecord(s, CopyOnWriteRequest(path, index)) ==
              Some(OpCopyOnWrite(path, index, from, s.tables.next, s.tables.chunks[from].version, s.tables.chunks[from].size))
    ensures HasSlot(s, path, index) ==>
              (Registers(r, s, CopyOnWriteRequest(path, index)) <==>
               forall x :: x in ServersAt(r, Slot(s, path, index)) ==> x !in ServersAt(r, s.tables.next))
  {
    hide References, AllocateStandalone, Servers, ListAt;
  }

  lemma CreateDirectoryIs(s: Durable, path: str)
    ensures RecordOf(s, CreateDirectoryRequest(path)) == if path in s.ns then None else Some(OpCreateDirectory(path))
    ensures forall env :: Apply(s, OpCreateDirectory(path), env) ==
              Step(Durable(if CanCreate(s.ns, path) then s.ns[path := Directory] else s.ns, s.tables), CanCreate(s.ns, path))
  {
    hide CanCreate;
  }

  lemma CreateFileIs(s: Durable, path: str, requested: u32, live: nat, default: u32)
    ensures var factor := ResolveFactor(requested, live, default);
            RecordOf(s, CreateFileRequest(path, requested, live, default)) ==
            if path == [] || path in s.ns || factor == None then None else Some(OpCreateFile(path, factor.value))
    ensures forall env, factor :: Apply(s, OpCreateFile(path, factor), env) == ApplyCreateFile(s, path, factor)
  {
    hide ResolveFactor, ApplyCreateFile;
  }

  lemma CreateApplies(s: Durable, path: str, factor: u32)
    ensures var t := CreateFile(s.tables, path, factor);
            && ApplyCreateFile(s, path, factor) ==
               (if CanCreate(s.ns, path) && t.ok then Step(Durable(s.ns[path := File], t.state), true) else Step(s, false))
            && (!t.ok ==> t.state == s.tables)
    ensures path !in s.ns ==> s.ns[path := File] - {path} == s.ns
    ensures CanCreate(s.ns, path) ==> path !in s.ns
  {
    hide IsValid, Parent;
  }

  function ChunksOf(t: Tables, path: str): seq<Handle> {
    if path in t.files then t.files[path].chunks else []
  }

  function SoleReferences(t: Tables, path: str): set<Handle> {
    set h | h in ChunksOf(t, path) && References(t, h) == 1
  }

  function Unreferenced(t: Tables, chunks: seq<Handle>): set<Handle> {
    set h | h in chunks && References(t, h) == 0
  }

  /** The chunks marked as orphans before a file is deleted, the chunks whose replicas and leases
      are dropped afterwards and the chunks erased from the table are the same: those whose last
      reference the file held. */
  lemma DeletedChunks(t: Tables, path: str)
    requires Consistent(t) && path in t.files
    ensures var after := ChunkTables.DeleteFile(t, path).state;
            && SoleReferences(t, path) == Unreferenced(after, ChunksOf(t, path)) == t.chunks.Keys - after.chunks.Keys
            && forall h :: h in after.chunks && h in t.files[path].chunks ==> References(after, h) == References(t, h) - 1
  {
    var after := ChunkTables.DeleteFile(t, path).state;
    assert ConsistentFile(t, path);
    forall h | h in t.files[path].chunks
      ensures References(t, h) == 1 <==> h !in after.chunks
      ensures h in after.chunks ==> References(after, h) == References(t, h) - 1 > 0
    {
      SoleHolder(t, path, h);
      assert Holders(after.files, h) == Holders(t.files, h) - {path};
    }
  }

  lemma DeleteFileIs(s: Durable, path: str)
    ensures RecordOf(s, DeleteFileRequest(path)) == if IsFile(s.ns, path) then Some(OpDeleteFile(path)) else None
    ensures forall env :: Apply(s, OpDeleteFile(path), env) ==
              var t := ChunkTables.DeleteFile(s.tables, path);
              if !t.ok then Step(s, false)
              else Step(Durable(if IsFile(s.ns, path) then s.ns - {path} else s.ns, t.state), IsFile(s.ns, path))
    ensures ChunkTables.DeleteFile(s.tables, path).ok <==> path in s.tables.files
    ensures !ChunkTables.DeleteFile(s.tables, path).ok ==> ChunkTables.DeleteFile(s.tables, path).state == s.tables
  {}

  lemma RenameFileIs(s: Durable, source: str, destination: str)
    ensures RecordOf(s, RenameFileRequest(source, destination)) ==
            if IsFile(s.ns, source) && destination !in s.ns then Some(OpRenameFile(source, destination)) else None
    ensures forall env :: Apply(s, OpRenameFile(source, destination), env) ==
              var t := ChunkTables.RenameFile(s.tables, source, destination);
              if CanRename(s.ns, source, destination) && t.ok
              then Step(Durable(Renamed(s.ns, source, destination), t.state), true) else Step(s, false)
    ensures !ChunkTables.RenameFile(s.tables, source, destination).ok ==>
              ChunkTables.RenameFile(s.tables, source, destination).state == s.tables
  {
    hide CanRename, Renamed;
  }

  lemma UpdateFileSizeIs(s: Durable, path: str, size: u64)
    ensures RecordOf(s, UpdateFileSizeRequest(path, size)) == if path in s.tables.files then Some(OpUpdateFileSize(path, size)) else None
    ensures forall env :: Apply(s, OpUpdateFileSize(path, size), env) == OnTables(s, ChunkTables.UpdateFileSize(s.tables, path, size))
  {
    hide ChunkTables.UpdateFileSize;
  }

  lemma SetChunkVersionIs(s: Durable, h: Handle, version: u64)
    ensures RecordOf(s, SetChunkVersionRequest(h, version)) == if h in s.tables.chunks && version != 0 then Some(OpSetChunkVersion(h, version)) else None
    ensures forall env :: Apply(s, OpSetChunkVersion(h, version), env) == OnTables(s, ChunkTables.SetChunkVersion(s.tables, h, version))
  {
    hide ChunkTables.SetChunkVersion;
  }

  lemma SetChunkSizeIs(s: Durable, h: Handle, size: u64)
    ensures RecordOf(s, SetChunkSizeRequest(h, size)) == if h in s.tables.chunks then Some(OpSetChunkSize(h, size)) else None
    ensures forall env :: Apply(s, OpSetChunkSize(h, size), env) == OnTables(s, ChunkTables.SetChunkSize(s.tables, h, size))
  {
    hide ChunkTables.SetChunkSize;
  }

  lemma AddChunkToFileIs(s: Durable, path: str, h: Handle)
    ensures RecordOf(s, AddChunkToFileRequest(path, h)) == if path in s.tables.files && h in s.tables.chunks then Some(OpAddChunkToFile(path, h)) else None
    ensures forall env :: Apply(s, OpAddChunkToFile(path, h), env) == OnTables(s, ChunkTables.AddChunkToFile(s.tables, path, h))
  {
    hide ChunkTables.AddChunkToFile;
  }

  lemma RemoveChunkFromFileIs(s: Durable, path: str, h: Handle)
    ensures RecordOf(s, RemoveChunkFromFileRequest(path, h)) == if path in s.tables.files && h in s.tables.chunks then Some(OpRemoveChunkFromFile(path, h)) else None
    ensures forall env :: Apply(s, OpRemoveChunkFromFile(path, h), env) == OnTables(s, ChunkTables.RemoveChunkFromFile(s.tables, path, h))
  {
    hide ChunkTables.RemoveChunkFromFile;
  }

  lemma AllocateChunkIs(s: Durable, path: str)
    ensures RecordOf(s, AllocateChunkRequest(path)) == if path in s.tables.files && s.tables.next != 0 then Some(OpAllocateChunk(path, s.tables.next, 1, 0)) else None
    ensures forall env :: Apply(s, OpAllocateChunk(path, s.tables.next, 1, 0), env) == OnTables(s, ChunkTables.AllocateChunk(s.tables, path, s.tables.next, 1, 0))
  {
    hide ChunkTables.AllocateChunk;
  }

  lemma CollectIs(s: Durable, h: Handle)
    ensures RecordOf(s, CollectRequest(h)) ==
            if h != 0 && References(s.tables, h) == 0 && h in s.tables.chunks then Some(OpDeleteChunk(h)) else None
    ensures RecordOf(s, CollectRequest(h)) == None ==>
              forall env :: Live(s, CollectRequest(h), env) == Outcome(s, h != 0 && h !in s.tables.chunks, None)
    ensures forall env :: Apply(s, OpDeleteChunk(h), env) ==
              if env.deleted then OnTables(s, ChunkTables.DeleteChunk(s.tables, h)) else Step(s, false)
    ensures h !in s.tables.chunks ==> References(s.tables, h) == 0
  {
    hide ChunkTables.DeleteChunk;
  }

  lemma CreateSnapshotIs(s: Durable, source: str, destination: str)
    ensures RecordOf(s, CreateSnapshotRequest(source, destination)) ==
            if source != [] && destination != [] && source != destination && source in s.ns && destination !in s.ns && destination != ROOT
            then Some(OpCreateSnapshot(source, destination)) else None
    ensures forall env :: Apply(s, OpCreateSnapshot(source, destination), env) == ApplyCreateSnapshot(s, source, destination)
  {
    hide ApplyCreateSnapshot;
  }

  // ----- copy-on-write, step by step -----

  lemma IsSlot(s: Durable, path: str, index: u64)
    requires path != [] && path in s.tables.files && index < |s.tables.files[path].chunks|
    ensures HasSlot(s, path, index) && Slot(s, path, index) == s.tables.files[path].chunks[index]
  {}

  lemma IsShared(s: Durable, path: str, index: u64)
    requires Inv(s) && HasSlot(s, path, index) && References(s.tables, Slot(s, path, index)) > 1
    ensures Shared(s, path, index)
  {
    SlotOfInv(s, path, index);
    hide Inv, References;
  }

  lemma IsOwnSlot(s: Durable, path: str, index: u64)
    requires Inv(s) && HasSlot(s, path, index) && References(s.tables, Slot(s, path, index)) <= 1
    ensures OwnSlot(s.tables, path, index, Slot(s, path, index))
  {
    SlotOfInv(s, path, index);
    hide Inv, References;
  }

  lemma CopySource(s: Durable, path: str, index: u64)
    requires Inv(s) && Shared(s, path, index)
    ensures HasSlot(s, path, index) && Slot(s, path, index) in s.tables.chunks
    ensures var c := s.tables.chunks[Slot(s, path, index)];
            Allocated(s, path, index) == AllocateStandalone(s.tables, s.tables.next, c.version, c.size)
  {
    hide Inv, References, AllocateStandalone;
  }

  lemma StartInstalling(s: Durable, path: str, index: u64)
    requires Shared(s, path, index) && Allocated(s, path, index).ok && s.tables.next != 0
    ensures HasSlot(s, path, index) && Slot(s, path, index) in s.tables.chunks
    ensures Installing(s, path, index, Slot(s, path, index), s.tables.next, s.tables.chunks[Slot(s, path, index)])
    ensures CopyAllocated(s, path, index) == Allocated(s, path, index).state
  {
    hide References, Allocated;
  }

  /** Everything that can still happen once the fresh chunk is registered. */
  lemma InstallOutcomes(s: Durable, path: str, index: u64, from: Handle, h: Handle, chunk: ChunkMeta, env: Env)
    requires Inv(s) && Installing(s, path, index, from, h, chunk) && env.registered
    ensures h != 0
    ensures var a := CopyAllocated(s, path, index);
            var b, undone := ReplaceChunkInFile(a, path, index, h), DeleteChunk(a, h).state;
            && b.ok && ReplaceChunkInFile(b.state, path, index, from).state == a && OwnSlot(b.state, path, index, h)
            && (!env.cloned ==> CopyOnWrite(s, path, index, env) == Outcome(s.(tables := undone), false, None))
            && (env.cloned ==>
                  CopyOnWrite(s, path, index, env) ==
                  Outcome(s.(tables := if env.logging == Written then b.state else undone), env.logging == Written,
                          if env.logging == NotWritten then None else Some(OpCopyOnWrite(path, index, from, h, chunk.version, chunk.size))))
  {
    hide *;
    InstallingMeans(s, path, index, from, h, chunk);
    AllocationUndone(s, h, chunk.version, chunk.size);
    ReplaceSucceeds(s, path, index, h, chunk);
    var b := ReplaceChunkInFile(CopyAllocated(s, path, index), path, index, h);
    OwnSlotIs(b.state, path, index, h);
    if env.cloned {
      CopyOnWriteReplaced(s, path, index, env);
    } else {
      CopyOnWriteMoved(s, path, index, env);
    }
  }

  lemma OwnSlotIs(t: Tables, path: str, index: u64, h: Handle)
    ensures OwnSlot(t, path, index, h) <==>
              path in t.files && index < |t.files[path].chunks| && t.files[path].chunks[index] == h && References(t, h) == 1
  {
    hide References;
  }

  lemma InstallingMeans(s: Durable, path: str, index: u64, from: Handle, h: Handle, chunk: ChunkMeta)
    requires Installing(s, path, index, from, h, chunk)
    ensures Shared(s, path, index) && HasSlot(s, path, index) && from == Slot(s, path, index) && h == s.tables.next != 0
    ensures from in s.tables.chunks && chunk == s.tables.chunks[from]
    ensures Allocated(s, path, index).ok && Allocated(s, path, index) == AllocateStandalone(s.tables, h, chunk.version, chunk.size)
    ensures CopyAllocated(s, path, index) == Allocated(s, path, index).state
  {
    hide References, AllocateStandalone;
  }

  lemma Unregistered(s: Durable, path: str, index: u64, env: Env)
    requires Shared(s, path, index) && s.tables.next != 0 && (!Allocated(s, path, index).ok || !env.registered)
    ensures CopyOnWrite(s, path, index, env) ==
            Outcome(s.(tables := if Allocated(s, path, index).ok then s.tables.(next := Allocated(s, path, index).state.next)
                                 else Allocated(s, path, index).state), false, None)
  {
    hide *;
    if Allocated(s, path, index).ok {
      CopyOnWriteMoved(s, path, index, env);
    } else {
      CopyOnWriteExhausted(s, path, index, env);
    }
  }

  lemma NotCopied(s: Durable, path: str, index: u64, r: ReplicaMap, leased: set<Handle>)
    ensures CopyPlaced(s, path, index, None, r, r, leased, leased)
    ensures HasSlot(s, path, index) && References(s.tables, Slot(s, path, index)) <= 1 ==>
              CopyPlaced(s, path, index, Some(Slot(s, path, index)), r, r, leased, leased)
  {
    hide References, ListAt, Servers, Shared;
  }

  lemma NotPlaced(s: Durable, path: str, index: u64, before: ReplicaMap, after: ReplicaMap, leased: set<Handle>)
    requires forall k :: k != s.tables.next ==> ListAt(after, k) == ListAt(before, k)
    ensures CopyPlaced(s, path, index, None, before, after, leased, leased)
  {
    hide References, ListAt, Servers, Shared;
  }

  lemma NotInstalled(s: Durable, path: str, index: u64, before: ReplicaMap, middle: ReplicaMap, after: ReplicaMap, leased: set<Handle>)
    requires HasSlot(s, path, index) && Shared(s, path, index)
    requires forall k :: k != s.tables.next ==> ListAt(middle, k) == ListAt(before, k)
    requires forall k :: k != s.tables.next ==> ListAt(after, k) == ListAt(middle, k)
    ensures CopyPlaced(s, path, index, None, before, after, leased, leased - {Slot(s, path, index)})
  {
    hide References, ListAt, Servers, Shared;
  }

  lemma Installed(s: Durable, path: str, index: u64, before: ReplicaMap, after: ReplicaMap, leased: set<Handle>)
    requires HasSlot(s, path, index) && References(s.tables, Slot(s, path, index)) > 1
    requires forall k :: k != s.tables.next ==> ListAt(after, k) == ListAt(before, k)
    requires ServersAt(after, s.tables.next) == ServersAt(before, s.tables.next) + ServersAt(before, Slot(s, path, index))
    requires ServersAt(before, Slot(s, path, index)) != [] ==>
               PrimaryAt(after, s.tables.next) == Some(ServersAt(before, Slot(s, path, index))[0])
    ensures CopyPlaced(s, path, index, Some(s.tables.next), before, after, leased, leased - {Slot(s, path, index)})
  {
    hide References, ListAt, Servers, Shared;
  }

  lemma FileIsNotEmpty(ns: Tree, source: str)
    requires WellFormed(ns) && IsFile(ns, source)
    ensures source != []
  {
    assert ValidEntry(ns, source);
  }

  lemma CreatableIsNew(ns: Tree, p: str)
    ensures CanCreate(ns, p) ==> p !in ns
  {}

  lemma ServersAreDistinct(r: ReplicaMap, h: Handle)
    requires ValidReplicas(r)
    ensures NoDuplicates(Servers(ListAt(r, h))) && 0 !in Servers(ListAt(r, h))
  {
    assert h in r ==> ValidList(r[h]);
  }

  lemma DroppedLists(r: ReplicaMap, h: Handle)
    ensures forall k :: k != h ==> ListAt(r - {h}, k) == ListAt(r, k)
  {}

  // ----- replay and start, case by case -----

  lemma ReplayCreateFileIs(s: Durable, path: str, factor: u32)
    ensures var t := CreateFile(s.tables, path, factor);
            MasterState.ReplayCreateFile(s, path, factor) ==
            if path in s.ns then Step(s, IsFile(s.ns, path) && path in s.tables.files)
            else if !CanCreate(s.ns, path) then Step(s, false)
            else Step(Durable(s.ns[path := File], t.state), t.ok)
  {
    hide CanCreate, CreateFile;
  }

  lemma ReplayDeleteFileIs(s: Durable, path: str)
    ensures var t := DeleteFile(s.tables, path);
            && (path in s.tables.files <==> t.ok)
            && MasterState.ReplayDeleteFile(s, path) ==
               Step(Durable(if IsFile(s.ns, path) then s.ns - {path} else s.ns, if t.ok then t.state else s.tables), true)
  {}

  lemma ReplayRenameFileIs(s: Durable, source: str, destination: str)
    ensures var t := RenameFile(s.tables, source, destination);
            MasterState.ReplayRenameFile(s, source, destination) ==
            if !IsFile(s.ns, source) || !CanRename(s.ns, source, destination) then Step(s, false)
            else Step(Durable(Renamed(s.ns, source, destination), t.state), t.ok)
  {
    hide CanRename, Renamed, RenameFile;
  }

  function ReplayTables(t: Tables, op: Op): Step<Tables>
    requires IsTableOp(op) || op.OpCopyOnWrite?
  {
    match op
    case OpAllocateChunk(path, h, version, size) =>
      if h in t.chunks then Step(t, true) else AllocateChunk(t, path, h, version, size)
    case OpUpdateFileSize(path, size) => UpdateFileSize(t, path, size)
    case OpSetChunkVersion(h, version) => SetChunkVersion(t, h, version)
    case OpAddChunkToFile(path, h) =>
      if h !in t.chunks then Step(t, false)
      else if path in t.files && h in t.files[path].chunks then Step(t, true)
      else AddChunkToFile(t, path, h)
    case OpRemoveChunkFromFile(path, h) =>
      if path !in t.files || h !in t.files[path].chunks then Step(t, true) else RemoveChunkFromFile(t, path, h)
    case OpDeleteChunk(h) => if h !in t.chunks then Step(t, true) else DeleteChunk(t, h)
    case OpSetChunkSize(h, size) => SetChunkSize(t, h, size)
    case OpCopyOnWrite(path, index, from, to, version, size) =>
      MasterState.ReplayCopyOnWrite(t, path, index, from, to, version, size)
  }

  lemma ReplayDirectoryIs(s: Durable, path: str)
    ensures Replay(s, OpCreateDirectory(path)) ==
            if path in s.ns then Step(s, IsDirectory(s.ns, path))
            else Step(Durable(if CanCreate(s.ns, path) then s.ns[path := Directory] else s.ns, s.tables), CanCreate(s.ns, path))
  {
    hide CanCreate;
  }

  lemma ReplayNamespaceIs(s: Durable, op: Op)
    requires ValidOp(op)
    ensures op.OpCreateFile? ==> Replay(s, op) == MasterState.ReplayCreateFile(s, op.path, op.factor)
    ensures op.OpDeleteFile? ==> Replay(s, op) == MasterState.ReplayDeleteFile(s, op.path)
    ensures op.OpRenameFile? ==> Replay(s, op) == MasterState.ReplayRenameFile(s, op.source, op.destination)
  {
    hide MasterState.ReplayCreateFile, MasterState.ReplayDeleteFile, MasterState.ReplayRenameFile;
  }

  lemma ReplaySnapshotIs(s: Durable, source: str, destination: str)
    ensures Replay(s, OpCreateSnapshot(source, destination)) ==
            if destination in s.ns then Step(s, true) else ApplyCreateSnapshot(s, source, destination)
  {
    hide ApplyCreateSnapshot;
  }

  lemma ReplayTablesIs(s: Durable, op: Op)
    requires ValidOp(op)
    requires !op.OpCreateDirectory? && !op.OpCreateFile? && !op.OpDeleteFile? && !op.OpRenameFile? && !op.OpCreateSnapshot?
    ensures IsTableOp(op) || op.OpCopyOnWrite?
    ensures var t := ReplayTables(s.tables, op); Replay(s, op) == Step(Durable(s.ns, t.state), t.ok)
  {
    hide CanCreate, MasterState.ReplayCreateFile, MasterState.ReplayDeleteFile, MasterState.ReplayRenameFile,
      ApplyCreateSnapshot, MasterState.ReplayCopyOnWrite, AllocateChunk, UpdateFileSize, SetChunkVersion, AddChunkToFile,
      RemoveChunkFromFile, DeleteChunk, SetChunkSize;
  }

  lemma RecoveringMeansInv(s: Durable)
    requires Recovering(s)
    ensures Inv(s) && FilesHaveNodes(s)
  {
    hide Inv;
    InvMeansNodes(s);
  }

  lemma OperationIs(r: Record)
    ensures DecodeFields(r.payload) == None ==> OperationOf(r) == None
    ensures DecodeFields(r.payload) != None ==> OperationOf(r) == FromFields(r.kind, DecodeFields(r.payload).value)
  {
    hide DecodeFields, FromFields;
  }

  lemma ReplayRecordIs(s: Durable, r: Record)
    ensures OperationOf(r) == None ==> ReplayRecord(s, r) == Step(s, false)
    ensures OperationOf(r) != None ==> ReplayRecord(s, r) == Replay(s, OperationOf(r).value)
  {
    hide OperationOf, Replay;
  }

  lemma ParsedIsValid(kind: u32, fields: seq<str>)
    ensures FromFields(kind, fields) != None ==> ValidOp(FromFields(kind, fields).value)
  {
    hide NumbersFrom, Number;
  }

  lemma ReplayRecordsStep(s: Durable, records: seq<Record>, i: nat)
    requires i < |records| && Recovering(s)
    ensures var r := ReplayRecord(s, records[i]);
            && ReplayRecords(s, records[i..]) == (if r.ok then ReplayRecords(r.state, records[i + 1..]) else r)
            && (r.ok ==> Recovering(r.state))
  {
    assert records[i..][1..] == records[i + 1..];
    ReplayRecordIs(s, records[i]);
    hide ReplayRecord, Replay, Inv, OperationOf;
    if OperationOf(records[i]) != None {
      ReplayKeepsInv(s, OperationOf(records[i]).value);
    }
  }

  lemma ReplayNone(s: Durable, records: seq<Record>)
    ensures ReplayRecords(s, records[|records|..]) == Step(s, true)
  {}

  lemma LoadIs(bytes: str)
    ensures Startup.Load(bytes) == if Form.ParseState(bytes) != None && Image.Validated(Form.ParseState(bytes).value) then Form.ParseState(bytes) else None
  {
    hide Form.ParseState, Image.Validated;
  }

  lemma LoadedIsGenuine(files: seq<str>, c: Form.State)
    requires Startup.LoadLatest(files) == Some(c) && Startup.FilesMatch(c)
    ensures Image.Validated(c) && (Startup.CanRestore(c) ==> Recovering(Startup.Restored(c)))
  {
    hide Startup.Load, Startup.LoadLatest, Startup.CanRestore, Startup.Restored, Image.Validated, Startup.FilesMatch, Recovering;
    var i := Startup.LoadLatestIsOne(files);
    LoadIs(files[i]);
    if Startup.CanRestore(c) {
      Startup.ValidatedIsGenuineIff(c);
    }
  }

  lemma CanRestoreIs(c: Form.State)
    ensures Startup.CanRestore(c) <==> Restorable(multiset(c.nodes)) && Image.RestoreTables(c).ok
  {
    hide Restorable, Image.RestoreTables;
  }

  lemma RestoredIs(c: Form.State, ns: Tree)
    requires Startup.CanRestore(c) && Items(ns) == (set e | e in c.nodes)
    ensures Startup.Restored(c) == Durable(ns, Image.RestoreTables(c).state)
  {
    hide Restorable, Image.RestoreTables, Items;
    Startup.RestorableMeansOneKind(c.nodes);
    Startup.ItemsOfTree(c.nodes);
    ItemsDetermine(Startup.TreeOf(c.nodes), ns);
  }

  lemma InitialRecovering()
    ensures Recovering(INITIAL) && INITIAL == Durable(EMPTY, NO_TABLES)
  {
    InitialInv();
  }

  lemma StartIs(file: str, files: seq<str>)
    ensures var disk := Startup.Disk(file, files);
            match ParseLog(file, 1)
            case None => !Startup.Start(disk).ok
            case Some(records) =>
              match Startup.LoadLatest(files)
              case None => Startup.Start(disk) == ReplayRecords(INITIAL, records) && records[0..] == records
              case Some(c) =>
                if c.sequence > |records| || !Startup.CanRestore(c) then !Startup.Start(disk).ok
                else Startup.Start(disk) == ReplayRecords(Startup.Restored(c), records[c.sequence..])
  {
    hide ParseLog, Startup.LoadLatest, ReplayRecords, Startup.CanRestore, Startup.Restored;
  }

  // ----- registering a list of servers -----

  ghost predicate RegisteredUpTo(before: ReplicaMap, now: ReplicaMap, h: Handle, servers: seq<ServerId>, i: nat)
    requires i <= |servers|
  {
    && (forall x :: x in servers[..i] ==> x !in ServersAt(before, h))
    && ServersAt(now, h) == ServersAt(before, h) + servers[..i]
    && (i > 0 ==> PrimaryAt(now, h) == Some(servers[0]))
    && forall k :: k != h ==> ListAt(now, k) == ListAt(before, k)
  }

  lemma RegistrationStarts(r: ReplicaMap, h: Handle, servers: seq<ServerId>)
    ensures RegisteredUpTo(r, r, h, servers, 0)
  {
    hide Servers, ListAt, PrimaryOf;
    assert ServersAt(r, h) + [] == ServersAt(r, h);
  }

  lemma RegistrationStep(before: ReplicaMap, now: ReplicaMap, h: Handle, servers: seq<ServerId>, i: nat)
    requires i < |servers| && RegisteredUpTo(before, now, h, servers, i) && ValidReplicas(now)
    requires h != 0 && NoDuplicates(servers) && 0 !in servers
    ensures var r := Register(now, h, servers[i], i == 0);
            && (r.ok ==> RegisteredUpTo(before, r.state, h, servers, i + 1))
            && (!r.ok ==> servers[i] in servers && servers[i] in ServersAt(before, h))
            && (forall k :: k != h ==> ListAt(r.state, k) == ListAt(before, k))
  {
    hide Servers, ListAt, PrimaryOf, Register, ValidReplicas;
    RegisterKeepsValid(now, h, servers[i], i == 0);
    assert servers[..i + 1] == servers[..i] + [servers[i]];
    assert servers[i] !in servers[..i];
    assert ServersAt(before, h) + servers[..i + 1] == ServersAt(before, h) + servers[..i] + [servers[i]];
  }

  lemma RegistrationEnds(before: ReplicaMap, now: ReplicaMap, h: Handle, servers: seq<ServerId>)
    requires RegisteredUpTo(before, now, h, servers, |servers|)
    ensures forall x :: x in servers ==> x !in ServersAt(before, h)
    ensures ServersAt(now, h) == ServersAt(before, h) + servers
    ensures servers != [] ==> PrimaryAt(now, h) == Some(servers[0])
    ensures forall k :: k != h ==> ListAt(now, k) == ListAt(before, k)
  {
    hide Servers, ListAt, PrimaryOf;
    assert servers[..|servers|] == servers;
  }
}
