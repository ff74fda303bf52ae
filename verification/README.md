# Verified models of GFS-CPP

GFS-CPP reproduces the Google File System: one master that keeps a namespace, a file table and a
chunk table, chunkservers that store 64 MB chunks with checksums, and clients that write, read and
append. This project models the algorithms behind it in Dafny and proves what they keep.

Objects whose methods update fields are classes here too (`NamespaceManager`, `Metadata`,
`OperationLog`, `ReplicaManager`, `Master`, `Chunkserver`, `ReReplicationManager`, `Rebalancer`,
`NamespaceLock`, `MutationManager`, the client's `Client` and `RecordAppender`). Each method is proved
against a function on values, and the theorems about runs are lemmas about these functions.
`dafny verify dfyconfig.toml` checks everything.

## The parts

**Master state** (`Paths`, `Namespace`, `NamespaceListing`, `NamespaceTree`, `ChunkTables`, `Metadata`,
`MasterState`, `Effects`, `Snapshot`, `Sharing`, `Master`). The pointer tree refines a prefix-closed map from paths
to kinds. `MasterState.Live` is one request to the live master, with the outcomes of everything outside
(log, servers, cloning) as an argument; `MasterState.Replay` is the separately written replay of one log
record. Every step, live or replayed, successful or failed, keeps one joint invariant. `Effects` says of
each request exactly when it succeeds and which entries are different afterwards. `Master.Master`
does the same steps in place, including the snapshot loop with its rollback and copy-on-write with its
five failure points. Its requests are pinned down completely: how a request goes follows from the state
before it, from whether chunkservers delete and clone when they are asked to, and from how many bytes of
a log record reach the file.

**Recovery** (`LogFormat`, `LogRecords`, `Decimal`, `OperationLog`, `CheckpointFormat`, `Checkpoint`,
`Layout`, `Recovery`, `Startup`). Live step and replay of its record simulate each other exactly if the step is
clean, which is a condition on the request that a caller could check first; it also covers records that
were written while their flush failed. `Layout` says what stands at which byte of log and checkpoint
files. `Startup` puts it together over the bytes on disk: in any execution of clean requests, checkpoints, lost or damaged checkpoint
files and earlier restarts, starting from log and checkpoint files succeeds and gives back the live
namespace, file table and chunk table.

**Sharing chunks** (`Isolation`, `ClientIO`, `FairWrites`, `StaleReads`). A file's content is the list of its chunks'
bytes. Any interleaving of all thirteen requests, of writes through the copy-on-write hook with
arbitrarily stale location caches, and of restarts does to the contents what the same run does to files
that share nothing. On top of that, writing and reading at any offset and length behave like one flat
file: a successful write is read back in full, and `FairWrites` says exactly when a write succeeds. A
reader with a stale cache reads the flat file still, exactly under a stated condition.

**Chunk data** (`Crc`, `CrcPolynomial`, `Checksums`, `Chunkserver`, `Mutations`, `MutationManager`,
`RecordAppender`). The checksum is CRC-32 (section 8 of RFC 1952): a number is the checksum of a string
exactly if it is the remainder of a division by the generator polynomial. It separates any two strings of
one length that differ only within at most four consecutive bytes. Incremental checksum upkeep equals full
recomputation exactly if a write leaves no gap. A write at an offset succeeds exactly under a stated
condition and then stands there on every copy; record append keeps every secondary a prefix of the
primary, and identical when nothing is pending.

**Placement and locks** (`Replicas`, `ReplicaManager`, `Placement`, `ReReplication`, `Rebalancer`,
`NamespaceLock`, `LockPlaces`). Recovery of a chunk and exactly which servers it adds, the rebalancing plan and exactly
which of its moves are completed, and freedom from deadlock of the ordered path locks, in whatever order
they are given back.

## Where the code does less than its documentation suggests

Each of these is a lemma with the exact condition or a concrete case.

- The master logs before it applies. Creating a file or a directory, renaming and taking a snapshot where
  the new path cannot be created is refused, yet the record stays, and no later recovery from the log
  succeeds (`Recovery.RefusedPathPoisonsTheLog`; `Recovery.RefusedCreatePoisonsTheLog` gives an input).
  `Recovery.StepSimulates` says exactly which logged steps replay: new paths can be created, the last
  handle is not used up, a collected chunk really was deleted, and a record whose flush failed changes
  nothing.
- A record torn by a crash makes the whole log unreadable, not just its tail
  (`LogFormat.TornTailIsRejected`); the master does not start again (`Startup.TornRecordIsFatal`).
- Checkpoint validation accepts a file entry whose node is a directory (`Startup.ValidatedIsNotEnough`).
  What a validated checkpoint restores satisfies the joint invariant exactly if its file entries are its
  file nodes (`Startup.ValidatedIsGenuineIff`). A state that uses the largest handle cannot be restored
  (`Checkpoint.ExportRestores`).
- Allocating the very last handle reports failure, but the file keeps the new chunk
  (`Effects.AllocateChunkEffect`).
- The handle counter is rebuilt below numbers that were given out before (`Checkpoint.CounterIsRebuilt`),
  while chunkservers keep the bytes of deleted files. A new chunk can then start with old bytes
  (`Isolation.RevivedBytes`, reached by `StaleReads.RevivedBytesAreReached`); contents stay
  private in every run after a restart exactly if no bytes are stored at or above the rebuilt counter
  (`Isolation.RestartIff`).
- A write that starts beyond the block after the chunk's end leaves default checksums behind, and reads of
  the gap fail (`Checksums.WriteAgreesIff`). If it starts in that block and fills up the block before it
  with 2^k zeros, that one verifies only if its checksum happens to be 0xFFFFFFFF (`Checksums.NoGapIff`).
- A failed local write uses up a mutation number; from then on the primary applies nothing
  (`Mutations.FailedWriteIsFinal`). A secondary that applied a mutation whose
  answer was lost turns it down for ever, and with it every append (`Mutations.PendingDrainsIff`,
  `Mutations.StuckForever`).
- The rebalancing plan reads counts that do not change while it is made: it moves every movable chunk of
  the fullest server to the emptiest, however far that overshoots (`Rebalancer.PlanRounds`).
- Naming an unknown server as primary is refused but leaves the chunk without a primary
  (`Replicas.SetPrimaryKeepsValid`).
- A reader with a cached handle goes on reading the old chunk after a snapshot and a write
  (`StaleReads.SnapshotThenWriteIsMissed`, reached by `StaleReads.StaleReadIsReached`). It reads what the
  file holds exactly if the chunk was not shared before the write or the write changed nothing in the
  range (`StaleReads.StaleReadIff`).
- A snapshot that comes between copy-on-write and the write it granted is changed by that write
  (`StaleReads.SnapshotBeforeWriteBreaksIsolation`).
- With fewer fresh servers than missing replicas, recovery of a chunk makes no copy at all
  (`ReReplication.FactorReachedIff`).

## Model

| member | source | states |
|---|---|---|
| Paths.IsValidPath | src/master/namespace/namespace_manager.cpp:418-465 | the scan accepts exactly the paths that are a slash-separated list of valid names |
| Paths.SplitPath | src/master/namespace/namespace_manager.cpp:604-637 | the loop returns the components of a valid path, and none for an invalid one |
| Paths.JoinSplit | src/master/namespace/namespace_manager.cpp:604-637 | joining the components of a valid path gives the path back |
| Paths.ParentAndBase | src/master/namespace/namespace_manager.cpp:383-416 | parent and base name of a valid path are valid, shorter, and put together give the path |
| LockPlaces.ValidPathIff | src/master/namespace/namespace_manager.cpp:418-465 | valid are the root and exactly the strings of names, each behind a slash, that are not empty, `.` or `..` and contain no slash and no byte 0 |
| Paths.RelocateBack | src/master/namespace/namespace_manager.cpp:214-341 | moving a path below a directory to another directory and back is the identity |
| Namespace.RenameKeepsWellFormed | src/master/namespace/namespace_manager.cpp:214-341 | after a rename every entry still has its parent directory |
| Namespace.RenameBack | src/master/master.cpp:188-202 | renaming back restores the whole tree, which the master's rollback relies on |
| Namespace.RenameOfFile | src/master/namespace/namespace_manager.cpp:214-341 | renaming a file is one deletion and one insertion, and needs no more than that the new path can be created |
| Namespace.CopyKeepsWellFormed | src/master/master.cpp:289-507 | adding the image of a subtree at a free place, also inside the subtree, keeps the tree well-formed and overwrites nothing |
| NamespaceTree.NamespaceManager.FindNode | src/master/namespace/namespace_manager.cpp:502-562 | walking the child lists finds the node of a path exactly if the path is in the map |
| NamespaceTree.NamespaceManager.Create | src/master/namespace/namespace_manager.cpp:43-125 | success exactly if the path is valid, free and its parent a directory; then the map gains one key, else nothing changes |
| NamespaceTree.NamespaceManager.DeleteFile | src/master/namespace/namespace_manager.cpp:171-212 | removes one key exactly if it is a file |
| NamespaceTree.NamespaceManager.DeleteDirectory | src/master/namespace/namespace_manager.cpp:127-169 | removes one key exactly if it is a directory without children and not the root |
| NamespaceTree.NamespaceManager.HasAncestor | src/master/namespace/namespace_manager.cpp:247-258 | following parent pointers meets a node exactly if its path is a prefix directory, so no cycle can be made |
| NamespaceTree.NamespaceManager.Rename | src/master/namespace/namespace_manager.cpp:214-341 | rewrites exactly the paths under the source; parent links, unique names and childless files hold afterwards |
| NamespaceTree.NamespaceManager.ExportNodes | src/master/namespace/namespace_manager.cpp:653-718 | the stack-driven traversal lists every entry once, sorted by path |
| NamespaceTree.NamespaceManager.RestoreNodes | src/master/namespace/namespace_manager.cpp:730-830 | succeeds exactly on listings whose paths are valid and distinct and whose parents are listed as directories, and rebuilds exactly the listed entries |
| NamespaceListing.ListingIsRestorable | src/master/namespace/namespace_manager.cpp:730-830 | every listing of a well-formed tree can be restored, because depth order creates parents first |
| ChunkTables.DeleteKeepsConsistent | src/master/metadata/metadata.cpp:31-53 | deleting a file erases exactly the chunks whose last reference it held, and no file is left listing an erased chunk |
| ChunkTables.AllocateKeepsConsistent | src/master/metadata/metadata.cpp:144-186 | allocation keeps handles distinct and below the counter |
| ChunkTables.ReplaceKeepsConsistent | src/master/metadata/metadata.cpp:243-291 | replacing a slot keeps the handles of the file distinct and live |
| Metadata.Metadata.DeleteFile | src/master/metadata/metadata.cpp:31-53 | takes the file away and exactly those of its chunks that no other file lists |
| Metadata.Metadata.AllocateChunk | src/master/metadata/metadata.cpp:144-186 | stores the chunk with the given version and size, appends it to the file and moves the counter; fails if the counter wraps |
| Metadata.Metadata.AllocateStandaloneChunk | src/master/metadata/metadata.cpp:188-223 | adds a chunk without a file, or takes it back if the counter wraps |
| Metadata.Metadata.ReplaceChunkInFile | src/master/metadata/metadata.cpp:243-291 | exchanges one slot unless the handle is in the file already |
| Metadata.Metadata.RemoveChunkFromFile | src/master/metadata/metadata.cpp:293-305 | takes the first occurrence of a handle out of a file |
| Metadata.Metadata.DeleteChunk | src/master/metadata/metadata.cpp:325-343 | takes the chunk out of every file and erases it |
| Metadata.Metadata.GetChunkReferenceCount | src/master/metadata/metadata.cpp:474-491 | counts the files that list a live chunk |
| Metadata.Metadata.CloneFileMetadata | src/master/metadata/metadata.cpp:493-528 | copies an entry if all its chunks are live |
| Metadata.Metadata.ExportFiles | src/master/metadata/metadata.cpp:538-562 | lists every file once, sorted |
| Metadata.Metadata.ExportChunks | src/master/metadata/metadata.cpp:564-587 | lists every chunk once, sorted |
| Metadata.Metadata.RestoreFile | src/master/metadata/metadata.cpp:595-629 | adds an entry unless it is taken, has factor 0, a zero handle or a handle twice |
| Metadata.Metadata.RestoreChunk | src/master/metadata/metadata.cpp:631-665 | adds a chunk and moves the counter past it |
| Metadata.Metadata.CreateFile | src/master/metadata/metadata.cpp:11-29 | adds exactly one entry, of size 0 and without chunks, unless the path is taken or empty or the factor is 0 |
| Metadata.Metadata.RenameFile | src/master/metadata/metadata.cpp:55-84 | moves the whole entry to a free path |
| Metadata.Metadata.UpdateFileSize | src/master/metadata/metadata.cpp:104-117 | changes the size of one entry |
| Metadata.Metadata.AddChunkToFile | src/master/metadata/metadata.cpp:225-241 | appends a live chunk that the file does not list |
| Metadata.Metadata.SetChunkVersion | src/master/metadata/metadata.cpp:386-400 | changes the version of one chunk, not to 0 |
| Metadata.Metadata.SetChunkSize | src/master/metadata/metadata.cpp:433-446 | changes the size of one chunk |
| MasterState.LiveKeepsInv | src/master/master.cpp:68-205 | every live request, whatever log and servers do, keeps: namespace files are the metadata paths, listed handles are live and distinct, the counter is above all handles |
| Effects.CreateDirectoryEffect | src/master/master.cpp:213-227 | succeeds exactly if the path can be created and the record is written; then one directory is added, else nothing changes |
| Effects.FactorRule | src/master/master.cpp:75-108 | an explicit factor is refused if fewer servers are live; without one it is the default, reduced to the live servers |
| Effects.CreateFileEffect | src/master/master.cpp:68-130 | succeeds exactly if the path can be created, a factor is found and the record is written; then one node and one empty entry are added |
| Effects.DeleteFileEffect | src/master/master.cpp:132-171 | succeeds exactly on files; the file goes, and exactly those of its chunks that no other file lists |
| Effects.RenameFileEffect | src/master/master.cpp:173-205 | succeeds exactly if the source is a file and the destination can be created; size, factor and chunks move along |
| Effects.AllocateChunkEffect | src/master/master.cpp:719-751 | a new chunk has version 1 and size 0 and is the file's last; the very last handle is used up by a failure that leaves the chunk behind |
| Effects.UpdateFileSizeEffect | src/master/master.cpp:247-263 | succeeds exactly on files with an entry; the size is the one asked for, nothing else changes |
| Effects.SetChunkVersionEffect | src/master/master.cpp:680-698 | succeeds exactly on live chunks and versions other than 0; only the version changes |
| Effects.SetChunkSizeEffect | src/master/master.cpp:700-717 | succeeds exactly on live chunks; only the size changes |
| Effects.AddChunkToFileEffect | src/master/master.cpp:753-771 | succeeds exactly if the chunk is live and not in the file; it becomes the last |
| Effects.RemoveChunkFromFileEffect | src/master/master.cpp:773-800 | succeeds exactly if the file lists the live chunk; its first occurrence goes, the chunk stays |
| Effects.CollectEffect | src/master/master.cpp:848-886 | a live chunk is erased exactly if no file lists it and the chunkservers deleted it; nothing else changes |
| Effects.SnapshotSucceedsIff | src/master/master.cpp:265-287 | a snapshot succeeds exactly if the source exists, the destination can be created and the record is written; a failure changes nothing |
| Recovery.ReplayKeepsInv | src/master/master.cpp:1170-1526 | replaying any record at all keeps the same invariant |
| Recovery.StepSimulates | src/master/master.cpp:68-205 | a live step and the replay of its record, from states that agree, end in states that agree if and only if the step was clean, whatever became of the record |
| Recovery.RunSimulates | src/master/master.cpp:1024-1032 | replaying the log of a clean run succeeds and ends in a state that agrees with its end |
| Recovery.RecoverFromLog | src/master/master.cpp:982-1038 | replaying the whole log from the empty state gives the live state |
| Recovery.RecoverFromCheckpoint | src/master/master.cpp:998-1032 | restoring the state after any point of the run and replaying the later records gives the live state |
| Recovery.UncleanStepIsNotRecovered | src/master/master.cpp:110-126 | a clean run followed by one step that is logged but not clean is not recovered |
| Recovery.RefusedPathPoisonsTheLog | src/master/master.cpp:68-287 | after any clean run, a create, rename or snapshot to a path that cannot be created is refused and logged, and no replay of the log succeeds, whatever is logged later |
| Recovery.RefusedCreatePoisonsTheLog | src/master/master.cpp:110-118 | an instance: creating /d/f on a new master, where there is no /d, leaves the state alone and a record that no replay survives |
| LogFormat.FieldsRoundTrip | src/master/recovery/operation_log.cpp:221-276 | decoding gives a list of fields if and only if the input is its encoding and the lengths fit |
| LogFormat.ParseLogIff | src/master/recovery/operation_log.cpp:300-394 | parsing gives records if and only if the bytes are their encoding and they are valid and numbered 1 to n |
| LogFormat.TruncatedLog | src/master/recovery/operation_log.cpp:300-394 | every truncation of a log is rejected or parses to a front part of its records |
| LogFormat.TornTailIsRejected | src/master/recovery/operation_log.cpp:396-441 | a log followed by part of one more record is rejected as a whole |
| OperationLog.OperationLog.ReadRecords | src/master/recovery/operation_log.cpp:300-394 | the read loop returns what the parser returns, and fails where it fails |
| OperationLog.OperationLog.Append | src/master/recovery/operation_log.cpp:135-159 | appends exactly one record with the next number, or leaves a torn record and the number unused |
| OperationLog.OperationLog.Open | src/master/recovery/operation_log.cpp:54-103 | opens exactly the files that parse, and takes over their records |
| OperationLog.OperationLog.Replay | src/master/recovery/operation_log.cpp:180-204 | the records after a given number |
| OperationLog.EncodeFieldList | src/master/recovery/operation_log.cpp:221-237 | the loop writes the encoding of the fields |
| OperationLog.DecodeFieldList | src/master/recovery/operation_log.cpp:239-276 | the loop decodes exactly the encodings |
| Decimal.DecimalRoundTrip | src/master/master.cpp:1183-1198 | a number written in decimal is read back as itself |
| LogRecords.OperationRoundTrip | src/master/master.cpp:1170-1526 | what replay parses from the fields of a valid operation is that operation |
| LogRecords.ReplayOfRecords | src/master/master.cpp:1024-1032 | replaying the records of operations is replaying the operations |
| LogRecords.LoggedIsValid | src/master/master.cpp:44-66 | everything the live master logs passes the range checks of replay |
| Layout.EncodedByte | src/master/recovery/checkpoint.cpp:13-20 | byte i of an integer has weight 256 to the power i |
| Layout.DecimalDigit | src/master/master.cpp:254-256 | the i-th digit from the right has weight 10 to the power i |
| Layout.FieldLayout | src/master/recovery/operation_log.cpp:221-237 | every field stands behind its length in eight bytes, directly behind the field before it |
| Layout.RecordLayout | src/master/recovery/operation_log.cpp:396-441 | a record is magic number, version, sequence number, kind, payload size, checksum and payload, at fixed positions |
| Layout.OperationLayout | include/gfs/master/recovery/operation_log.hpp:12-26 | which number stands at byte 16 for each of the thirteen operations, and which fields, in which order, from byte 28 on |
| Checkpoint.ValidateState | src/master/recovery/checkpoint.cpp:781-877 | the sorted scans accept exactly the states without duplicates, bad paths or unknown references |
| Checkpoint.ExportValidates | src/master/recovery/checkpoint.cpp:781-877 | every export of a state that satisfies the joint invariant passes validation |
| Checkpoint.Serialize | src/master/recovery/checkpoint.cpp:428-552 | writes header, size, checksum and the three sorted lists |
| Checkpoint.Deserialize | src/master/recovery/checkpoint.cpp:554-779 | accepts exactly the bytes that parse, have the right checksum and validate |
| CheckpointFormat.StateRoundTrip | src/master/recovery/checkpoint.cpp:428-779 | parsing gives a state if and only if the bytes are its encoding and its numbers fit |
| Layout.CheckpointLayout | src/master/recovery/checkpoint.cpp:532-549 | a checkpoint is magic number, version, body size, checksum and body, at fixed positions |
| Layout.BodyLayout | src/master/recovery/checkpoint.cpp:464-530 | the body is the sequence number and three lists, each behind its length: namespace, files, chunks |
| Layout.FileLayout | src/master/recovery/checkpoint.cpp:489-511 | a file entry is path, size, factor and the handles in order behind their number |
| Layout.NodeLayout | src/master/recovery/checkpoint.cpp:475-482 | a namespace entry is path and kind, 0 for a directory and 1 for a file |
| Layout.ChunkLayout | src/master/recovery/checkpoint.cpp:518-530 | a chunk entry is handle, version and size |
| Checkpoint.CheckpointReadsBack | src/master/recovery/checkpoint.cpp:428-779 | the bytes of a checkpoint of a good state read back as that checkpoint |
| Checkpoint.Restore | src/master/recovery/checkpoint.cpp:351-390 | succeeds exactly if state, listing and tables are acceptable, and then holds exactly the checkpoint's entries |
| Checkpoint.ExportRestores | src/master/recovery/checkpoint.cpp:351-390 | an export restores if and only if the largest handle is unused, and then agrees with the exported state |
| Checkpoint.CounterIsRebuilt | src/master/metadata/metadata.cpp:631-665 | after a restore the counter is one past the largest live handle |
| Startup.StartRebuildsLiveState | src/master/master.cpp:982-1050 | at any point of any execution, starting from the bytes on disk succeeds and gives the live namespace, files and chunks |
| Startup.RestartKeepsRecoverable | src/master/master.cpp:982-1038 | a restarted master can itself be recovered from the same disk |
| Startup.TornRecordIsFatal | src/master/master.cpp:982-1038 | from any recoverable system, with a proper front part of the next record on disk the master starts if and only if that part is empty |
| Startup.SavedLeads | src/master/recovery/checkpoint.cpp:88-205 | a checkpoint leads, with no record after it, to the state it was taken of |
| Startup.ValidatedIsGenuineIff | src/master/recovery/checkpoint.cpp:781-877 | what a validated checkpoint restores satisfies the joint invariant if and only if its file entries are exactly its file nodes |
| Startup.ValidatedIsNotEnough | src/master/recovery/checkpoint.cpp:781-877 | an instance: a checkpoint that passes validation and restores but breaks the joint invariant |
| Startup.ReachableCheckpointMatches | src/master/master.cpp:982-1038 | in every execution the checkpoint file a starting master picks meets that condition |
| Master.Master.AppendOperation | src/master/master.cpp:44-66 | one more record exactly if the log is open and not at its last number, the record fits and is written in full; otherwise none; the flush decides the rest |
| Master.Master.CreateFile | src/master/master.cpp:68-130 | does what the live step does under the outcomes that follow from state and inputs, with rollback of the namespace if the file table refuses; the new file has size 0, the resolved factor and no chunks |
| Master.Master.DeleteFile | src/master/master.cpp:132-171 | does what the live step does; marks as orphans the chunks it held last, and drops replicas and leases of those nobody lists any more; a refused request drops nothing |
| Master.DeletedChunks | src/master/master.cpp:138-166 | the chunks marked, the chunks whose replicas are dropped and the chunks erased are the same: those with one reference before |
| Master.Master.RenameFile | src/master/master.cpp:173-205 | does what the live step does, with the rename undone if the file table refuses; the file keeps its whole entry under the new path |
| Master.Master.CreateDirectory | src/master/master.cpp:213-227 | does what the live step does |
| Master.Master.UpdateFileSize | src/master/master.cpp:247-263 | does what the live step does; the size is the given one, the rest of the entry stays |
| Master.Master.SetChunkVersion | src/master/master.cpp:680-698 | does what the live step does; the version is the given one, the size stays |
| Master.Master.SetChunkSize | src/master/master.cpp:700-717 | does what the live step does; the size is the given one, the version stays |
| Master.Master.AllocateChunk | src/master/master.cpp:719-751 | does what the live step does and returns the handle that was next; the chunk is stored with version 1 and size 0 and is the last of the file |
| Master.Master.AddChunkToFile | src/master/master.cpp:753-771 | does what the live step does; the chunk becomes the last of the file |
| Master.Master.RemoveChunkFromFile | src/master/master.cpp:773-800 | does what the live step does, and marks a chunk that nobody lists any more |
| Master.Master.GarbageCollectChunk | src/master/master.cpp:848-886 | does what the live step does with the reported deletion; success means that the chunk, its replicas, lease and orphan mark are gone |
| Master.Master.CreateSnapshot | src/master/master.cpp:265-287 | does what the live step does, drops exactly the leases of the source's chunks, and changes nothing if it fails |
| Master.Master.CreateSnapshotInternal | src/master/master.cpp:289-507 | the node-by-node copy equals adding the image of the subtree; every failure leaves namespace and tables as they were |
| Master.Master.Rollback | src/master/master.cpp:388-409 | undoing files and directories in reverse order restores the state the copy started from, without erasing a chunk |
| Snapshot.SnapshotIsImage | src/master/master.cpp:289-507 | a snapshot adds exactly the image of the source as it stood: kinds, sizes, factors, ordered handles, nothing else |
| Snapshot.SnapshotReferences | src/master/master.cpp:493-502 | every chunk gains one reference for each file under the source that lists it |
| Snapshot.SnapshotNodeSucceeds | src/master/master.cpp:442-491 | from a state that satisfies the invariant no step of the copy fails, also if the destination lies inside the source |
| Master.Master.PrepareCopyOnWrite | src/master/master.cpp:509-661 | does what the value form does, with registration decided by the replica lists; on success the slot's chunk has one reference, and a fresh chunk is registered on the same servers with the first of them as primary; every failure takes the tables back |
| Master.Master.AllocateCopy | src/master/master.cpp:545-598 | the fresh chunk is allocated and registered where the old one is, with the first of these servers as primary, or the tables are back up to the counter |
| Master.Master.InstallCopy | src/master/master.cpp:604-661 | slot and log change as in the value form; a failed clone or log append takes slot and chunk back |
| Sharing.CopyOnWriteAllOrNothing | src/master/master.cpp:509-661 | success exactly under a stated condition; on a shared chunk it changes one slot, to a fresh handle with the same version and size, and moves one reference; failure changes no file and no chunk |
| Master.Master.ReplayOperation | src/master/master.cpp:1170-1526 | parses, checks and applies one record as the value form does |
| Master.Master.Initialize | src/master/master.cpp:982-1038 | succeeds exactly if starting from log and checkpoint files does, and then holds that state, provided the file entries of the loaded checkpoint are its file nodes |
| Master.Master.LoadLatest | src/master/recovery/checkpoint.cpp:207-303 | the first file, newest first, that reads and validates |
| Master.Master.CreateCheckpoint | src/master/master.cpp:1040-1050 | the bytes of an export of the state, numbered with the last record |
| Isolation.RunIsPrivate | src/client/io/writer.cpp:93-183 | whole runs of all requests, of copy-on-write writes with stale caches and of restarts leave the contents that they leave on files that share nothing |
| Isolation.RunFromNewIsPrivate | src/client/io/writer.cpp:93-183 | the same from the empty system on |
| Isolation.RestartIff | src/master/metadata/metadata.cpp:631-665 | after a restart every run leaves what it leaves on private files if and only if no bytes are stored at or above the rebuilt counter |
| Isolation.RebuiltCounterIff | src/master/metadata/metadata.cpp:631-665 | right after a checkpoint: if and only if every handle with bytes is at most a live one |
| Isolation.RevivedBytes | src/master/master.cpp:719-751 | a new chunk starts with whatever is stored under its handle |
| Isolation.WriteContents | src/client/io/writer.cpp:127-162 | a write lands on the chunk the master lists at that moment, which has one reference, whatever handle was cached |
| Isolation.CopyOnWriteContents | src/master/master.cpp:509-661 | copy-on-write changes no content, whether it succeeds or fails |
| Isolation.RequestContents | src/master/master.cpp:68-507 | every request other than copy-on-write changes the contents as it would change private files |
| Isolation.OthersUntouched | src/master/master.cpp:68-507 | a step changes the content only of the files it names |
| Isolation.RawWriteIsolatedIff | src/client/io/writer.cpp:243-283 | a write without copy-on-write leaves all other files alone, whatever is written, if and only if the chunk has one reference |
| ClientIO.PiecesAreFlat | src/client/io/writer.cpp:93-183 | the pieces of a write are one flat write of the range: new bytes inside, old bytes outside, zeros in a gap of the first chunk, other files untouched; a failed write has done a front part |
| ClientIO.ReadIsFlat | src/client/io/reader.cpp:96-155 | with a coherent cache a read returns the flat bytes of the range, and it succeeds exactly if they all exist |
| ClientIO.ReadBack | src/client/io/reader.cpp:96-155 | reading back a range just written returns exactly the data |
| ClientIO.ReadAfterWrite | src/client/io/reader.cpp:19-61 | a range that has been written and recorded as size is read back in full, clamped to that size |
| FairWrites.ChunkWriteSucceedsIff | src/client/io/writer.cpp:119-167 | a write to one chunk succeeds exactly if the file exists, the servers answer, and either the slot exists and copy-on-write grants it or it is the next one, nothing is cached for it and a handle is left |
| FairWrites.FairPiecesSucceed | src/client/io/writer.cpp:93-183 | if master and servers do their part, a write succeeds at any offset up to the end of the last chunk, of any length, on shared chunks too, as long as a handle is left for each chunk it touches |
| FairWrites.FairWriteIsReadBack | src/client/io/writer.cpp:93-183 | and is then read back in full by every reader whose cache is right |
| StaleReads.StaleReadIff | src/client/io/reader.cpp:157-189 | after a successful write a reader whose cache was right before reads what the file holds if and only if no other file shared the chunk or the write changed nothing in the range |
| StaleReads.SnapshotThenWriteIsMissed | src/client/io/reader.cpp:157-189 | a snapshot followed by any successful write of the file: the cached reader reads the old bytes, a fresh one the new |
| StaleReads.StaleReadIsReached | src/client/io/reader.cpp:157-189 | a run from the empty system that ends there |
| StaleReads.SnapshotBeforeWriteBreaksIsolation | src/client/io/writer.cpp:127-162 | after a snapshot between copy-on-write and the write, some write changes another file |
| StaleReads.RevivedBytesAreReached | src/master/metadata/metadata.cpp:631-665 | a run after which a restarted master gives out a handle under which bytes are still stored |
| ClientIO.Client.WriteSequential | src/client/io/writer.cpp:93-183 | the loop equals the recursive form, and is a flat write; a successful write records its end as size, and every reader with a right cache reads exactly the data back, clamped to that size |
| ClientIO.Client.WriteOneChunk | src/client/io/writer.cpp:119-167 | resolve, hook, invalidate, resolve, write, as the value form does |
| ClientIO.Client.ResolveOrAllocateChunk | src/client/io/writer.cpp:197-241 | the cached handle, the master's handle, or a new chunk at the end of the file |
| ClientIO.Client.ReadSequential | src/client/io/reader.cpp:96-155 | the loop equals the recursive form, and is a flat read |
| ClientIO.Client.Read | src/client/io/reader.cpp:19-61 | returns the flat bytes of the range, clamped to the recorded size; with a right cache it succeeds exactly if the range does not start beyond that size and all its bytes below it exist |
| Crc.ComputeCRC32 | src/chunkserver/checksum/checksum_manager.cpp:102-121 | the bit loop computes the register function, which is CRC-32 by CrcPolynomial.ChecksumIsCrc32 |
| CrcPolynomial.ChecksumIsCrc32 | src/chunkserver/checksum/checksum_manager.cpp:102-121 | a number is the checksum exactly if it is, inverted, what the division of the message, behind 32 ones and before 32 zeros, by the CRC-32 generator leaves |
| CrcPolynomial.PolyOfShift | src/chunkserver/checksum/checksum_manager.cpp:110-117 | one step of the bit loop multiplies by x modulo the generator, whose exponents are written out |
| CrcPolynomial.RemainderIsUnique | src/chunkserver/checksum/checksum_manager.cpp:17-18 | quotient and remainder of that division are unique |
| CrcPolynomial.CheckValue | src/chunkserver/checksum/checksum_manager.cpp:102-121 | the digits 1 to 9 have the checksum 0xCBF43926 |
| Crc.BurstDetected | src/chunkserver/checksum/checksum_manager.cpp:102-121 | two strings of any equal length that differ only within at most four consecutive bytes have different checksums |
| Crc.ShortStringsSeparate | src/chunkserver/checksum/checksum_manager.cpp:102-121 | so have any two different strings of equal length up to four |
| Crc.ZeroBlockChecksum | src/chunkserver/checksum/checksum_manager.cpp:482-503 | a block of 2^k zeros never has the default checksum 0 |
| Checksums.WriteAgreesIff | src/chunkserver/checksum/checksum_manager.cpp:166-211 | upkeep after a write equals full recomputation if and only if the write leaves no gap |
| Checksums.NoGapIff | src/chunkserver/checksum/checksum_manager.cpp:482-503 | a write in the block after a partial one that it fills up with 2^k zeros leaves no gap if and only if the partial block has checksum 0xFFFFFFFF |
| Crc.PaddingUnnoticedIff | src/chunkserver/checksum/checksum_manager.cpp:102-121 | zeros behind a string keep its checksum if it is 0xFFFFFFFF, and 2^k zeros only then |
| Checksums.RunAgrees | src/chunkserver/checksum/checksum_manager.cpp:166-261 | after any run of truncations and of writes that start at or before the end, every entry is the checksum of its block |
| Checksums.AgreeingVerifies | src/chunkserver/checksum/checksum_manager.cpp:283-355 | with such a table verification accepts exactly the ranges inside the chunk |
| Checksums.DamageIsNoticed | src/chunkserver/checksum/checksum_manager.cpp:283-355 | verification fails on any range that touches a block, however short, damaged within at most four consecutive bytes |
| Chunkserver.Chunkserver.RecomputeBlocks | src/chunkserver/checksum/checksum_manager.cpp:458-506 | resizes the table with zeros and recomputes the given blocks |
| Chunkserver.Chunkserver.VerifyChunkRange | src/chunkserver/checksum/checksum_manager.cpp:283-355 | accepts exactly if every touched block has the recorded checksum |
| Chunkserver.Chunkserver.WriteChunk | src/chunkserver/chunkserver.cpp:169-194 | puts the data at its offset, with zeros in a gap, updates the table, and keeps both in agreement exactly if there is no gap |
| Chunkserver.Chunkserver.TruncateChunk | src/chunkserver/chunkserver.cpp:213-236 | keeps the front and fills up with zeros, and leaves an agreeing table |
| Chunkserver.Chunkserver.ReadChunk | src/chunkserver/chunkserver.cpp:114-143 | returns exactly the verified slice; succeeds on every range inside the chunk while table and bytes agree |
| Chunkserver.Chunkserver.Clone | src/chunkserver/replication/clone_manager.cpp:17-53 | the fresh handle gets the source's bytes and an agreeing table; failure leaves the chunks as they were |
| Chunkserver.Chunkserver.Receive | src/chunkserver/replication/replica_receiver.cpp:14-46 | the chunk holds exactly the received data, whatever was there, with an agreeing table |
| Mutations.SecondariesArePrefixes | src/chunkserver/mutation/mutation_manager.cpp:56-292 | in every run, with any number of secondaries and any failures, each secondary has applied a front part of what the primary has |
| Mutations.AppendsStayInStep | src/chunkserver/mutation/mutation_manager.cpp:99-292 | in runs of appends a secondary lags by at most the last mutation, which then is pending |
| Mutations.NothingPendingMeansIdentical | src/chunkserver/mutation/mutation_manager.cpp:99-292 | with nothing pending all copies hold identical bytes |
| Mutations.PendingDrainsIff | src/chunkserver/mutation/mutation_manager.cpp:133-175 | the pending mutation can be passed on if and only if it is the next one for every secondary |
| Mutations.StuckForever | src/chunkserver/mutation/mutation_manager.cpp:400-416 | once a secondary has applied the pending mutation, nothing later clears it |
| Mutations.StuckAppend | src/chunkserver/mutation/mutation_manager.cpp:150-158 | and every append fails without touching the primary |
| Mutations.AppendSucceedsIff | src/chunkserver/mutation/mutation_manager.cpp:99-292 | with copies in step and nothing pending an append succeeds if and only if the record is not empty, is at most a quarter of a chunk and fits, the primary applies its next number, and every secondary gets it and answers |
| Mutations.WriteSucceedsIff | src/chunkserver/mutation/mutation_manager.cpp:56-97 | a write succeeds if and only if it lies in the chunk, the primary is in order and stores it, every secondary has applied as much as the primary, and all of them get it and answer |
| Mutations.WriteIsStored | src/chunkserver/mutation/mutation_manager.cpp:400-452 | the primary stores it exactly under its part of that condition: the data at its offset, zeros in a gap, every other byte as before; otherwise nothing changes |
| Mutations.WriteReaches | src/chunkserver/mutation/mutation_manager.cpp:91-96 | every secondary is as before or holds the same write at the same offset; after a success all do |
| Mutations.ByteKept | src/chunkserver/mutation/mutation_manager.cpp:56-292 | over any run of writes and appends a byte keeps its value unless a write covers it |
| Mutations.LastWriteDecides | src/chunkserver/mutation/mutation_manager.cpp:56-292 | the last write to a position decides its byte, whatever is written and appended later |
| Mutations.FailedWriteIsFinal | src/chunkserver/mutation/mutation_manager.cpp:245-269 | after a local write that failed the primary stores nothing more, whatever is written or appended, for as many attempts as there are numbers |
| Mutations.WedgedForLong | src/chunkserver/mutation/mutation_manager.cpp:400-416 | the same from any state in which a number has been skipped |
| Mutations.AppendGeometry | src/chunkserver/mutation/mutation_manager.cpp:174-292 | a record is appended at the end, or padding shorter than it fills the chunk exactly; the size never exceeds 64 MB |
| Mutations.RecordsKept | src/chunkserver/mutation/mutation_manager.cpp:174-292 | over any run successful records lie in disjoint ranges and keep their bytes |
| MutationManager.MutationManager.ApplyMutation | src/chunkserver/mutation/mutation_manager.cpp:400-452 | applies the next mutation and no other, in place |
| MutationManager.MutationManager.AssignMutationId | src/chunkserver/mutation/mutation_manager.cpp:374-398 | uses up one number, with wrap-around |
| MutationManager.MutationManager.ExecutePrimaryMutation | src/chunkserver/mutation/mutation_manager.cpp:56-97 | succeeds exactly if the write lies in the chunk, the primary is in order and stores it, every secondary has applied as much and all are reached; then the data stands at its offset on every copy, and nothing else has changed |
| MutationManager.MutationManager.ExecutePrimaryRecordAppend | src/chunkserver/mutation/mutation_manager.cpp:99-292 | does what the value form does, touches no other chunk, and keeps the checksum table of the chunk right |
| RecordAppender.RecordAppender.Append | src/client/io/record_appender.cpp:21-223 | the retry loop equals the recursive form; on success the record stands at the reported offset and every chunk passed over is full; no chunk ever loses a byte |
| RecordAppender.FirstReachedDecides | src/client/io/record_appender.cpp:42-223 | the first attempt that reaches the primary succeeds if the record fits, is written and delivered, and its size is recorded; the record then ends the chunk |
| RecordAppender.WithinOneChunk | src/client/io/record_appender.cpp:125-157 | the reported range does not straddle a chunk boundary |
| Replicas.RegisterKeepsValid | src/master/replication/replica_manager.cpp:8-49 | servers stay distinct, at most one is primary, and a new primary takes the flag from the old |
| Replicas.RemoveKeepsValid | src/master/replication/replica_manager.cpp:51-93 | exactly one server leaves, the others keep their order; the primary stays, or the first that is left takes over from it |
| Replicas.SetPrimaryKeepsValid | src/master/replication/replica_manager.cpp:186-213 | the named server is the only primary if it is listed; if not, none is left |
| ReplicaManager.ReplicaManager.RegisterReplica | src/master/replication/replica_manager.cpp:8-49 | does what the value form does |
| ReplicaManager.ReplicaManager.RemoveReplica | src/master/replication/replica_manager.cpp:51-93 | does what the value form does |
| ReplicaManager.ReplicaManager.SetPrimary | src/master/replication/replica_manager.cpp:186-213 | does what the value form does |
| ReplicaManager.ReplicaManager.GetPrimary | src/master/replication/replica_manager.cpp:162-184 | the server with the flag, if there is one |
| Placement.SelectReplicas | src/master/replication/placement_policy.cpp:30-85 | exactly as many distinct servers as asked for, the least loaded first, or none if there are not that many |
| Placement.IsValidPlacement | src/master/replication/placement_policy.cpp:98-116 | accepts exactly the lists of the right length without 0 and without repetition |
| ReReplication.ReReplicationManager.RecoverChunk | src/master/replication/re_replication.cpp:593-739 | keeps exactly the originals that are alive and not stale; a healthy primary stays, otherwise the first healthy original takes over; adds exactly the chosen destinations to which the transfer works, each with a healthy original's bytes; success exactly if enough were healthy or one was added |
| ReReplication.FactorReachedIff | src/master/replication/re_replication.cpp:593-739 | with all fresh servers reachable the chunk gets back exactly its factor if and only if there are as many as are missing; with fewer, not one copy is made |
| ReReplication.ReReplicationManager.GetRecoveryDestinations | src/master/replication/re_replication.cpp:259-356 | as many distinct live reachable servers without a replica as are missing, the least loaded, or none if there are not that many |
| ReReplication.ReReplicationManager.FindRecoverySource | src/master/replication/re_replication.cpp:223-257 | the primary if it is healthy, else the first healthy replica, else none |
| ReReplication.ReReplicationManager.TransferReplica | src/master/replication/re_replication.cpp:358-398 | succeeds exactly if both servers are reachable, the source has the chunk, it fits and the way works; then the destination holds the source's bytes, else nothing changes |
| ReReplication.RefillDone | src/master/replication/re_replication.cpp:694-739 | when the copying stops, the recovery is as described |
| Rebalancer.Plan | src/master/replication/rebalancer.cpp:56-206 | the plan loop ends and names, each once and in ascending order, every chunk that can be moved from the fullest to the emptiest server, or nothing |
| Rebalancer.PlanRounds | src/master/replication/rebalancer.cpp:102-182 | the rounds recompute the same source and destination, so the eligible chunks of the source run out |
| Rebalancer.GetChunksForServer | src/master/replication/replica_manager.cpp:243-269 | the chunks of a server, each once, ascending |
| Rebalancer.MoveConserves | src/master/replication/rebalancer.cpp:214-276 | each step of a move succeeds and leaves a replica; the whole keeps their number and the primary, and touches no other chunk |
| Rebalancer.Rebalancer.ExecuteMove | src/master/replication/rebalancer.cpp:214-276 | the move is made in full exactly if both servers are alive and reachable, the source's replica is current and not one of several with the primary on it, the destination has none, and the transfer works; otherwise lists and servers are unchanged |
| Rebalancer.Rebalancer.Rebalance | src/master/replication/rebalancer.cpp:278-297 | completes exactly the moves of the plan whose transfer works, in order; no chunk gains or loses replicas, and a chunk with a primary keeps one |
| NamespaceLock.NamespaceLock.NodesFor | src/master/namespace/namespace_lock.cpp:26-84 | a guard's nodes, each once, in ascending order: exactly the nodes of its valid paths |
| NamespaceLock.NamespaceLock.GetOrCreateNode | src/master/namespace/namespace_lock.cpp:86-139 | one node per place, at an address of its own; existing nodes never move |
| LockPlaces.ComponentsIff | src/master/namespace/namespace_lock.cpp:86-139 | a node is found exactly for names, none empty, each behind a slash, with or without one more slash at the end, and the names are its place |
| LockPlaces.ComponentsOfValid | src/master/namespace/namespace_lock.cpp:86-139 | a valid path has the place of its components |
| NamespaceLock.NoDeadlock | src/master/namespace/namespace_lock.cpp:225-276 | in every reachable state with an unfinished thread some thread can step, also if waiting writers go before readers |
| NamespaceLock.ReadersNeverWait | src/master/namespace/namespace_lock.cpp:225-276 | as long as all threads read, none of them ever waits, whatever they hold |
| NamespaceLock.RunInv | src/master/namespace/namespace_lock.cpp:225-276 | no run lets a writer share a lock, and no run is longer than the work there is |
| NamespaceLock.EveryoneFinishes | src/master/namespace/namespace_lock.cpp:225-276 | from any such state there is a schedule in which every thread gets and returns all its locks |
| NamespaceLock.GuardsNeverDeadlock | src/master/namespace/namespace_lock.cpp:225-276 | from threads that hold nothing: after any run some unfinished thread can step, no writer shares a lock, and the run has at most two steps for each lock of each guard |

## Left out

- Master.Master.Initialize: covers loaded checkpoints whose file entries are their file nodes, as every checkpoint that a master saved has them (`Startup.ReachableCheckpointMatches`), and, if the log is open already, a file that does not read or holds as many records as were counted; what replay does to the inconsistent state that another checkpoint restores is not modelled.
- Master.Master.CreateSnapshot: starts from a state that satisfies the joint invariant, which every other step is proved to keep.
- Startup.StartRebuildsLiveState: covers executions whose logged requests are clean and whose records are written in full or not at all; `Recovery.UncleanStepIsNotRecovered` and `Startup.TornRecordIsFatal` show that one other step is enough to lose the state.
- Isolation.RunIsPrivate: covers restarts after which no stored handle is at or above the rebuilt counter, since the others are not private (`Isolation.RevivedBytes`); each chunk write is one step, since a snapshot between the hook and the write is not private either (`StaleReads.SnapshotBeforeWriteBreaksIsolation`); record appends, which have no copy-on-write hook, are not among the actions.
- ClientIO.Client.WriteSequential: one byte sequence per handle stands for all replicas, and the first responsive replica for the loop over locations; recording the chunk size after each piece is not modelled; offset plus length stays below 64 bits.
- RecordAppender.RecordAppender.Append: finding primary, lease and current handle is one outcome per attempt; the offset is stated for chunks whose start fits 64 bits.
- Checksums.NoGapIff: names the checksum for paddings of 2^k bytes; for others the condition stays that padding does not change it.
- Mutations.SecondariesArePrefixes: appends are atomic; the source reads the offset outside the lock.
- ReReplication.ReReplicationManager.TransferReplica: only the transfer inside one process; the network branch is a foreign call.
- A master without a persistence directory, which skips the log.
- gRPC services, sockets, deadlines, files, directory scans and renames: a log and a checkpoint file are byte sequences, and their failures are outcomes.
- Integers are written in the byte order of a little-endian host.
- `std::sort` is a sort; the iteration order of unordered maps is arbitrary.
- Leases are the set of leased handles, without holders and expiry; heartbeats are the sets of live, alive and stale servers.
- The set of replica ids inside a chunk's metadata, which nothing durable reads.
- Mutexes other than the namespace locks: every method is atomic.
- Persisting and loading checksum tables, and I/O errors of chunk files other than those of mutations.
- The collector's loop over orphans and the loops over all chunks to recover: they repeat proved steps.
- Chunk ids from `GenerateChunkHandle`, listing a directory, counters and accessors: nothing hard to prove.
