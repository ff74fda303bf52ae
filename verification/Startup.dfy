// Starting from disk.

module Startup {
  // The newest checkpoint that can be read is restored and the later records of the log are
  // replayed.  Whatever the master served, saved, lost or restarted before, starting from the bytes
  // on disk gives back the live state.

  import opened Bytes
  import opened Paths
  import opened Namespace
  import opened NamespaceListing
  import opened ChunkTables
  import opened MasterState
  import opened Recovery
  import opened LogFormat
  import opened LogRecords
  import opened CheckpointFormat
  import opened Checkpoint

  /** The contents of the log file and of the checkpoint files, newest first. */
  datatype Disk = Disk(log: str, checkpoints: seq<str>)

  // ----- starting -----

  ghost function Load(bytes: str): Option<State> {
    match ParseState(bytes)
    case None => None
    case Some(c) => if Validated(c) then Some(c) else None
  }

  /** The first file that can be loaded; the others are passed over. */
  ghost function LoadLatest(files: seq<str>): Option<State>
    decreases |files|
  {
    if files == [] then None
    else if Load(files[0]) != None then Load(files[0])
    else LoadLatest(files[1..])
  }

  ghost predicate OneKindPerPath(nodes: seq<NodeInfo>) {
    forall e, f :: e in nodes && f in nodes && e.path == f.path ==> e == f
  }

  ghost function TreeOf(nodes: seq<NodeInfo>): Tree
    requires OneKindPerPath(nodes)
  {
    map e | e in nodes :: e.path := e.kind
  }

  lemma RestorableMeansOneKind(nodes: seq<NodeInfo>)
    requires Restorable(multiset(nodes))
    ensures OneKindPerPath(nodes)
  {
    assert forall e :: e in nodes ==> e in multiset(nodes);
  }

  lemma ItemsOfTree(nodes: seq<NodeInfo>)
    requires OneKindPerPath(nodes)
    ensures Items(TreeOf(nodes)) == (set e | e in nodes)
  {
    var ns := TreeOf(nodes);
    forall e
      ensures e in Items(ns) <==> e in nodes
    {
      InItems(ns, e);
      if e.path in ns {
        var f :| f in nodes && f.path == e.path;
        assert ns[f.path] == f.kind;
      }
    }
  }

  ghost predicate CanRestore(c: State) {
    Restorable(multiset(c.nodes)) && RestoreTables(c).ok
  }

  ghost function Restored(c: State): Durable
    requires CanRestore(c)
  {
    RestorableMeansOneKind(c.nodes);
    Durable(TreeOf(c.nodes), RestoreTables(c).state)
  }

  /** Restore a checkpoint, then replay the records after it. */
  ghost function StartFrom(c: State, records: seq<Record>): Step<Durable> {
    if c.sequence > |records| || !CanRestore(c) then Step(INITIAL, false)
    else ReplayRecords(Restored(c), records[c.sequence..])
  }

  ghost function Start(disk: Disk): Step<Durable> {
    match ParseLog(disk.log, 1)
    case None => Step(INITIAL, false)
    case Some(records) =>
      match LoadLatest(disk.checkpoints)
      case None => ReplayRecords(INITIAL, records)
      case Some(c) => StartFrom(c, records)
  }

  // ----- when validation is enough -----

  ghost function FilePaths(files: seq<PersistentFile>): set<str> {
    set f | f in files :: f.path
  }

  /** What validation does not check: the file entries are exactly the nodes that are files. */
  ghost predicate FilesMatch(c: State) {
    forall p :: p in FilePaths(c.files) <==> NodeInfo(p, File) in c.nodes
  }

  lemma {:induction false} RestoredFiles(t: Tables, list: seq<PersistentFile>)
    requires RestoreFiles(t, list).ok
    ensures var r := RestoreFiles(t, list).state;
            && r.files.Keys == t.files.Keys + FilePaths(list)
            && r.chunks == t.chunks && r.next == t.next
            && forall p :: p in r.files ==>
                 || (p in t.files && r.files[p] == t.files[p])
                 || (p != [] && r.files[p].factor != 0 && NoDuplicates(r.files[p].chunks)
                     && PersistentFile(p, r.files[p].size, r.files[p].factor, r.files[p].chunks) in list)
    decreases |list|
  {
    if list != [] {
      var f := list[0];
      var t' := RestoreFile(t, f.path, f.size, f.factor, f.chunks).state;
      HasDuplicateMeans(f.chunks);
      RestoredFiles(t', list[1..]);
      assert list == [f] + list[1..];
      assert FilePaths(list) == {f.path} + FilePaths(list[1..]);
    }
  }

  lemma {:induction false} RestoredChunks(t: Tables, list: seq<PersistentChunk>)
    requires RestoreChunks(t, list).ok
    requires t.next != 0 && forall h :: h in t.chunks ==> 0 < h < t.next && 0 < t.chunks[h].version
    ensures var r := RestoreChunks(t, list).state;
            && r.files == t.files && r.next != 0
            && (forall h :: h in r.chunks ==> 0 < h < r.next && 0 < r.chunks[h].version)
            && (forall h :: h in t.chunks ==> h in r.chunks)
            && (forall c :: c in list ==> c.handle in r.chunks)
    decreases |list|
  {
    if list != [] {
      var c := list[0];
      RestoredChunks(RestoreChunk(t, c.handle, c.version, c.size).state, list[1..]);
      assert list == [c] + list[1..];
    }
  }

  lemma ChunksAreListed(c: State, f: PersistentFile, h: Handle)
    requires Validated(c) && f in c.files && h in f.chunks
    ensures exists e :: e in c.chunks && e.handle == h
  {
    hide IsValid;
    var i :| 0 <= i < |c.files| && c.files[i] == f;
    assert FileOk(c.files[i], NodePaths(c.nodes), ChunkHandles(c.chunks));
    var j :| 0 <= j < |ChunkHandles(c.chunks)| && ChunkHandles(c.chunks)[j] == h;
    assert c.chunks[j] in c.chunks;
  }

  /** The tables that a validated checkpoint restores are consistent in any case. */
  lemma RestoredTables(c: State)
    requires Validated(c) && RestoreTables(c).ok
    ensures Consistent(RestoreTables(c).state) && RestoreTables(c).state.next != 0
    ensures RestoreTables(c).state.files.Keys == FilePaths(c.files)
  {
    hide Validated, RestoreFiles, RestoreChunks;
    var f := RestoreFiles(NO_TABLES, c.files);
    RestoredFiles(NO_TABLES, c.files);
    RestoredChunks(f.state, c.chunks);
    var t := RestoreTables(c).state;
    forall p | p in t.files
      ensures ConsistentFile(t, p)
    {
      var g := PersistentFile(p, t.files[p].size, t.files[p].factor, t.files[p].chunks);
      forall h | h in t.files[p].chunks
        ensures h in t.chunks
      {
        ChunksAreListed(c, g, h);
      }
    }
  }

  /** So is the namespace. */
  lemma RestoredTree(c: State)
    requires Restorable(multiset(c.nodes))
    ensures OneKindPerPath(c.nodes) && WellFormed(TreeOf(c.nodes))
    ensures forall p :: IsFile(TreeOf(c.nodes), p) <==> NodeInfo(p, File) in c.nodes
  {
    RestorableMeansOneKind(c.nodes);
    ListedIsInTree(c.nodes);
    var ns := TreeOf(c.nodes);
    hide OneKindPerPath, TreeOf, Restorable, ValidEntry, WellFormed;
    RootIsListed(c.nodes);
    forall p | p in ns
      ensures ValidEntry(ns, p)
    {
      ListedIsValid(c.nodes, NodeInfo(p, ns[p]));
    }
    IsWellFormed(ns);
  }

  lemma IsWellFormed(ns: Tree)
    requires ROOT in ns && ns[ROOT] == Directory && forall p :: p in ns ==> ValidEntry(ns, p)
    ensures WellFormed(ns)
  {
    hide ValidEntry;
  }

  lemma ListedIsInTree(nodes: seq<NodeInfo>)
    requires OneKindPerPath(nodes)
    ensures var ns := TreeOf(nodes); forall p: str, kind: Kind :: p in ns && ns[p] == kind <==> NodeInfo(p, kind) in nodes
  {
    ItemsOfTree(nodes);
    var ns := TreeOf(nodes);
    hide OneKindPerPath, TreeOf, Items;
    forall p: str, kind: Kind
      ensures p in ns && ns[p] == kind <==> NodeInfo(p, kind) in nodes
    {
      InItems(ns, NodeInfo(p, kind));
    }
  }

  lemma RootIsListed(nodes: seq<NodeInfo>)
    requires Restorable(multiset(nodes))
    ensures NodeInfo(ROOT, Directory) in nodes
  {
    assert ROOT_INFO in multiset(nodes);
  }

  lemma ListedIsValid(nodes: seq<NodeInfo>, e: NodeInfo)
    requires Restorable(multiset(nodes)) && e in nodes && OneKindPerPath(nodes)
    ensures ValidEntry(TreeOf(nodes), e.path)
  {
    ListedIsInTree(nodes);
    hide IsValid, Parent, OneKindPerPath, TreeOf;
    assert e in multiset(nodes);
    if e.path != ROOT {
      assert ParentListed(multiset(nodes), e);
      assert NodeInfo(Parent(e.path), Directory) in multiset(nodes);
      assert NodeInfo(Parent(e.path), Directory) in nodes;
    }
  }

  /** What a validated checkpoint restores satisfies the joint invariant exactly if its file entries
      are its file nodes. */
  lemma ValidatedIsGenuineIff(c: State)
    requires Validated(c) && CanRestore(c)
    ensures Recovering(Restored(c)) <==> FilesMatch(c)
  {
    hide Validated, Restorable, RestoreTables, WellFormed, Consistent, TreeOf;
    RestoredTree(c);
    RestoredTables(c);
    var s := Restored(c);
    assert forall p :: p in s.tables.files <==> p in FilePaths(c.files);
    if Recovering(s) {
      forall p
        ensures p in FilePaths(c.files) <==> NodeInfo(p, File) in c.nodes
      {
        assert p in s.tables.files <==> IsFile(s.ns, p);
      }
    }
  }

  /** A checkpoint with a file entry for what its node list calls a directory. */
  function Mismatched(path: str): State {
    State(0, [ROOT_INFO, NodeInfo(path, Directory)], [PersistentFile(path, 0, 1, [])], [])
  }

  /** Validation checks that a file entry has a node, but not that the node is a file. */
  lemma ValidatedIsNotEnough()
    ensures var c := Mismatched([0x2F, 0x61]); Validated(c) && CanRestore(c) && !FilesMatch(c) && !Recovering(Restored(c))
  {
    var path: str := [0x2F, 0x61];
    ShortPath(path, 0x61);
    hide IsValid, Parent;
    MismatchedIsValidated(path);
    MismatchedRestores(path);
    hide Restorable, Validated, RestoreTables, Recovering;
    var c := Mismatched(path);
    ValidatedIsGenuineIff(c);
    assert c.files[0] in c.files && path in FilePaths(c.files);
    assert NodeInfo(path, File) !in c.nodes;
  }

  lemma MismatchedIsValidated(path: str)
    requires IsValid(path) && path != ROOT
    ensures Validated(Mismatched(path))
  {
    hide IsValid;
    var c := Mismatched(path);
    assert IsValid(ROOT) by {
      RootIsValid();
    }
    assert NodePaths(c.nodes) == [ROOT, path];
    assert ChunkHandles(c.chunks) == [];
  }

  lemma RootIsValid()
    ensures IsValid(ROOT)
  {}

  lemma MismatchedRestores(path: str)
    requires IsValid(path) && path != ROOT && Parent(path) == ROOT
    ensures Restorable(multiset(Mismatched(path).nodes))
    ensures RestoreTables(Mismatched(path)) == Step(NO_TABLES.(files := map[path := FileMeta(0, 1, [])]), true)
  {
    RootIsValid();
    hide IsValid, Parent;
    var c := Mismatched(path);
    assert multiset(c.nodes) == multiset{ROOT_INFO, NodeInfo(path, Directory)};
    var t := RestoreFile(NO_TABLES, path, 0, 1, []);
    assert path != [] by {
      hide *;
      NotEmptyPath(path);
    }
    assert t == Step(NO_TABLES.(files := map[path := FileMeta(0, 1, [])]), true);
    assert c.files[1..] == [];
    assert RestoreFiles(t.state, []) == Step(t.state, true);
    assert RestoreFiles(NO_TABLES, c.files) == t;
    hide RestoreFile, RestoreFiles;
  }

  lemma NotEmptyPath(path: str)
    requires IsValid(path)
    ensures path != []
  {}

  // ----- the running system -----

  datatype System = System(disk: Disk, live: Durable)

  /** What can happen: the master serves a request, saves a checkpoint, a checkpoint file is lost
      or damaged so that it no longer loads, or the master restarts. */
  datatype Happening =
    | Serve(event: Event)
    | Save(checkpoint: State)
    | Lose(file: nat)
    | Damage(file: nat, bytes: str)
    | Restart

  const NEW_SYSTEM := System(Disk([], []), INITIAL)

  /** The log file after the outcome of a request. */
  function LogAfter(log: str, sequence: nat, logged: Option<Op>): str
    requires sequence + 1 < U64
  {
    if logged == None then log else log + EncodeRecord(RecordFor(sequence + 1, logged.value))
  }

  /** A request that is refused for its length is not logged at all. */
  predicate FitsLog(o: Outcome, sequence: nat) {
    sequence + 2 < U64 && (o.logged != None ==> Loggable(o.logged.value))
  }

  ghost predicate Next(s: System, h: Happening, s': System) {
    match ParseLog(s.disk.log, 1)
    case None => false
    case Some(records) =>
      match h
      case Serve(e) =>
        var o := Live(s.live, e.request, e.env);
        && Clean(s.live, e.request, e.env) && FitsLog(o, |records|)
        && s' == System(Disk(LogAfter(s.disk.log, |records|, o.logged), s.disk.checkpoints), o.state)
      case Save(c) =>
        && c.sequence == |records| && ExportOf(c, s.live) && StateFits(c) && |EncodeBody(c)| < U64
        && s' == System(Disk(s.disk.log, [EncodeState(c)] + s.disk.checkpoints), s.live)
      case Lose(i) =>
        && i < |s.disk.checkpoints|
        && s' == System(Disk(s.disk.log, s.disk.checkpoints[..i] + s.disk.checkpoints[i + 1..]), s.live)
      case Damage(i, bytes) =>
        && i < |s.disk.checkpoints| && Load(bytes) == None
        && s' == System(Disk(s.disk.log, s.disk.checkpoints[i := bytes]), s.live)
      case Restart =>
        s' == System(s.disk, Start(s.disk).state)
  }

  ghost predicate Execution(states: seq<System>, happenings: seq<Happening>) {
    && |states| == |happenings| + 1
    && states[0] == NEW_SYSTEM
    && forall i :: 0 <= i < |happenings| ==> Next(states[i], happenings[i], states[i + 1])
  }

  // ----- the invariant -----

  /** Replaying the records from a state succeeds and ends in one that agrees with the live one. */
  ghost predicate Leads(from: Durable, records: seq<Record>, live: Durable) {
    var r := ReplayRecords(from, records);
    r.ok && Same(live, r.state) && Recovering(r.state)
  }

  ghost predicate CheckpointLeads(c: State, records: seq<Record>, live: Durable) {
    c.sequence <= |records| && CanRestore(c) && Recovering(Restored(c)) && Leads(Restored(c), records[c.sequence..], live)
  }

  /** The log parses, and the log alone as well as every checkpoint file that loads lead to the
      live state. */
  ghost predicate Recoverable(s: System) {
    && Inv(s.live)
    && ParseLog(s.disk.log, 1) != None
    && var records := ParseLog(s.disk.log, 1).value;
       && Leads(INITIAL, records, s.live)
       && forall i :: 0 <= i < |s.disk.checkpoints| && Load(s.disk.checkpoints[i]) != None ==>
            CheckpointLeads(Load(s.disk.checkpoints[i]).value, records, s.live)
  }

  lemma {:induction false} LoadLatestIsOne(files: seq<str>) returns (i: nat)
    requires LoadLatest(files) != None
    ensures i < |files| && Load(files[i]) == LoadLatest(files)
    decreases |files|
  {
    hide Load;
    if Load(files[0]) != None {
      i := 0;
    } else {
      i := LoadLatestIsOne(files[1..]);
      i := i + 1;
    }
  }

  /** From a recoverable system, starting gives back the live state. */
  lemma StartAgrees(s: System)
    requires Recoverable(s)
    ensures Start(s.disk).ok && Same(s.live, Start(s.disk).state) && Recovering(Start(s.disk).state)
  {
    hide Load, ReplayRecords, Inv, Same, CanRestore, Restored, ParseLog;
    if LoadLatest(s.disk.checkpoints) != None {
      var i := LoadLatestIsOne(s.disk.checkpoints);
    }
  }

  lemma {:induction false} ReplayOneMore(t: Durable, records: seq<Record>, r: Record)
    ensures ReplayRecords(t, records + [r]) ==
            if ReplayRecords(t, records).ok then ReplayRecord(ReplayRecords(t, records).state, r) else ReplayRecords(t, records)
    decreases |records|
  {
    hide ReplayRecord;
    if records == [] {
      assert records + [r] == [r] && [r][1..] == [];
    } else {
      assert (records + [r])[1..] == records[1..] + [r];
      ReplayOneMore(ReplayRecord(t, records[0]).state, records[1..], r);
    }
  }

  /** A clean request keeps every way of recovery open. */
  lemma ServeLeads(from: Durable, records: seq<Record>, s: Durable, e: Event, sequence: u64)
    requires Inv(s) && Leads(from, records, s)
    requires Clean(s, e.request, e.env)
    requires var o := Live(s, e.request, e.env); o.logged != None ==> Loggable(o.logged.value)
    ensures var o := Live(s, e.request, e.env);
            Leads(from, records + (if o.logged == None then [] else [RecordFor(sequence, o.logged.value)]), o.state)
  {
    hide Inv, Live, Clean, ReplayRecord, ReplayRecords, Replay, Loggable, Same, RecordFor;
    var o, t := Live(s, e.request, e.env), ReplayRecords(from, records).state;
    assert Recovering(t) && Same(s, t);
    StepSimulates(s, t, e.request, e.env);
    if o.logged == None {
      assert records + [] == records;
    } else {
      ReplayKeepsInv(t, o.logged.value);
      ReplayOfLogged(t, sequence, o.logged.value);
      ReplayOneMore(from, records, RecordFor(sequence, o.logged.value));
    }
  }

  lemma NumberedSnoc(records: seq<Record>, r: Record)
    requires Numbered(records, 1) && r.sequence == |records| + 1 && ValidRecord(r) && |records| + 2 < U64
    ensures Numbered(records + [r], 1)
  {
    hide ValidRecord;
  }

  /** The log file after a request parses to the old records and the new one. */
  lemma LogParses(log: str, records: seq<Record>, logged: Option<Op>)
    requires ParseLog(log, 1) == Some(records) && |records| + 2 < U64
    requires logged != None ==> Loggable(logged.value)
    ensures ParseLog(LogAfter(log, |records|, logged), 1) ==
            Some(records + if logged == None then [] else [RecordFor(|records| + 1, logged.value)])
  {
    hide ParseLog, Numbered, EncodeRecord, RecordFor, Loggable;
    if logged == None {
      assert records + [] == records;
    } else {
      var r := RecordFor(|records| + 1, logged.value);
      ParseLogIff(log, 1, records);
      ReplayOfLogged(INITIAL, |records| + 1, logged.value);
      SequenceOf(|records| + 1, logged.value);
      NumberedSnoc(records, r);
      EncodeLogConcat(records, [r]);
      assert [r][1..] == [];
      assert EncodeLog([r]) == EncodeRecord(r);
      ParseLogIff(LogAfter(log, |records|, logged), 1, records + [r]);
    }
  }

  lemma ServeKeepsRecoverable(s: System, e: Event, s': System)
    requires Recoverable(s) && Next(s, Serve(e), s')
    ensures Recoverable(s')
  {
    hide Inv, Live, Clean, Leads, Load, ParseLog, LogAfter, RecordFor, CanRestore, Restored, Loggable;
    var records := ParseLog(s.disk.log, 1).value;
    var o := Live(s.live, e.request, e.env);
    LiveKeepsInv(s.live, e.request, e.env);
    LogParses(s.disk.log, records, o.logged);
    var more := if o.logged == None then [] else [RecordFor(|records| + 1, o.logged.value)];
    ServeLeads(INITIAL, records, s.live, e, |records| + 1);
    forall i | 0 <= i < |s.disk.checkpoints| && Load(s.disk.checkpoints[i]) != None
      ensures CheckpointLeads(Load(s.disk.checkpoints[i]).value, records + more, o.state)
    {
      var c := Load(s.disk.checkpoints[i]).value;
      assert CheckpointLeads(c, records, s.live);
      ServeLeads(Restored(c), records[c.sequence..], s.live, e, |records| + 1);
      assert (records + more)[c.sequence..] == records[c.sequence..] + more;
    }
  }

  lemma LargestHandleUnused(s: Durable, t: Durable)
    requires Same(s, t) && Recovering(t)
    ensures U64 - 1 !in s.tables.chunks
  {}

  lemma NothingLeads(from: Durable, live: Durable)
    requires Same(live, from) && Recovering(from)
    ensures Leads(from, [], live)
  {}

  /** A saved checkpoint leads, with no record after it, to the state it was taken of. */
  lemma SavedLeads(s: System, c: State)
    requires Recoverable(s) && ExportOf(c, s.live) && c.sequence == |ParseLog(s.disk.log, 1).value|
    ensures CheckpointLeads(c, ParseLog(s.disk.log, 1).value, s.live)
  {
    hide Inv, ReplayRecords, ParseLog, RestoreTables, ExportOf, Restorable, Recovering, Same, Load;
    var records := ParseLog(s.disk.log, 1).value;
    ExportRestores(c, s.live);
    LargestHandleUnused(s.live, ReplayRecords(INITIAL, records).state);
    RestorableMeansOneKind(c.nodes);
    ItemsOfTree(c.nodes);
    hide OneKindPerPath;
    ItemsDetermine(TreeOf(c.nodes), s.live.ns);
    hide TreeOf;
    NothingLeads(Restored(c), s.live);
    assert records[c.sequence..] == [];
  }

  lemma SaveKeepsRecoverable(s: System, c: State, s': System)
    requires Recoverable(s) && Next(s, Save(c), s')
    ensures Recoverable(s')
  {
    hide Inv, Leads, ParseLog, CheckpointLeads, ParseState, EncodeState, StateFits, EncodeBody, Validated, ExportOf;
    SavedLeads(s, c);
    CheckpointReadsBack(c, s.live);
    assert Load(s'.disk.checkpoints[0]) == Some(c);
    hide Load;
    assert forall i :: 0 < i < |s'.disk.checkpoints| ==> s'.disk.checkpoints[i] == s.disk.checkpoints[i - 1];
  }

  lemma LeadsToSame(from: Durable, records: seq<Record>, live: Durable, t: Durable)
    requires Leads(from, records, live) && Same(live, t)
    ensures Leads(from, records, t)
  {
    hide ReplayRecords, Recovering;
  }

  lemma CheckpointLeadsToSame(c: State, records: seq<Record>, live: Durable, t: Durable)
    requires CheckpointLeads(c, records, live) && Same(live, t)
    ensures CheckpointLeads(c, records, t)
  {
    hide Leads, CanRestore, Restored, Same;
    LeadsToSame(Restored(c), records[c.sequence..], live, t);
  }

  lemma RecoverableAsSame(s: System, t: Durable)
    requires Recoverable(s) && Same(s.live, t) && Inv(t)
    ensures Recoverable(s.(live := t))
  {
    hide Inv, Same, Leads, ParseLog, CheckpointLeads, Load;
    var records := ParseLog(s.disk.log, 1).value;
    LeadsToSame(INITIAL, records, s.live, t);
    forall i | 0 <= i < |s.disk.checkpoints| && Load(s.disk.checkpoints[i]) != None
      ensures CheckpointLeads(Load(s.disk.checkpoints[i]).value, records, t)
    {
      CheckpointLeadsToSame(Load(s.disk.checkpoints[i]).value, records, s.live, t);
    }
  }

  /** A restarted master can itself be recovered from the same disk. */
  lemma RestartKeepsRecoverable(s: System, s': System)
    requires Recoverable(s) && Next(s, Restart, s')
    ensures Recoverable(s')
  {
    hide Recoverable, Start, Inv, Same, ParseLog;
    StartAgrees(s);
    RecoverableAsSame(s, s'.live);
  }

  lemma NewSystemRecoverable()
    ensures Recoverable(NEW_SYSTEM)
  {
    InitialInv();
    ParseLogIff([], 1, []);
    NothingLeads(INITIAL, INITIAL);
    hide Inv, ParseLog, Load;
  }

  /** Every reachable system is recoverable. */
  lemma {:induction false} ExecutionRecoverable(states: seq<System>, happenings: seq<Happening>, n: nat)
    requires Execution(states, happenings) && n < |states|
    ensures Recoverable(states[n])
  {
    hide Recoverable, Next;
    if n == 0 {
      NewSystemRecoverable();
    } else {
      ExecutionRecoverable(states, happenings, n - 1);
      var s, s' := states[n - 1], states[n];
      assert s == states[n - 1] && s' == states[n - 1 + 1];
      match happenings[n - 1] {
        case Serve(e) => ServeKeepsRecoverable(s, e, s');
        case Save(c) => SaveKeepsRecoverable(s, c, s');
        case Restart => RestartKeepsRecoverable(s, s');
        case _ => FilesKeepRecoverable(s, happenings[n - 1], s');
      }
    }
  }

  lemma FilesKeepRecoverable(s: System, h: Happening, s': System)
    requires Recoverable(s) && Next(s, h, s') && (h.Lose? || h.Damage?)
    ensures Recoverable(s')
  {
    hide Inv, Leads, ParseLog, CheckpointLeads, Load;
  }

  /** At any point of any execution - requests, checkpoints, lost or damaged checkpoint files and
      earlier restarts in any order - starting from the bytes on disk succeeds and gives the same
      namespace, file table and chunk table as the live master has. */
  lemma StartRebuildsLiveState(states: seq<System>, happenings: seq<Happening>, n: nat)
    requires Execution(states, happenings) && n < |states|
    ensures Start(states[n].disk).ok
    ensures Same(states[n].live, Start(states[n].disk).state)
  {
    hide Execution, Recoverable, Start;
    ExecutionRecoverable(states, happenings, n);
    StartAgrees(states[n]);
  }

  lemma LoadedIsValidated(bytes: str)
    ensures Load(bytes) != None ==> Validated(Load(bytes).value)
  {
    hide Validated, ParseState;
  }

  /** Whatever checkpoint file the starting master picks in an execution, its file entries are its
      file nodes. */
  lemma ReachableCheckpointMatches(states: seq<System>, happenings: seq<Happening>, n: nat)
    requires Execution(states, happenings) && n < |states|
    ensures var latest := LoadLatest(states[n].disk.checkpoints); latest != None ==> FilesMatch(latest.value)
  {
    hide Execution, Load, LoadLatest, Inv, Leads, Recovering, CanRestore, Restored, ParseLog, FilesMatch, Validated;
    ExecutionRecoverable(states, happenings, n);
    var files := states[n].disk.checkpoints;
    if LoadLatest(files) != None {
      var i := LoadLatestIsOne(files);
      LoadedIsValidated(files[i]);
      var c := Load(files[i]).value;
      assert CheckpointLeads(c, ParseLog(states[n].disk.log, 1).value, states[n].live);
      ValidatedIsGenuineIff(c);
    }
  }

  /** A crash in the middle of the next record: if some of it, but not all, has reached the log file,
      the master cannot start again; with none of it there the state is as it was. */
  lemma TornRecordIsFatal(s: System, op: Op, k: nat)
    requires Recoverable(s) && Loggable(op) && |ParseLog(s.disk.log, 1).value| + 2 < U64
    requires k < |EncodeRecord(RecordFor(|ParseLog(s.disk.log, 1).value| + 1, op))|
    ensures var torn := EncodeRecord(RecordFor(|ParseLog(s.disk.log, 1).value| + 1, op))[..k];
            Start(Disk(s.disk.log + torn, s.disk.checkpoints)).ok <==> k == 0
  {
    hide Inv, Leads, Load, ParseLog, Numbered, EncodeRecord, RecordFor, Loggable, CheckpointLeads, LoadLatest;
    var records := ParseLog(s.disk.log, 1).value;
    var r := RecordFor(|records| + 1, op);
    ParseLogIff(s.disk.log, 1, records);
    if k == 0 {
      assert s.disk.log + EncodeRecord(r)[..0] == s.disk.log;
      StartAgrees(s);
    } else {
      ReplayOfLogged(INITIAL, |records| + 1, op);
      SequenceOf(|records| + 1, op);
      NumberedSnoc(records, r);
      TornTailIsRejected(records, r, k);
    }
  }
}
