// Checkpoints: exporting, validating and restoring.

module Checkpoint {
  // The durable state is exported as sorted lists; what is read back is checked before it is
  // restored.

  import opened Bytes
  import opened Paths
  import opened Sorting
  import opened Namespace
  import opened NamespaceListing
  import opened ChunkTables
  import opened MasterState
  import opened Recovery
  import opened CheckpointFormat
  import Crc
  import Space = NamespaceTree
  import Meta = Metadata

  // ----- what a checkpoint of a state contains -----

  /** The three lists hold every entry of the namespace and of the tables once, in any order. */
  ghost predicate ExportOf(c: State, s: Durable) {
    && Lists(c.nodes, s.ns)
    && multiset(c.files) == multiset(FileItems(s.tables.files))
    && multiset(c.chunks) == multiset(ChunkItems(s.tables.chunks))
  }

  // ----- validation -----

  function NodePaths(nodes: seq<NodeInfo>): (paths: seq<str>)
    ensures |paths| == |nodes|
  {
    seq(|nodes|, i requires 0 <= i < |nodes| => nodes[i].path)
  }

  function ChunkHandles(chunks: seq<PersistentChunk>): (handles: seq<Handle>)
    ensures |handles| == |chunks|
  {
    seq(|chunks|, i requires 0 <= i < |chunks| => chunks[i].handle)
  }

  predicate NodeOk(n: NodeInfo) {
    IsValid(n.path) && (n.path == ROOT ==> n.kind == Directory)
  }

  predicate FileOk(f: PersistentFile, paths: seq<str>, handles: seq<Handle>) {
    && IsValid(f.path) && f.path != ROOT && f.factor != 0
    && f.path in paths
    && forall i :: 0 <= i < |f.chunks| ==> f.chunks[i] in handles
  }

  ghost predicate Validated(c: State) {
    && (forall i :: 0 <= i < |c.nodes| ==> NodeOk(c.nodes[i]))
    && ROOT in NodePaths(c.nodes)
    && NoDuplicates(NodePaths(c.nodes))
    && (forall i :: 0 <= i < |c.chunks| ==> ChunkFits(c.chunks[i]))
    && NoDuplicates(ChunkHandles(c.chunks))
    && (forall i :: 0 <= i < |c.files| ==> FileOk(c.files[i], NodePaths(c.nodes), ChunkHandles(c.chunks)))
  }

  /** A sorted list without equal neighbours has no duplicates at all. */
  method HasEqualNeighbours<T(==, !new)>(s: seq<T>, ghost le: (T, T) -> bool) returns (found: bool)
    requires TotalPreorder(le) && Sorted(s, le)
    requires forall x, y :: le(x, y) && le(y, x) ==> x == y
    ensures found <==> !NoDuplicates(s)
  {
    var i := 1;
    while i < |s|
      invariant 1 <= i
      invariant forall j, k :: 0 <= j < k < i && k < |s| ==> s[j] != s[k]
    {
      if s[i - 1] == s[i] {
        return true;
      }
      forall j | 0 <= j < i
        ensures s[j] != s[i]
      {
        assert le(s[j], s[i - 1]) || j == i - 1;
        assert le(s[i - 1], s[i]);
      }
      i := i + 1;
    }
    return false;
  }

  lemma DuplicatesArePermutationInvariant<T>(s: seq<T>, t: seq<T>)
    requires multiset(s) == multiset(t) && NoDuplicates(s)
    ensures NoDuplicates(t)
  {
    forall i, j | 0 <= i < j < |t|
      ensures t[i] != t[j]
    {
      if t[i] == t[j] {
        TwiceInMultiset(t, i, j);
        OnceInMultiset(s, t[i]);
        assert false;
      }
    }
  }

  lemma TwiceInMultiset<T>(t: seq<T>, i: nat, j: nat)
    requires i < j < |t| && t[i] == t[j]
    ensures multiset(t)[t[i]] >= 2
  {
    var a, b := t[..j], t[j..];
    assert t == a + b;
    assert a[i] == t[i] && b[0] == t[i];
    assert t[i] in multiset(a) && t[i] in multiset(b);
  }

  lemma {:induction false} OnceInMultiset<T>(s: seq<T>, x: T)
    requires NoDuplicates(s)
    ensures multiset(s)[x] <= 1
    decreases |s|
  {
    if s != [] {
      var t := s[..|s| - 1];
      assert s == t + [s[|s| - 1]];
      assert forall i :: 0 <= i < |t| ==> t[i] == s[i];
      OnceInMultiset(t, x);
      if x == s[|s| - 1] {
        assert x !in t;
        assert multiset(t)[x] == 0;
      }
    }
  }

  lemma NotAfterAntisymmetric(a: str, b: str)
    requires NotAfter(a, b) && NotAfter(b, a)
    ensures a == b
  {
    BeforeTotal(a, b);
  }

  predicate HandleOrder(a: Handle, b: Handle) {
    a <= b
  }

  method ValidateState(c: State) returns (ok: bool)
    ensures ok <==> Validated(c)
  {
    hide IsValid, NotAfter;
    var rootFound := false;
    for i := 0 to |c.nodes|
      invariant forall k :: 0 <= k < i ==> NodeOk(c.nodes[k])
      invariant rootFound <==> ROOT in NodePaths(c.nodes)[..i]
    {
      var valid := IsValidPath(c.nodes[i].path);
      if !valid || (c.nodes[i].path == ROOT && c.nodes[i].kind != Directory) {
        return false;
      }
      assert NodePaths(c.nodes)[..i + 1] == NodePaths(c.nodes)[..i] + [c.nodes[i].path];
      if c.nodes[i].path == ROOT {
        rootFound := true;
      }
    }
    assert NodePaths(c.nodes)[..|c.nodes|] == NodePaths(c.nodes);
    if !rootFound {
      return false;
    }
    var twice := DuplicatePaths(NodePaths(c.nodes));
    if twice {
      return false;
    }
    for i := 0 to |c.chunks|
      invariant forall k :: 0 <= k < i ==> ChunkFits(c.chunks[k])
    {
      if c.chunks[i].handle == 0 || c.chunks[i].version == 0 {
        return false;
      }
    }
    twice := DuplicateHandles(ChunkHandles(c.chunks));
    if twice {
      return false;
    }
    for i := 0 to |c.files|
      invariant forall k :: 0 <= k < i ==> FileOk(c.files[k], NodePaths(c.nodes), ChunkHandles(c.chunks))
    {
      ok := ValidateFile(c.files[i], NodePaths(c.nodes), ChunkHandles(c.chunks));
      if !ok {
        return false;
      }
    }
    return true;
  }

  method DuplicatePaths(paths: seq<str>) returns (found: bool)
    ensures found <==> !NoDuplicates(paths)
  {
    NotAfterIsOrder();
    var sorted := Sort(paths, NotAfter);
    forall a, b | NotAfter(a, b) && NotAfter(b, a)
      ensures a == b
    {
      NotAfterAntisymmetric(a, b);
    }
    found := HasEqualNeighbours(sorted, NotAfter);
    if found {
      if NoDuplicates(paths) {
        DuplicatesArePermutationInvariant(paths, sorted);
      }
    } else {
      DuplicatesArePermutationInvariant(sorted, paths);
    }
  }

  method DuplicateHandles(handles: seq<Handle>) returns (found: bool)
    ensures found <==> !NoDuplicates(handles)
  {
    var sorted := Sort(handles, HandleOrder);
    found := HasEqualNeighbours(sorted, HandleOrder);
    if found {
      if NoDuplicates(handles) {
        DuplicatesArePermutationInvariant(handles, sorted);
      }
    } else {
      DuplicatesArePermutationInvariant(sorted, handles);
    }
  }

  method ValidateFile(f: PersistentFile, paths: seq<str>, handles: seq<Handle>) returns (ok: bool)
    ensures ok <==> FileOk(f, paths, handles)
  {
    hide IsValid;
    var valid := IsValidPath(f.path);
    if !valid || f.path == ROOT || f.factor == 0 || f.path !in paths {
      return false;
    }
    for i := 0 to |f.chunks|
      invariant forall k :: 0 <= k < i ==> f.chunks[k] in handles
    {
      if f.chunks[i] !in handles {
        return false;
      }
    }
    return true;
  }

  /** Every export of a state that satisfies the joint invariant passes validation. */
  lemma ExportValidates(c: State, s: Durable)
    requires Inv(s) && ExportOf(c, s)
    ensures Validated(c)
  {
    hide IsValid, WellFormed, Consistent, ExportOf, FileOk;
    ExportNodesValid(c, s);
    ExportChunksValid(c, s);
    forall i | 0 <= i < |c.files|
      ensures FileOk(c.files[i], NodePaths(c.nodes), ChunkHandles(c.chunks))
    {
      ExportFileValid(c, s, i);
    }
  }

  lemma NodeIsOk(ns: Tree, e: NodeInfo)
    requires WellFormed(ns) && e.path in ns && ns[e.path] == e.kind
    ensures NodeOk(e)
  {
    hide IsValid;
    assert ValidEntry(ns, e.path);
  }

  lemma ListedTree(c: State, s: Durable)
    requires Inv(s) && ExportOf(c, s)
    ensures WellFormed(s.ns) && ROOT in s.ns && Lists(c.nodes, s.ns)
  {
    hide IsValid, Consistent, Lists;
  }

  lemma ExportNodesValid(c: State, s: Durable)
    requires Inv(s) && ExportOf(c, s)
    ensures forall i :: 0 <= i < |c.nodes| ==> NodeOk(c.nodes[i])
    ensures NoDuplicates(NodePaths(c.nodes))
    ensures forall p :: p in s.ns ==> p in NodePaths(c.nodes)
    ensures ROOT in NodePaths(c.nodes)
  {
    hide Inv, ExportOf, WellFormed, Lists, Items, NodeOk;
    ListedTree(c, s);
    var paths := NodePaths(c.nodes);
    forall i | 0 <= i < |c.nodes|
      ensures NodeOk(c.nodes[i])
      ensures c.nodes[i].path in s.ns && s.ns[c.nodes[i].path] == c.nodes[i].kind
    {
      assert c.nodes[i] in multiset(c.nodes);
      ListsMeans(c.nodes, s.ns, c.nodes[i]);
      NodeIsOk(s.ns, c.nodes[i]);
    }
    forall i, j | 0 <= i < j < |paths|
      ensures paths[i] != paths[j]
    {
      if paths[i] == paths[j] {
        assert c.nodes[i] == c.nodes[j];
        TwiceInMultiset(c.nodes, i, j);
        ListsMeans(c.nodes, s.ns, c.nodes[i]);
        assert false;
      }
    }
    forall p | p in s.ns
      ensures p in paths
    {
      ListsMeans(c.nodes, s.ns, NodeInfo(p, s.ns[p]));
      assert NodeInfo(p, s.ns[p]) in multiset(c.nodes);
      var i :| 0 <= i < |c.nodes| && c.nodes[i] == NodeInfo(p, s.ns[p]);
      assert paths[i] == p;
    }
  }

  lemma ExportChunksValid(c: State, s: Durable)
    requires Inv(s) && ExportOf(c, s)
    ensures forall i :: 0 <= i < |c.chunks| ==> ChunkFits(c.chunks[i])
    ensures NoDuplicates(ChunkHandles(c.chunks))
    ensures forall h :: h in s.tables.chunks ==> h in ChunkHandles(c.chunks)
  {
    hide WellFormed, Lists;
    var handles, items := ChunkHandles(c.chunks), ChunkItems(s.tables.chunks);
    forall i | 0 <= i < |c.chunks|
      ensures c.chunks[i] in items && ChunkFits(c.chunks[i])
    {
      assert c.chunks[i] in multiset(c.chunks);
    }
    forall i, j | 0 <= i < j < |handles|
      ensures handles[i] != handles[j]
    {
      if handles[i] == handles[j] {
        assert c.chunks[i] in items && c.chunks[j] in items;
        assert c.chunks[i] == c.chunks[j];
        TwiceInMultiset(c.chunks, i, j);
        assert false;
      }
    }
    forall h | h in s.tables.chunks
      ensures h in handles
    {
      var e := PersistentChunk(h, s.tables.chunks[h].version, s.tables.chunks[h].size);
      assert e in items;
      assert e in multiset(c.chunks);
      var i :| 0 <= i < |c.chunks| && c.chunks[i] == e;
      assert handles[i] == h;
    }
  }

  lemma ExportFileValid(c: State, s: Durable, i: nat)
    requires Inv(s) && ExportOf(c, s) && i < |c.files|
    ensures FileOk(c.files[i], NodePaths(c.nodes), ChunkHandles(c.chunks))
  {
    ExportNodesValid(c, s);
    ExportChunksValid(c, s);
    var f := c.files[i];
    assert f in multiset(c.files);
    assert f in FileItems(s.tables.files);
    assert ConsistentFile(s.tables, f.path);
    assert IsFile(s.ns, f.path);
    assert ValidEntry(s.ns, f.path);
    hide IsValid, WellFormed;
  }

  // ----- restoring the tables -----

  function RestoreFiles(t: Tables, files: seq<PersistentFile>): Step<Tables>
    decreases |files|
  {
    if files == [] then Step(t, true)
    else
      var r := RestoreFile(t, files[0].path, files[0].size, files[0].factor, files[0].chunks);
      if r.ok then RestoreFiles(r.state, files[1..]) else r
  }

  function RestoreChunks(t: Tables, chunks: seq<PersistentChunk>): Step<Tables>
    decreases |chunks|
  {
    if chunks == [] then Step(t, true)
    else
      var r := RestoreChunk(t, chunks[0].handle, chunks[0].version, chunks[0].size);
      if r.ok then RestoreChunks(r.state, chunks[1..]) else r
  }

  function RestoreTables(c: State): Step<Tables> {
    var f := RestoreFiles(NO_TABLES, c.files);
    if f.ok then RestoreChunks(f.state, c.chunks) else f
  }

  predicate RestorableFile(path: str, f: FileMeta) {
    path != [] && f.factor != 0 && 0 !in f.chunks && !HasDuplicate(f.chunks)
  }

  /** Restoring the listed files, in any order, adds exactly them. */
  lemma {:induction false} RestoreFilesOf(t: Tables, list: seq<PersistentFile>, files: map<str, FileMeta>)
    requires multiset(list) == multiset(FileItems(files))
    requires files.Keys !! t.files.Keys
    requires forall p :: p in files ==> RestorableFile(p, files[p])
    ensures RestoreFiles(t, list) == Step(t.(files := t.files + files), true)
    decreases |list|
  {
    if list == [] {
      if files != map[] {
        SomeFileItem(files);
        assert false;
      }
      assert t.files + files == t.files;
    } else {
      var e := list[0];
      var p, f, rest := FirstFile(list, files);
      var t' := t.(files := t.files[p := f]);
      RestoreFilesOf(t', list[1..], rest);
      assert t'.files + rest == t.files + files;
    }
  }

  lemma SomeFileItem(files: map<str, FileMeta>)
    requires files != map[]
    ensures multiset(FileItems(files)) != multiset{}
  {
    var p :| p in files;
    var e := PersistentFile(p, files[p].size, files[p].factor, files[p].chunks);
    assert e in FileItems(files);
    assert multiset(FileItems(files))[e] == 1;
  }

  lemma FirstFile(list: seq<PersistentFile>, files: map<str, FileMeta>) returns (p: str, f: FileMeta, rest: map<str, FileMeta>)
    requires list != [] && multiset(list) == multiset(FileItems(files))
    ensures p in files && f == files[p] && rest == files - {p} && files == rest[p := f]
    ensures list[0] == PersistentFile(p, f.size, f.factor, f.chunks)
    ensures multiset(list[1..]) == multiset(FileItems(rest))
  {
    var e := list[0];
    assert e in multiset(list);
    assert e in FileItems(files);
    p := e.path;
    f := files[p];
    rest := files - {p};
    assert files == rest[p := f];
    FileItemsOfUpdate(rest, p, f);
    assert list == [e] + list[1..];
    assert multiset(list[1..]) == multiset(list) - multiset{e};
  }

  /** Restoring the listed chunks, in any order, succeeds exactly if the largest handle is not
      among them, and then puts the counter above all of them. */
  lemma {:induction false} RestoreChunksOf(t: Tables, list: seq<PersistentChunk>, chunks: map<Handle, ChunkMeta>)
    requires multiset(list) == multiset(ChunkItems(chunks))
    requires chunks.Keys !! t.chunks.Keys
    requires t.next != 0 && forall h :: h in t.chunks ==> h < t.next
    requires forall h :: h in chunks ==> h != 0 && chunks[h].version != 0
    ensures var r := RestoreChunks(t, list);
            && (r.ok <==> U64 - 1 !in chunks)
            && (r.ok ==>
                  && r.state.files == t.files && r.state.chunks == t.chunks + chunks
                  && r.state.next != 0 && (r.state.next == t.next || r.state.next - 1 in r.state.chunks)
                  && forall h :: h in r.state.chunks ==> h < r.state.next)
    decreases |list|
  {
    if list == [] {
      if chunks != map[] {
        SomeChunkItem(chunks);
        assert false;
      }
      assert t.chunks + chunks == t.chunks;
    } else {
      var h, c, rest := FirstChunk(list, chunks);
      var r := RestoreChunk(t, h, c.version, c.size);
      if h != U64 - 1 {
        RestoreChunksOf(r.state, list[1..], rest);
        assert r.state.chunks + rest == t.chunks + chunks;
      }
    }
  }

  lemma SomeChunkItem(chunks: map<Handle, ChunkMeta>)
    requires chunks != map[]
    ensures multiset(ChunkItems(chunks)) != multiset{}
  {
    var h :| h in chunks;
    var e := PersistentChunk(h, chunks[h].version, chunks[h].size);
    assert e in ChunkItems(chunks);
    assert multiset(ChunkItems(chunks))[e] == 1;
  }

  lemma FirstChunk(list: seq<PersistentChunk>, chunks: map<Handle, ChunkMeta>)
    returns (h: Handle, c: ChunkMeta, rest: map<Handle, ChunkMeta>)
    requires list != [] && multiset(list) == multiset(ChunkItems(chunks))
    ensures h in chunks && c == chunks[h] && rest == chunks - {h} && chunks == rest[h := c]
    ensures list[0] == PersistentChunk(h, c.version, c.size)
    ensures multiset(list[1..]) == multiset(ChunkItems(rest))
  {
    var e := list[0];
    assert e in multiset(list);
    assert e in ChunkItems(chunks);
    h := e.handle;
    c := chunks[h];
    rest := chunks - {h};
    assert chunks == rest[h := c];
    ChunkItemsOfUpdate(rest, h, c);
    assert list == [e] + list[1..];
    assert multiset(list[1..]) == multiset(list) - multiset{e};
  }

  /** Restoring an export of consistent tables rebuilds files and chunks, unless the largest
      handle is in use. */
  lemma TablesRestore(c: State, t: Tables)
    requires Consistent(t)
    requires multiset(c.files) == multiset(FileItems(t.files)) && multiset(c.chunks) == multiset(ChunkItems(t.chunks))
    ensures var r := RestoreTables(c);
            && (r.ok <==> U64 - 1 !in t.chunks)
            && (r.ok ==>
                  && r.state.files == t.files && r.state.chunks == t.chunks && Consistent(r.state) && r.state.next != 0
                  && (r.state.next == 1 || r.state.next - 1 in t.chunks))
  {
    forall p | p in t.files
      ensures RestorableFile(p, t.files[p])
    {
      assert ConsistentFile(t, p);
      HasDuplicateMeans(t.files[p].chunks);
    }
    var mid := NO_TABLES.(files := t.files);
    assert map[] + t.files == t.files && map[] + t.chunks == t.chunks;
    hide RestorableFile, FileItems, ChunkItems, RestoreFiles, RestoreChunks, ConsistentFile;
    RestoreFilesOf(NO_TABLES, c.files, t.files);
    assert RestoreFiles(NO_TABLES, c.files) == Step(mid, true);
    RestoreChunksOf(mid, c.chunks, t.chunks);
    var r := RestoreTables(c);
    assert r == RestoreChunks(mid, c.chunks);
    if r.ok {
      RestoredIsConsistent(t, r.state);
    }
  }

  /** A checkpoint of a state can be restored exactly if the state does not use the largest
      handle; what is restored agrees with the state and is ready for replay. */
  lemma ExportRestores(c: State, s: Durable)
    requires Inv(s) && ExportOf(c, s)
    ensures Restorable(multiset(c.nodes)) && (set e | e in c.nodes) == Items(s.ns)
    ensures RestoreTables(c).ok <==> U64 - 1 !in s.tables.chunks
    ensures RestoreTables(c).ok ==>
              var t := Durable(s.ns, RestoreTables(c).state);
              Same(s, t) && Recovering(t)
  {
    ListingIsRestorable(c.nodes, s.ns);
    hide WellFormed, Lists, Items, Consistent, RestoreTables;
    TablesRestore(c, s.tables);
  }

  /** The handle counter is not part of a checkpoint.  After a restore it is one past the largest
      handle in use, so the numbers of chunks that were deleted after that one are given out again. */
  lemma CounterIsRebuilt(c: State, s: Durable)
    requires Inv(s) && ExportOf(c, s) && RestoreTables(c).ok
    ensures var next := RestoreTables(c).state.next;
            (forall h :: h in s.tables.chunks ==> h < next) && (next == 1 || next - 1 in s.tables.chunks)
    ensures s.tables.next != 0 ==> RestoreTables(c).state.next <= s.tables.next || RestoreTables(c).state.next == 1
  {
    hide WellFormed, Lists, Consistent, RestoreTables;
    TablesRestore(c, s.tables);
    CounterAbove(s.tables);
    CounterAbove(RestoreTables(c).state);
  }

  lemma CounterAbove(t: Tables)
    requires Consistent(t)
    ensures t.next != 0 ==> forall h :: h in t.chunks ==> h < t.next
  {}

  lemma RestoredIsConsistent(t: Tables, u: Tables)
    requires Consistent(t) && u.files == t.files && u.chunks == t.chunks
    requires u.next != 0 && forall h :: h in u.chunks ==> h < u.next
    ensures Consistent(u)
  {
    forall p | p in u.files
      ensures ConsistentFile(u, p)
    {
      assert ConsistentFile(t, p);
    }
  }

  // ----- writing and reading -----

  /** Appends the encodings of a list of entries to the buffer, one by one. */
  method WriteMany<T>(buffer: str, encode: Encoder<T>, items: seq<T>) returns (result: str)
    ensures result == buffer + EncodeMany(encode, items)
  {
    result := buffer;
    assert items[0..] == items;
    for i := 0 to |items|
      invariant buffer + EncodeMany(encode, items) == result + EncodeMany(encode, items[i..])
    {
      assert items[i..][1..] == items[i + 1..];
      assert result + (encode(items[i]) + EncodeMany(encode, items[i + 1..]))
          == (result + encode(items[i])) + EncodeMany(encode, items[i + 1..]);
      result := result + encode(items[i]);
    }
    assert items[|items|..] == [];
  }

  /** Reads a counted list, entry by entry, and stops at the first that does not parse. */
  method ReadMany<T(!new)>(parse: Parser<T>, input: str, count: nat) returns (ok: bool, items: seq<T>, rest: str)
    ensures ok <==> ParseMany(parse, input, count) != None
    ensures ok ==> ParseMany(parse, input, count) == Some(Parsed(items, rest))
  {
    items, rest := [], input;
    PrependNothing(ParseMany(parse, input, count));
    for i := 0 to count
      invariant ParseMany(parse, input, count) == Prepend(items, ParseMany(parse, rest, count - i))
    {
      match parse(rest) {
        case None =>
          return false, [], [];
        case Some(p) =>
          PrependOneMore(items, p.value, ParseMany(parse, p.rest, count - i - 1));
          items, rest := items + [p.value], p.rest;
      }
    }
    assert items + [] == items;
    ok := true;
  }

  method ReadCounted<T(!new)>(parse: Parser<T>, input: str) returns (ok: bool, items: seq<T>, rest: str)
    ensures ok <==> ParseCounted(parse, input) != None
    ensures ok ==> ParseCounted(parse, input) == Some(Parsed(items, rest))
  {
    match ParseInt(input, 8) {
      case None => return false, [], [];
      case Some(n) => ok, items, rest := ReadMany(parse, n.rest, n.value);
    }
  }

  /** The same checkpoint, with its lists in any order. */
  ghost predicate SameEntries(c: State, d: State) {
    && c.sequence == d.sequence && multiset(c.nodes) == multiset(d.nodes)
    && multiset(c.files) == multiset(d.files) && multiset(c.chunks) == multiset(d.chunks)
  }

  lemma ReorderedEntries(c: State, sorted: State)
    requires sorted.sequence == c.sequence && multiset(sorted.nodes) == multiset(c.nodes)
    requires multiset(sorted.files) == multiset(c.files) && multiset(sorted.chunks) == multiset(c.chunks)
    ensures SameEntries(sorted, c)
  {}

  /** Serialize sorts the three lists and writes them behind a header with size and checksum. */
  method Serialize(c: State) returns (output: str)
    ensures exists sorted :: output == EncodeState(sorted) && SameEntries(sorted, c)
  {
    OrdersAreTotal();
    ExportOrders();
    var nodes := Sort(c.nodes, ByPath);
    var files := Sort(c.files, FilesByPath);
    var chunks := Sort(c.chunks, ChunksByHandle);
    hide *;
    ghost var sorted := State(c.sequence, nodes, files, chunks);
    ReorderedEntries(c, sorted);
    var body := Encode(c.sequence, 8);
    body := WriteMany(body + Encode(|nodes|, 8), EncodeNode, nodes);
    body := WriteMany(body + Encode(|files|, 8), EncodeFile, files);
    body := WriteMany(body + Encode(|chunks|, 8), EncodeChunk, chunks);
    BodyIsBody(sorted, body);
    var checksum := Crc.ComputeCRC32(body);
    output := Encode(CHECKPOINT_MAGIC, 4);
    output := output + Encode(CHECKPOINT_VERSION, 4);
    output := output + Encode(|body|, 8);
    output := output + Encode(checksum as nat, 4);
    output := output + body;
    OutputIsOutput(sorted, body, checksum, output);
  }

  lemma BodyIsBody(c: State, body: str)
    requires body == Encode(c.sequence, 8) + Encode(|c.nodes|, 8) + EncodeMany(EncodeNode, c.nodes)
                   + Encode(|c.files|, 8) + EncodeMany(EncodeFile, c.files)
                   + Encode(|c.chunks|, 8) + EncodeMany(EncodeChunk, c.chunks)
    ensures body == EncodeBody(c)
  {
    hide Encode, EncodeMany;
  }

  lemma OutputIsOutput(c: State, body: str, checksum: bv32, output: str)
    requires body == EncodeBody(c) && checksum == Crc.Checksum(body)
    requires output == Encode(CHECKPOINT_MAGIC, 4) + Encode(CHECKPOINT_VERSION, 4) + Encode(|body|, 8) + Encode(checksum as nat, 4) + body
    ensures output == EncodeState(c)
  {
    hide Encode, EncodeBody;
  }

  /** Deserialize parses header and body, checks size and checksum, and validates the result. */
  method Deserialize(input: str) returns (ok: bool, c: State)
    ensures ok <==> ParseState(input) != None && Validated(ParseState(input).value)
    ensures ok ==> ParseState(input) == Some(c)
  {
    c := State(0, [], [], []);
    if |input| < CHECKPOINT_HEADER {
      ShortInput(input);
      return false, c;
    }
    var magic, version := Decode(input[0..4]), Decode(input[4..8]);
    var size, checksum := Decode(input[8..16]), Decode(input[16..20]);
    var body := input[20..];
    var calculated := Crc.ComputeCRC32(body);
    HeaderOfInput(input, calculated);
    hide ParseState, ParseBody;
    if magic != CHECKPOINT_MAGIC || version != CHECKPOINT_VERSION || size != |body| || calculated as nat != checksum {
      return false, c;
    }
    ok, c := ReadBody(body);
    if !ok {
      return;
    }
    ok := ValidateState(c);
  }

  lemma ShortInput(input: str)
    requires |input| < CHECKPOINT_HEADER
    ensures ParseState(input) == None
  {}

  lemma HeaderOfInput(input: str, calculated: bv32)
    requires |input| >= CHECKPOINT_HEADER && calculated == Crc.Checksum(input[20..])
    ensures ParseState(input) ==
            if Decode(input[0..4]) != CHECKPOINT_MAGIC || Decode(input[4..8]) != CHECKPOINT_VERSION
               || Decode(input[8..16]) != |input[20..]| || calculated as nat != Decode(input[16..20])
            then None else ParseBody(input[20..])
  {
    hide ParseBody, Decode;
    assert input[4..][..4] == input[4..8] && input[4..][4..] == input[8..];
    assert input[8..][..8] == input[8..16] && input[8..][8..] == input[16..];
    assert input[16..][..4] == input[16..20] && input[16..][4..] == input[20..];
    assert input[..4] == input[0..4];
  }

  method ReadBody(body: str) returns (ok: bool, c: State)
    ensures ok <==> ParseBody(body) != None
    ensures ok ==> ParseBody(body) == Some(c)
  {
    WordSizes();
    hide ParseCounted;
    c := State(0, [], [], []);
    match ParseInt(body, 8) {
      case None => return false, c;
      case Some(sequence) =>
        var nodes, files, chunks, rest;
        ok, nodes, rest := ReadCounted(ParseNode, sequence.rest);
        if !ok {
          return false, c;
        }
        ok, files, rest := ReadCounted(ParseFile, rest);
        if !ok {
          return false, c;
        }
        ok, chunks, rest := ReadCounted(ParseChunk, rest);
        if !ok || rest != [] {
          return false, c;
        }
        c := State(sequence.value, nodes, files, chunks);
    }
  }

  // ----- from a state to bytes and back -----

  /** Reordering the lists does not change what they are an export of. */
  lemma SortedIsExport(c: State, sorted: State, s: Durable)
    requires ExportOf(c, s) && SameEntries(sorted, c)
    ensures ExportOf(sorted, s) && sorted.sequence == c.sequence
  {}

  /** The bytes of a checkpoint of a state read back as a validated export of that state. */
  lemma CheckpointReadsBack(c: State, s: Durable)
    requires Inv(s) && ExportOf(c, s)
    requires StateFits(c) && |EncodeBody(c)| < U64
    ensures ParseState(EncodeState(c)) == Some(c) && Validated(c)
  {
    hide StateFits, EncodeBody, ParseState, EncodeState, Inv, ExportOf, Validated;
    StateRoundTrip(EncodeState(c), c);
    ExportValidates(c, s);
  }

  // ----- restoring in place -----

  /** Clears both managers and fills them from a validated checkpoint. */
  method Restore(c: State, metadata: Meta.Metadata, namespaces: Space.NamespaceManager) returns (ok: bool)
    requires namespaces.Valid()
    modifies metadata, namespaces, namespaces.repr
    ensures namespaces.Valid() && fresh(namespaces.repr - old(namespaces.repr))
    ensures ok <==> Validated(c) && Restorable(multiset(c.nodes)) && RestoreTables(c).ok
    ensures ok ==> Items(namespaces.View()) == (set e | e in c.nodes) && metadata.State() == RestoreTables(c).state
  {
    var valid := ValidateState(c);
    hide *;
    if !valid {
      return false;
    }
    namespaces.Clear();
    metadata.Clear();
    var restored := namespaces.RestoreNodes(c.nodes);
    if !restored {
      return false;
    }
    ok := RestoreInto(c, metadata);
  }

  method RestoreInto(c: State, metadata: Meta.Metadata) returns (ok: bool)
    requires metadata.State() == NO_TABLES
    modifies metadata
    ensures ok <==> RestoreTables(c).ok
    ensures ok ==> metadata.State() == RestoreTables(c).state
  {
    hide RestoreFile, RestoreChunk;
    assert c.files[0..] == c.files && c.chunks[0..] == c.chunks;
    for i := 0 to |c.files|
      invariant RestoreFiles(NO_TABLES, c.files) == RestoreFiles(metadata.State(), c.files[i..])
    {
      var f := c.files[i];
      assert c.files[i..][1..] == c.files[i + 1..];
      ok := metadata.RestoreFile(f.path, f.size, f.factor, f.chunks);
      if !ok {
        return false;
      }
    }
    assert c.files[|c.files|..] == [];
    ghost var mid := metadata.State();
    for i := 0 to |c.chunks|
      invariant RestoreChunks(mid, c.chunks) == RestoreChunks(metadata.State(), c.chunks[i..])
    {
      var k := c.chunks[i];
      assert c.chunks[i..][1..] == c.chunks[i + 1..];
      ok := metadata.RestoreChunk(k.handle, k.version, k.size);
      if !ok {
        return false;
      }
    }
    assert c.chunks[|c.chunks|..] == [];
    ok := true;
  }

  /** Exports both managers. */
  method Export(metadata: Meta.Metadata, namespaces: Space.NamespaceManager, sequence: u64) returns (c: State)
    requires namespaces.Valid()
    ensures c.sequence == sequence && ExportOf(c, Durable(namespaces.View(), metadata.State()))
  {
    hide *;
    hide Lists;
    var nodes := namespaces.ExportNodes();
    var files := metadata.ExportFiles();
    var chunks := metadata.ExportChunks();
    c := State(sequence, nodes, files, chunks);
    IsExport(c, namespaces.View(), metadata);
  }

  lemma IsExport(c: State, ns: Tree, metadata: Meta.Metadata)
    requires Lists(c.nodes, ns)
    requires multiset(c.files) == multiset(FileItems(metadata.files))
    requires multiset(c.chunks) == multiset(ChunkItems(metadata.chunks))
    ensures ExportOf(c, Durable(ns, metadata.State()))
  {}
}
