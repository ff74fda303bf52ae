// The file table and the chunk table as values.

module ChunkTables {
  // A chunk may be listed by several files; a file that goes away takes with it exactly the chunks
  // that no other file lists.

  import opened Bytes
  import opened Sorting

  type Handle = u64

  datatype FileMeta = FileMeta(size: u64, factor: u32, chunks: seq<Handle>)
  datatype ChunkMeta = ChunkMeta(version: u64, size: u64)
  datatype Tables = Tables(files: map<str, FileMeta>, chunks: map<Handle, ChunkMeta>, next: u64)

  /** A new state and whether the operation succeeded. */
  datatype Step<+S> = Step(state: S, ok: bool)

  const NO_TABLES := Tables(map[], map[], 1)

  // ----- lists of distinct handles -----

  ghost predicate NoDuplicates<T>(s: seq<T>) {
    forall i, j :: 0 <= i < j < |s| ==> s[i] != s[j]
  }

  /** The list without the first occurrence of h. */
  function Without(s: seq<Handle>, h: Handle): (r: seq<Handle>) {
    if s == [] then [] else if s[0] == h then s[1..] else [s[0]] + Without(s[1..], h)
  }

  /** Position i holds the first occurrence of h. */
  predicate FirstAt(s: seq<Handle>, h: Handle, i: nat) {
    i < |s| && s[i] == h && h !in s[..i]
  }

  lemma {:induction false} WithoutFirst(s: seq<Handle>, h: Handle) returns (i: nat)
    requires h in s
    ensures FirstAt(s, h, i) && Without(s, h) == s[..i] + s[i + 1..]
  {
    if s[0] == h {
      i := 0;
    } else {
      var j := WithoutFirst(s[1..], h);
      i := j + 1;
      assert s[..i] == [s[0]] + s[1..][..j];
      assert s[i + 1..] == s[1..][j + 1..];
    }
  }

  lemma {:induction false} WithoutMeans(s: seq<Handle>, h: Handle)
    ensures forall x :: x in Without(s, h) ==> x in s
    ensures forall x :: x in s && x != h ==> x in Without(s, h)
    ensures h !in s ==> Without(s, h) == s
    ensures NoDuplicates(s) ==> NoDuplicates(Without(s, h)) && h !in Without(s, h)
  {
    if s != [] {
      var t := s[1..];
      WithoutMeans(t, h);
      assert s == [s[0]] + t;
      if NoDuplicates(s) {
        assert forall i :: 0 <= i < |t| ==> t[i] == s[i + 1];
        assert s[0] !in t;
      }
    }
  }

  lemma NoDuplicatesSnoc<T>(s: seq<T>, x: T)
    requires NoDuplicates(s) && x !in s
    ensures NoDuplicates(s + [x])
  {}

  // ----- references -----

  /** The files that list a chunk. */
  function Holders(files: map<str, FileMeta>, h: Handle): set<str> {
    set p | p in files && h in files[p].chunks
  }

  /** The number of files that list a live chunk; 0 for anything else. */
  function References(t: Tables, h: Handle): nat {
    if h == 0 || h !in t.chunks then 0 else |Holders(t.files, h)|
  }

  /** What both tables promise each other. */
  ghost predicate Consistent(t: Tables) {
    && (forall p :: p in t.files ==> ConsistentFile(t, p))
    && (forall h :: h in t.chunks ==> 0 < h && 0 < t.chunks[h].version)
    && (t.next != 0 ==> forall h :: h in t.chunks ==> h < t.next)
  }

  ghost predicate ConsistentFile(t: Tables, p: str)
    requires p in t.files
  {
    && p != []
    && 0 < t.files[p].factor
    && NoDuplicates(t.files[p].chunks)
    && forall h :: h in t.files[p].chunks ==> h in t.chunks
  }

  // ----- the operations on values -----

  function CreateFile(t: Tables, path: str, factor: u32): Step<Tables> {
    if path == [] || path in t.files || factor == 0 then Step(t, false)
    else Step(t.(files := t.files[path := FileMeta(0, factor, [])]), true)
  }

  /** The chunks that only `path` lists. */
  function LastReferences(t: Tables, path: str): set<Handle>
    requires path in t.files
  {
    set h | h in t.files[path].chunks && h in t.chunks && (h == 0 || Holders(t.files, h) == {path})
  }

  function DeleteFile(t: Tables, path: str): Step<Tables> {
    if path !in t.files then Step(t, false)
    else Step(t.(files := t.files - {path}, chunks := t.chunks - LastReferences(t, path)), true)
  }

  function RenameFile(t: Tables, source: str, destination: str): Step<Tables> {
    if source == [] || destination == [] || source == destination || source !in t.files || destination in t.files
    then Step(t, false)
    else Step(t.(files := (t.files - {source})[destination := t.files[source]]), true)
  }

  function UpdateFileSize(t: Tables, path: str, size: u64): Step<Tables> {
    if path !in t.files then Step(t, false)
    else Step(t.(files := t.files[path := t.files[path].(size := size)]), true)
  }

  /** The handle counter after handle h has been used; it wraps around to 0. */
  function CounterAfter(next: u64, h: Handle): u64 {
    if h >= next then (h + 1) % U64 else next
  }

  function AllocateChunk(t: Tables, path: str, h: Handle, version: u64, size: u64): Step<Tables> {
    if path == [] || h == 0 || version == 0 || path !in t.files || h in t.chunks || h in t.files[path].chunks
    then Step(t, false)
    else
      var f := t.files[path];
      var next := CounterAfter(t.next, h);
      Step(Tables(t.files[path := f.(chunks := f.chunks + [h])], t.chunks[h := ChunkMeta(version, size)], next),
           h >= t.next ==> next != 0)
  }

  function AllocateStandalone(t: Tables, h: Handle, version: u64, size: u64): Step<Tables> {
    if h == 0 || version == 0 || h in t.chunks then Step(t, false)
    else
      var next := CounterAfter(t.next, h);
      if h >= t.next && next == 0 then Step(t.(next := 0), false)
      else Step(t.(chunks := t.chunks[h := ChunkMeta(version, size)], next := next), true)
  }

  function AddChunkToFile(t: Tables, path: str, h: Handle): Step<Tables> {
    if path !in t.files || h !in t.chunks || h in t.files[path].chunks then Step(t, false)
    else Step(t.(files := t.files[path := t.files[path].(chunks := t.files[path].chunks + [h])]), true)
  }

  function ReplaceChunkInFile(t: Tables, path: str, index: nat, h: Handle): Step<Tables> {
    if path == [] || h == 0 || path !in t.files || h !in t.chunks || index >= |t.files[path].chunks| then Step(t, false)
    else if t.files[path].chunks[index] == h then Step(t, true)
    else if h in t.files[path].chunks then Step(t, false)
    else Step(t.(files := t.files[path := t.files[path].(chunks := t.files[path].chunks[index := h])]), true)
  }

  function RemoveChunkFromFile(t: Tables, path: str, h: Handle): Step<Tables> {
    if path !in t.files || h !in t.files[path].chunks then Step(t, false)
    else Step(t.(files := t.files[path := t.files[path].(chunks := Without(t.files[path].chunks, h))]), true)
  }

  function DeleteChunk(t: Tables, h: Handle): Step<Tables> {
    if h !in t.chunks then Step(t, false)
    else Step(t.(files := map p | p in t.files :: t.files[p].(chunks := Without(t.files[p].chunks, h)),
                 chunks := t.chunks - {h}), true)
  }

  function SetChunkVersion(t: Tables, h: Handle, version: u64): Step<Tables> {
    if h !in t.chunks || version == 0 then Step(t, false)
    else Step(t.(chunks := t.chunks[h := t.chunks[h].(version := version)]), true)
  }

  function SetChunkSize(t: Tables, h: Handle, size: u64): Step<Tables> {
    if h !in t.chunks then Step(t, false)
    else Step(t.(chunks := t.chunks[h := t.chunks[h].(size := size)]), true)
  }

  function CloneFile(t: Tables, source: str, destination: str): Step<Tables> {
    if source == [] || destination == [] || source == destination || destination in t.files || source !in t.files
       || (exists h :: h in t.files[source].chunks && (h == 0 || h !in t.chunks))
    then Step(t, false)
    else Step(t.(files := t.files[destination := t.files[source]]), true)
  }

  function RestoreFile(t: Tables, path: str, size: u64, factor: u32, handles: seq<Handle>): Step<Tables> {
    if path == [] || path in t.files || factor == 0 || 0 in handles || HasDuplicate(handles) then Step(t, false)
    else Step(t.(files := t.files[path := FileMeta(size, factor, handles)]), true)
  }

  predicate HasDuplicate(s: seq<Handle>) {
    s != [] && (s[|s| - 1] in s[..|s| - 1] || HasDuplicate(s[..|s| - 1]))
  }

  lemma {:induction false} HasDuplicateMeans(s: seq<Handle>)
    ensures HasDuplicate(s) <==> !NoDuplicates(s)
  {
    if s != [] {
      var t := s[..|s| - 1];
      HasDuplicateMeans(t);
      assert forall i :: 0 <= i < |t| ==> t[i] == s[i];
      if s[|s| - 1] in t {
        var i :| 0 <= i < |t| && t[i] == s[|s| - 1];
        assert s[i] == s[|s| - 1];
      }
    }
  }

  function RestoreChunk(t: Tables, h: Handle, version: u64, size: u64): Step<Tables> {
    if h == 0 || version == 0 || h in t.chunks then Step(t, false)
    else
      var next := CounterAfter(t.next, h);
      Step(t.(chunks := t.chunks[h := ChunkMeta(version, size)], next := next), h >= t.next ==> next != 0)
  }

  // ----- every operation keeps the tables consistent -----

  lemma FilesChangedAt(t: Tables, path: str, f: FileMeta)
    requires Consistent(t) && path != [] && 0 < f.factor && NoDuplicates(f.chunks)
    requires forall h :: h in f.chunks ==> h in t.chunks
    ensures Consistent(t.(files := t.files[path := f]))
  {
    var after := t.(files := t.files[path := f]);
    forall p | p in after.files
      ensures ConsistentFile(after, p)
    {
      assert p != path ==> ConsistentFile(t, p);
    }
  }

  lemma ChunkChangedAt(t: Tables, h: Handle, c: ChunkMeta, next: u64)
    requires Consistent(t) && 0 < h && 0 < c.version
    requires next == t.next || next == 0 || (next > h && next >= t.next)
    requires next != 0 ==> t.next != 0 && h < next
    ensures Consistent(t.(chunks := t.chunks[h := c], next := next))
  {
    var after := t.(chunks := t.chunks[h := c], next := next);
    forall p | p in after.files
      ensures ConsistentFile(after, p)
    {
      assert ConsistentFile(t, p);
    }
  }

  lemma CreateKeepsConsistent(t: Tables, path: str, factor: u32)
    requires Consistent(t)
    ensures Consistent(CreateFile(t, path, factor).state)
  {
    if CreateFile(t, path, factor).ok {
      FilesChangedAt(t, path, FileMeta(0, factor, []));
    }
  }

  /** Deleting a file erases exactly the chunks whose last reference it held: every chunk that
      another file lists stays, and no file is left listing an erased chunk. */
  lemma DeleteKeepsConsistent(t: Tables, path: str)
    requires Consistent(t)
    ensures Consistent(DeleteFile(t, path).state)
    ensures path in t.files ==>
              forall h :: h in t.chunks ==>
                (h !in DeleteFile(t, path).state.chunks <==>
                   h in t.files[path].chunks && References(t, h) == 1)
  {
    if path in t.files {
      var after := DeleteFile(t, path).state;
      forall h | h in t.chunks
        ensures h !in after.chunks <==> h in t.files[path].chunks && References(t, h) == 1
      {
        if h in t.files[path].chunks {
          SoleHolder(t, path, h);
        }
      }
      forall p | p in after.files
        ensures ConsistentFile(after, p)
      {
        assert ConsistentFile(t, p);
        forall h | h in after.files[p].chunks
          ensures h in after.chunks
        {
          assert p in Holders(t.files, h);
        }
      }
    }
  }

  lemma SoleHolder(t: Tables, path: str, h: Handle)
    requires path in t.files && h in t.files[path].chunks
    ensures path in Holders(t.files, h)
    ensures Holders(t.files, h) == {path} <==> |Holders(t.files, h)| == 1
  {
    var s := Holders(t.files, h);
    if |s| == 1 {
      assert |s - {path}| == 0;
      assert s == {path} + (s - {path});
    }
  }

  lemma RenameKeepsConsistent(t: Tables, source: str, destination: str)
    requires Consistent(t)
    ensures Consistent(RenameFile(t, source, destination).state)
  {
    var r := RenameFile(t, source, destination);
    if r.ok {
      forall p | p in r.state.files
        ensures ConsistentFile(r.state, p)
      {
        assert ConsistentFile(t, if p == destination then source else p);
      }
    }
  }

  lemma ResizeKeepsConsistent(t: Tables, path: str, size: u64)
    requires Consistent(t)
    ensures Consistent(UpdateFileSize(t, path, size).state)
  {
    if path in t.files {
      assert ConsistentFile(t, path);
      FilesChangedAt(t, path, t.files[path].(size := size));
    }
  }

  lemma AllocateKeepsConsistent(t: Tables, path: str, h: Handle, version: u64, size: u64)
    requires Consistent(t) && t.next != 0
    ensures Consistent(AllocateChunk(t, path, h, version, size).state)
    ensures AllocateChunk(t, path, h, version, size).ok ==> AllocateChunk(t, path, h, version, size).state.next != 0
  {
    var r := AllocateChunk(t, path, h, version, size);
    if r.state != t {
      var f := t.files[path];
      assert ConsistentFile(t, path);
      ChunkChangedAt(t, h, ChunkMeta(version, size), r.state.next);
      var mid := t.(chunks := t.chunks[h := ChunkMeta(version, size)], next := r.state.next);
      NoDuplicatesSnoc(f.chunks, h);
      FilesChangedAt(mid, path, f.(chunks := f.chunks + [h]));
    }
  }

  lemma AllocateStandaloneKeepsConsistent(t: Tables, h: Handle, version: u64, size: u64)
    requires Consistent(t) && t.next != 0
    ensures Consistent(AllocateStandalone(t, h, version, size).state)
    ensures AllocateStandalone(t, h, version, size).ok ==> AllocateStandalone(t, h, version, size).state.next != 0
  {
    var r := AllocateStandalone(t, h, version, size);
    if r.ok {
      ChunkChangedAt(t, h, ChunkMeta(version, size), r.state.next);
    } else {
      forall p | p in r.state.files
        ensures ConsistentFile(r.state, p)
      {
        assert ConsistentFile(t, p);
      }
    }
  }

  lemma AddKeepsConsistent(t: Tables, path: str, h: Handle)
    requires Consistent(t)
    ensures Consistent(AddChunkToFile(t, path, h).state)
  {
    if AddChunkToFile(t, path, h).ok {
      assert ConsistentFile(t, path);
      NoDuplicatesSnoc(t.files[path].chunks, h);
      FilesChangedAt(t, path, t.files[path].(chunks := t.files[path].chunks + [h]));
    }
  }

  lemma ReplaceKeepsConsistent(t: Tables, path: str, index: nat, h: Handle)
    requires Consistent(t)
    ensures Consistent(ReplaceChunkInFile(t, path, index, h).state)
  {
    if ReplaceChunkInFile(t, path, index, h).ok {
      assert ConsistentFile(t, path);
      FilesChangedAt(t, path, t.files[path].(chunks := t.files[path].chunks[index := h]));
    }
  }

  lemma RemoveKeepsConsistent(t: Tables, path: str, h: Handle)
    requires Consistent(t)
    ensures Consistent(RemoveChunkFromFile(t, path, h).state)
  {
    if path in t.files {
      assert ConsistentFile(t, path);
      WithoutMeans(t.files[path].chunks, h);
      FilesChangedAt(t, path, t.files[path].(chunks := Without(t.files[path].chunks, h)));
    }
  }

  lemma DeleteChunkKeepsConsistent(t: Tables, h: Handle)
    requires Consistent(t)
    ensures Consistent(DeleteChunk(t, h).state)
  {
    var after := DeleteChunk(t, h).state;
    forall p | p in after.files
      ensures ConsistentFile(after, p)
    {
      assert ConsistentFile(t, p);
      WithoutMeans(t.files[p].chunks, h);
    }
  }

  lemma SetVersionKeepsConsistent(t: Tables, h: Handle, version: u64)
    requires Consistent(t)
    ensures Consistent(SetChunkVersion(t, h, version).state)
  {
    if SetChunkVersion(t, h, version).ok {
      ChunkChangedAt(t, h, t.chunks[h].(version := version), t.next);
    }
  }

  lemma SetSizeKeepsConsistent(t: Tables, h: Handle, size: u64)
    requires Consistent(t)
    ensures Consistent(SetChunkSize(t, h, size).state)
  {
    if h in t.chunks {
      ChunkChangedAt(t, h, t.chunks[h].(size := size), t.next);
    }
  }

  // ----- exporting the tables -----

  datatype PersistentFile = PersistentFile(path: str, size: u64, factor: u32, chunks: seq<Handle>)
  datatype PersistentChunk = PersistentChunk(handle: Handle, version: u64, size: u64)

  function FileItems(files: map<str, FileMeta>): set<PersistentFile> {
    set p | p in files :: PersistentFile(p, files[p].size, files[p].factor, files[p].chunks)
  }

  function ChunkItems(chunks: map<Handle, ChunkMeta>): set<PersistentChunk> {
    set h | h in chunks :: PersistentChunk(h, chunks[h].version, chunks[h].size)
  }

  predicate FilesByPath(a: PersistentFile, b: PersistentFile) {
    NotAfter(a.path, b.path)
  }

  predicate ChunksByHandle(a: PersistentChunk, b: PersistentChunk) {
    a.handle <= b.handle
  }

  lemma ExportOrders()
    ensures TotalPreorder(FilesByPath) && TotalPreorder(ChunksByHandle)
  {
    NotAfterIsOrder();
    hide NotAfter;
    forall a: PersistentFile, b: PersistentFile
      ensures FilesByPath(a, b) || FilesByPath(b, a)
    {
      assert NotAfter(a.path, b.path) || NotAfter(b.path, a.path);
    }
    forall a: PersistentFile, b: PersistentFile, c: PersistentFile
      ensures FilesByPath(a, b) && FilesByPath(b, c) ==> FilesByPath(a, c)
    {
      assert NotAfter(a.path, b.path) && NotAfter(b.path, c.path) ==> NotAfter(a.path, c.path);
    }
  }

  lemma {:induction false} HasDuplicateGrows(s: seq<Handle>, n: nat)
    requires n <= |s| && HasDuplicate(s[..n])
    ensures HasDuplicate(s)
    decreases |s|
  {
    if n == |s| {
      assert s[..n] == s;
    } else {
      assert s[..|s| - 1][..n] == s[..n];
      HasDuplicateGrows(s[..|s| - 1], n);
    }
  }

  lemma FileItemsOfUpdate(files: map<str, FileMeta>, p: str, f: FileMeta)
    requires p !in files
    ensures multiset(FileItems(files[p := f])) ==
            multiset(FileItems(files)) + multiset{PersistentFile(p, f.size, f.factor, f.chunks)}
  {
    var e := PersistentFile(p, f.size, f.factor, f.chunks);
    var after := files[p := f];
    assert e !in FileItems(files);
    forall x | x in FileItems(files)
      ensures x in FileItems(after)
    {
      assert x.path in after && after[x.path] == files[x.path];
    }
    assert p in after;
    assert FileItems(after) == FileItems(files) + {e};
  }

  lemma ChunkItemsOfUpdate(chunks: map<Handle, ChunkMeta>, h: Handle, c: ChunkMeta)
    requires h !in chunks
    ensures multiset(ChunkItems(chunks[h := c])) ==
            multiset(ChunkItems(chunks)) + multiset{PersistentChunk(h, c.version, c.size)}
  {
    var e := PersistentChunk(h, c.version, c.size);
    var after := chunks[h := c];
    assert e !in ChunkItems(chunks);
    forall x | x in ChunkItems(chunks)
      ensures x in ChunkItems(after)
    {
      assert x.handle in after && after[x.handle] == chunks[x.handle];
    }
    assert h in after;
    assert ChunkItems(after) == ChunkItems(chunks) + {e};
  }
}
