// The class that keeps the file table and the chunk table and updates them in place, each
// method proved against the operation of ChunkTables.dfy.

module Metadata {
  import opened Bytes
  import opened Sorting
  import opened ChunkTables

  class Metadata {
    var files: map<str, FileMeta>
    var chunks: map<Handle, ChunkMeta>
    var next: u64

    function State(): Tables
      reads this
    {
      Tables(files, chunks, next)
    }

    constructor ()
      ensures State() == NO_TABLES
    {
      files, chunks, next := map[], map[], 1;
    }

    method Clear()
      modifies this
      ensures State() == NO_TABLES
    {
      files, chunks, next := map[], map[], 1;
    }

    /** Counts, file by file, how many files list the chunk. */
    method GetChunkReferenceCount(h: Handle) returns (count: nat)
      ensures count == References(State(), h)
    {
      count := 0;
      if h == 0 || h !in chunks {
        return;
      }
      var rest := files.Keys;
      while rest != {}
        invariant rest <= files.Keys
        invariant count == |Holders(files, h) - rest|
        decreases rest
      {
        var p :| p in rest;
        CountOneMore(Holders(files, h), rest, p);
        if h in files[p].chunks {
          count := count + 1;
        }
        rest := rest - {p};
      }
      assert Holders(files, h) - {} == Holders(files, h);
    }

    method CreateFile(path: str, factor: u32) returns (ok: bool)
      modifies this
      ensures ok <==> path != [] && path !in old(files) && factor != 0
      ensures ok ==> files == old(files)[path := FileMeta(0, factor, [])] && chunks == old(chunks) && next == old(next)
      ensures !ok ==> files == old(files) && chunks == old(chunks) && next == old(next)
      ensures Step(State(), ok) == ChunkTables.CreateFile(old(State()), path, factor)
    {
      if path == [] || path in files || factor == 0 {
        return false;
      }
      files := files[path := FileMeta(0, factor, [])];
      return true;
    }

    /** Erases the file, then every chunk of it that no file lists any more. */
    method DeleteFile(path: str) returns (ok: bool)
      modifies this
      ensures ok <==> path in old(files)
      ensures ok ==> files == old(files) - {path} && next == old(next) && forall h :: h in chunks <==>
                h in old(chunks) && !(h in old(files)[path].chunks && (h == 0 || forall q :: q in files ==> h !in files[q].chunks))
      ensures forall h :: h in chunks ==> h in old(chunks) && chunks[h] == old(chunks)[h]
      ensures !ok ==> files == old(files) && chunks == old(chunks) && next == old(next)
      ensures Step(State(), ok) == ChunkTables.DeleteFile(old(State()), path)
    {
      if path !in files {
        return false;
      }
      ghost var before := State();
      var handles := files[path].chunks;
      files := files - {path};
      for i := 0 to |handles|
        invariant files == before.files - {path} && next == before.next
        invariant chunks == before.chunks - (set h | h in handles[..i] && h in before.chunks && (h == 0 || Holders(before.files, h) == {path}))
      {
        var h := handles[i];
        assert handles[..i + 1] == handles[..i] + [h];
        assert Holders(files, h) == Holders(before.files, h) - {path};
        assert path in Holders(before.files, h);
        var references := GetChunkReferenceCount(h);
        if references == 0 {
          chunks := chunks - {h};
        }
      }
      assert handles[..|handles|] == handles;
      LastHolder(before.files, path);
      return true;
    }

    method RenameFile(source: str, destination: str) returns (ok: bool)
      modifies this
      ensures ok <==> source in old(files) && destination !in old(files) && source != [] && destination != []
      ensures ok ==> files == (old(files) - {source})[destination := old(files)[source]] && chunks == old(chunks) && next == old(next)
      ensures !ok ==> files == old(files) && chunks == old(chunks) && next == old(next)
      ensures Step(State(), ok) == ChunkTables.RenameFile(old(State()), source, destination)
    {
      if source == [] || destination == [] || source == destination || source !in files || destination in files {
        return false;
      }
      var file := files[source];
      files := files - {source};
      files := files[destination := file];
      return true;
    }

    method UpdateFileSize(path: str, size: u64) returns (ok: bool)
      modifies this
      ensures ok <==> path in old(files)
      ensures ok ==> files == old(files)[path := FileMeta(size, old(files)[path].factor, old(files)[path].chunks)]
      ensures chunks == old(chunks) && next == old(next) && (!ok ==> files == old(files))
      ensures Step(State(), ok) == ChunkTables.UpdateFileSize(old(State()), path, size)
    {
      if path !in files {
        return false;
      }
      files := files[path := files[path].(size := size)];
      return true;
    }

    /** The counter moves past h and reports whether it wrapped. */
    method Advance(h: Handle) returns (wrapped: bool)
      modifies this`next
      ensures next == CounterAfter(old(next), h)
      ensures wrapped <==> h >= old(next) && next == 0
    {
      if h >= next {
        next := (h + 1) % U64;
        return next == 0;
      }
      return false;
    }

    method AllocateChunk(path: str, h: Handle, version: u64, size: u64) returns (ok: bool)
      modifies this
      ensures ok <==> path != [] && h != 0 && version != 0 && path in old(files) && h !in old(chunks) && h !in old(files)[path].chunks && (h < old(next) || h != U64 - 1)
      ensures ok ==>
                && files == old(files)[path := FileMeta(old(files)[path].size, old(files)[path].factor, old(files)[path].chunks + [h])]
                && chunks == old(chunks)[h := ChunkMeta(version, size)] && next == if h < old(next) then old(next) else h + 1
      ensures Step(State(), ok) == ChunkTables.AllocateChunk(old(State()), path, h, version, size)
    {
      if path == [] || h == 0 || version == 0 || path !in files || h in chunks {
        return false;
      }
      chunks := chunks[h := ChunkMeta(version, size)];
      if h in files[path].chunks {
        chunks := chunks - {h};
        assert chunks == old(chunks);
        return false;
      }
      files := files[path := files[path].(chunks := files[path].chunks + [h])];
      var wrapped := Advance(h);
      return !wrapped;
    }

    method AllocateStandaloneChunk(h: Handle, version: u64, size: u64) returns (ok: bool)
      modifies this
      ensures ok <==> h != 0 && version != 0 && h !in old(chunks) && (h < old(next) || h != U64 - 1)
      ensures ok ==> chunks == old(chunks)[h := ChunkMeta(version, size)] && next == if h < old(next) then old(next) else h + 1
      ensures files == old(files) && (!ok ==> chunks == old(chunks))
      ensures Step(State(), ok) == ChunkTables.AllocateStandalone(old(State()), h, version, size)
    {
      if h == 0 || version == 0 || h in chunks {
        return false;
      }
      chunks := chunks[h := ChunkMeta(version, size)];
      var wrapped := Advance(h);
      if wrapped {
        chunks := chunks - {h};
        assert chunks == old(chunks);
        return false;
      }
      return true;
    }

    method AddChunkToFile(path: str, h: Handle) returns (ok: bool)
      modifies this
      ensures ok <==> path in old(files) && h in old(chunks) && h !in old(files)[path].chunks
      ensures ok ==> files == old(files)[path := FileMeta(old(files)[path].size, old(files)[path].factor, old(files)[path].chunks + [h])]
      ensures chunks == old(chunks) && next == old(next) && (!ok ==> files == old(files))
      ensures Step(State(), ok) == ChunkTables.AddChunkToFile(old(State()), path, h)
    {
      if path !in files || h !in chunks || h in files[path].chunks {
        return false;
      }
      files := files[path := files[path].(chunks := files[path].chunks + [h])];
      return true;
    }

    method ReplaceChunkInFile(path: str, index: nat, h: Handle) returns (ok: bool)
      modifies this
      ensures ok ==> path in old(files) && index < |old(files)[path].chunks|
      ensures ok && old(files)[path].chunks[index] != h ==>
                files == old(files)[path := FileMeta(old(files)[path].size, old(files)[path].factor, old(files)[path].chunks[index := h])]
      ensures chunks == old(chunks) && next == old(next) && (!ok ==> files == old(files))
      ensures Step(State(), ok) == ChunkTables.ReplaceChunkInFile(old(State()), path, index, h)
    {
      if path == [] || h == 0 || path !in files || h !in chunks || index >= |files[path].chunks| {
        return false;
      }
      var handles := files[path].chunks;
      if handles[index] == h {
        return true;
      }
      if h in handles {
        return false;
      }
      files := files[path := files[path].(chunks := handles[index := h])];
      return true;
    }

    /** Erases the first occurrence of a handle from a list. */
    method Erase(handles: seq<Handle>, h: Handle) returns (rest: seq<Handle>, found: bool)
      ensures rest == Without(handles, h) && (found <==> h in handles)
    {
      var i := 0;
      while i < |handles| && handles[i] != h
        invariant i <= |handles| && h !in handles[..i]
        invariant Without(handles, h) == handles[..i] + Without(handles[i..], h)
      {
        assert handles[..i + 1] == handles[..i] + [handles[i]];
        assert handles[i..][1..] == handles[i + 1..];
        i := i + 1;
      }
      if i == |handles| {
        assert handles[..i] == handles;
        return handles, false;
      }
      assert handles[i..][1..] == handles[i + 1..];
      return handles[..i] + handles[i + 1..], true;
    }

    method RemoveChunkFromFile(path: str, h: Handle) returns (ok: bool)
      modifies this
      ensures ok <==> path in old(files) && h in old(files)[path].chunks
      ensures ok ==> exists i: nat :: FirstAt(old(files)[path].chunks, h, i)
                                 && files == old(files)[path := FileMeta(old(files)[path].size, old(files)[path].factor, old(files)[path].chunks[..i] + old(files)[path].chunks[i + 1..])]
      ensures chunks == old(chunks) && next == old(next) && (!ok ==> files == old(files))
      ensures Step(State(), ok) == ChunkTables.RemoveChunkFromFile(old(State()), path, h)
    {
      if path !in files {
        return false;
      }
      var rest, found := Erase(files[path].chunks, h);
      if !found {
        return false;
      }
      ghost var i := WithoutFirst(files[path].chunks, h);
      files := files[path := files[path].(chunks := rest)];
      return true;
    }

    /** Takes the chunk out of every file, then erases it. */
    method DeleteChunk(h: Handle) returns (ok: bool)
      modifies this
      ensures ok <==> h in old(chunks)
      ensures ok ==> chunks == old(chunks) - {h} && next == old(next)
      ensures ok && (forall p :: p in old(files) ==> h !in old(files)[p].chunks) ==> files == old(files)
      ensures !ok ==> files == old(files) && chunks == old(chunks) && next == old(next)
      ensures Step(State(), ok) == ChunkTables.DeleteChunk(old(State()), h)
    {
      if h !in chunks {
        return false;
      }
      var todo := files.Keys;
      while todo != {}
        invariant files.Keys == old(files).Keys && todo <= files.Keys
        invariant chunks == old(chunks) && next == old(next)
        invariant forall p :: p in files ==>
                    files[p] == if p in todo then old(files)[p]
                                else old(files)[p].(chunks := Without(old(files)[p].chunks, h))
        decreases todo
      {
        var p :| p in todo;
        var rest, _ := Erase(files[p].chunks, h);
        files := files[p := files[p].(chunks := rest)];
        todo := todo - {p};
      }
      chunks := chunks - {h};
      assert files == map p | p in old(files) :: old(files)[p].(chunks := Without(old(files)[p].chunks, h));
      forall p | p in old(files) && h !in old(files)[p].chunks
        ensures files[p] == old(files)[p]
      {
        WithoutMeans(old(files)[p].chunks, h);
      }
      return true;
    }

    method SetChunkVersion(h: Handle, version: u64) returns (ok: bool)
      modifies this
      ensures ok <==> h in old(chunks) && version != 0
      ensures ok ==> chunks == old(chunks)[h := ChunkMeta(version, old(chunks)[h].size)]
      ensures files == old(files) && next == old(next) && (!ok ==> chunks == old(chunks))
      ensures Step(State(), ok) == ChunkTables.SetChunkVersion(old(State()), h, version)
    {
      if h !in chunks || version == 0 {
        return false;
      }
      chunks := chunks[h := chunks[h].(version := version)];
      return true;
    }

    method SetChunkSize(h: Handle, size: u64) returns (ok: bool)
      modifies this
      ensures ok <==> h in old(chunks)
      ensures ok ==> chunks == old(chunks)[h := ChunkMeta(old(chunks)[h].version, size)]
      ensures files == old(files) && next == old(next) && (!ok ==> chunks == old(chunks))
      ensures Step(State(), ok) == ChunkTables.SetChunkSize(old(State()), h, size)
    {
      if h !in chunks {
        return false;
      }
      chunks := chunks[h := chunks[h].(size := size)];
      return true;
    }

    method CloneFileMetadata(source: str, destination: str) returns (ok: bool)
      modifies this
      ensures ok ==> source in old(files) && destination !in old(files) && files == old(files)[destination := old(files)[source]]
      ensures chunks == old(chunks) && next == old(next) && (!ok ==> files == old(files))
      ensures Step(State(), ok) == ChunkTables.CloneFile(old(State()), source, destination)
    {
      if source == [] || destination == [] || source == destination || destination in files || source !in files {
        return false;
      }
      var copy := files[source];
      for i := 0 to |copy.chunks|
        invariant forall k :: 0 <= k < i ==> copy.chunks[k] != 0 && copy.chunks[k] in chunks
      {
        if copy.chunks[i] == 0 || copy.chunks[i] !in chunks {
          assert copy.chunks[i] in files[source].chunks;
          return false;
        }
      }
      files := files[destination := copy];
      return true;
    }

    method RestoreFile(path: str, size: u64, factor: u32, handles: seq<Handle>) returns (ok: bool)
      modifies this
      ensures ok <==> path != [] && path !in old(files) && factor != 0 && 0 !in handles && NoDuplicates(handles)
      ensures ok ==> files == old(files)[path := FileMeta(size, factor, handles)]
      ensures chunks == old(chunks) && next == old(next) && (!ok ==> files == old(files))
      ensures Step(State(), ok) == ChunkTables.RestoreFile(old(State()), path, size, factor, handles)
    {
      if path == [] || path in files || factor == 0 {
        return false;
      }
      HasDuplicateMeans(handles);
      for i := 0 to |handles|
        invariant 0 !in handles[..i] && !HasDuplicate(handles[..i])
      {
        assert handles[..i + 1][..i] == handles[..i];
        if handles[i] == 0 {
          return false;
        }
        if handles[i] in handles[..i] {
          assert handles[..i + 1][i] == handles[i];
          HasDuplicateGrows(handles, i + 1);
          return false;
        }
      }
      assert handles[..|handles|] == handles;
      files := files[path := FileMeta(size, factor, handles)];
      return true;
    }

    method RestoreChunk(h: Handle, version: u64, size: u64) returns (ok: bool)
      modifies this
      ensures ok ==> chunks == old(chunks)[h := ChunkMeta(version, size)] && next == if h < old(next) then old(next) else h + 1
      ensures ok <==> h != 0 && version != 0 && h !in old(chunks) && (h < old(next) || h != U64 - 1)
      ensures files == old(files)
      ensures Step(State(), ok) == ChunkTables.RestoreChunk(old(State()), h, version, size)
    {
      if h == 0 || version == 0 || h in chunks {
        return false;
      }
      chunks := chunks[h := ChunkMeta(version, size)];
      var wrapped := Advance(h);
      return !wrapped;
    }

    method ExportFiles() returns (list: seq<PersistentFile>)
      ensures multiset(list) == multiset(FileItems(files)) && Sorted(list, FilesByPath)
    {
      list := [];
      ghost var done: map<str, FileMeta> := map[];
      var rest := files.Keys;
      while rest != {}
        invariant rest <= files.Keys && done == files - rest
        invariant multiset(list) == multiset(FileItems(done))
        decreases rest
      {
        var p :| p in rest;
        FileItemsOfUpdate(done, p, files[p]);
        list := list + [PersistentFile(p, files[p].size, files[p].factor, files[p].chunks)];
        done := done[p := files[p]];
        rest := rest - {p};
      }
      assert done == files;
      ExportOrders();
      list := Sort(list, FilesByPath);
    }

    method ExportChunks() returns (list: seq<PersistentChunk>)
      ensures multiset(list) == multiset(ChunkItems(chunks)) && Sorted(list, ChunksByHandle)
    {
      list := [];
      ghost var done: map<Handle, ChunkMeta> := map[];
      var rest := chunks.Keys;
      while rest != {}
        invariant rest <= chunks.Keys && done == chunks - rest
        invariant multiset(list) == multiset(ChunkItems(done))
        decreases rest
      {
        var h :| h in rest;
        ChunkItemsOfUpdate(done, h, chunks[h]);
        list := list + [PersistentChunk(h, chunks[h].version, chunks[h].size)];
        done := done[h := chunks[h]];
        rest := rest - {h};
      }
      assert done == chunks;
      ExportOrders();
      list := Sort(list, ChunksByHandle);
    }
  }

  /** A path is the only holder of a chunk exactly if it lists it and no other file does. */
  lemma LastHolder(files: map<str, FileMeta>, path: str)
    requires path in files
    ensures forall h :: h in files[path].chunks ==>
              (Holders(files, h) == {path} <==> forall q :: q in files - {path} ==> h !in (files - {path})[q].chunks)
  {
    forall h | h in files[path].chunks
      ensures Holders(files, h) == {path} <==> forall q :: q in files - {path} ==> h !in (files - {path})[q].chunks
    {
      assert path in Holders(files, h);
      if Holders(files, h) == {path} {
        forall q | q in files - {path}
          ensures h !in files[q].chunks
        {
          assert q !in Holders(files, h);
        }
      }
      if forall q :: q in files - {path} ==> h !in (files - {path})[q].chunks {
        assert forall q :: q in Holders(files, h) ==> q == path || q in files - {path};
      }
    }
  }

  lemma CountOneMore(holders: set<str>, rest: set<str>, p: str)
    requires p in rest
    ensures |holders - (rest - {p})| == |holders - rest| + if p in holders then 1 else 0
  {
    if p in holders {
      assert holders - (rest - {p}) == (holders - rest) + {p};
    } else {
      assert holders - (rest - {p}) == holders - rest;
    }
  }
}
