// What every request does, entry by entry.

module Effects {
  // For each request to the live master: exactly when it succeeds, and exactly which entries of the
  // namespace and of the two tables are different afterwards.  Copy-on-write is in Sharing.dfy, the
  // image of a snapshot in Snapshot.dfy.

  import opened Bytes
  import opened Namespace
  import opened Paths
  import opened ChunkTables
  import opened MasterState

  lemma CreateDirectoryEffect(s: Durable, path: str, env: Env)
    ensures var o := Live(s, CreateDirectoryRequest(path), env);
            && (o.ok <==> CanCreate(s.ns, path) && env.logging == Written)
            && o.state == if o.ok then Durable(s.ns[path := Directory], s.tables) else s
  {
    hide IsValid, Parent;
  }

  /** The factor of a new file: what is asked for, if that many servers are live or none is known;
      without a wish the default, but no more than are live. */
  lemma FactorRule(requested: u32, live: nat, default: u32)
    ensures requested != 0 ==>
              ResolveFactor(requested, live, default) == if live == 0 || requested <= live then Some(requested) else None
    ensures requested == 0 && default == 0 ==> ResolveFactor(requested, live, default) == None
    ensures requested == 0 && default != 0 ==>
              && ResolveFactor(requested, live, default) != None
              && var f := ResolveFactor(requested, live, default).value;
                 f != 0 && ((f == default && (live == 0 || f <= live)) || (f == live && live < default))
  {}

  lemma CreateFileEffect(s: Durable, path: str, requested: u32, live: nat, default: u32, env: Env)
    requires Inv(s)
    ensures var o, factor := Live(s, CreateFileRequest(path, requested, live, default), env), ResolveFactor(requested, live, default);
            && (o.ok <==> CanCreate(s.ns, path) && factor != None && env.logging == Written)
            && (o.ok ==>
                  o.state == Durable(s.ns[path := File], Tables(s.tables.files[path := FileMeta(0, factor.value, [])], s.tables.chunks, s.tables.next)))
            && (!o.ok ==> o.state == s)
  {
    if CanCreate(s.ns, path) {
      CreatableHasRealPath(s, path);
    }
    hide Inv, IsValid, Parent;
  }

  /** The erased chunks are those that the file listed and no other file lists. */
  lemma DeleteFileEffect(s: Durable, path: str, env: Env)
    requires Inv(s)
    ensures var o, t := Live(s, DeleteFileRequest(path), env), s.tables;
            var u := o.state.tables;
            && (o.ok <==> IsFile(s.ns, path) && env.logging == Written)
            && (o.ok ==> o.state.ns == s.ns - {path} && u.files == t.files - {path} && u.next == t.next)
            && (o.ok ==> forall h :: h in u.chunks <==>
                  h in t.chunks && !(h in t.files[path].chunks && forall q :: q in t.files && q != path ==> h !in t.files[q].chunks))
            && (forall h :: h in u.chunks ==> h in t.chunks && u.chunks[h] == t.chunks[h])
            && (!o.ok ==> o.state == s)
  {
    if IsFile(s.ns, path) {
      FileHasRealPath(s, path);
      OnlyHolders(s.tables.files, path);
      ListedIsPositive(s, path);
    }
    hide WellFormed, Consistent;
  }

  lemma OnlyHolders(files: map<str, FileMeta>, path: str)
    requires path in files
    ensures forall h :: h in files[path].chunks ==>
              (Holders(files, h) == {path} <==> forall q :: q in files && q != path ==> h !in files[q].chunks)
  {
    forall h | h in files[path].chunks
      ensures Holders(files, h) == {path} <==> forall q :: q in files && q != path ==> h !in files[q].chunks
    {
      assert path in Holders(files, h);
      if Holders(files, h) == {path} {
        forall q | q in files && q != path
          ensures h !in files[q].chunks
        {
          assert q !in Holders(files, h);
        }
      }
    }
  }

  lemma ListedIsPositive(s: Durable, path: str)
    requires Inv(s) && path in s.tables.files
    ensures forall h :: h in s.tables.files[path].chunks ==> h != 0
  {
    assert ConsistentFile(s.tables, path);
  }

  /** A renamed file keeps its whole entry: size, factor and ordered chunks. */
  lemma RenameFileEffect(s: Durable, source: str, destination: str, env: Env)
    requires Inv(s)
    ensures var o, t := Live(s, RenameFileRequest(source, destination), env), s.tables;
            && (o.ok <==> IsFile(s.ns, source) && CanCreate(s.ns, destination) && env.logging == Written)
            && (o.ok ==>
                  && source in t.files && destination !in t.files
                  && o.state == Durable((s.ns - {source})[destination := File],
                                        Tables((t.files - {source})[destination := t.files[source]], t.chunks, t.next)))
            && (!o.ok ==> o.state == s)
  {
    if IsFile(s.ns, source) {
      RenameFileKeepsInv(s, source, destination);
      FileHasRealPath(s, source);
      if CanCreate(s.ns, destination) {
        CreatableHasRealPath(s, destination);
        RenameOfFile(s.ns, source, destination);
      }
    }
    hide Inv, CanCreate, Renamed;
  }

  /** A new chunk has version 1 and size 0.  The very last handle is used up by an allocation that
      reports failure and still leaves the chunk behind. */
  lemma AllocateChunkEffect(s: Durable, path: str, env: Env)
    requires Inv(s)
    ensures var o, t := Live(s, AllocateChunkRequest(path), env), s.tables;
            && (o.ok <==> path in t.files && t.next != 0 && t.next != U64 - 1 && env.logging == Written)
            && (o.ok || (path in t.files && t.next == U64 - 1 && env.logging == Written) ==>
                  var f := t.files[path];
                  o.state == Durable(s.ns, Tables(t.files[path := FileMeta(f.size, f.factor, f.chunks + [t.next])],
                                                  t.chunks[t.next := ChunkMeta(1, 0)], (t.next + 1) % U64)))
            && (!o.ok && !(path in t.files && t.next == U64 - 1 && env.logging == Written) ==> o.state == s)
  {
    if path in s.tables.files {
      assert ConsistentFile(s.tables, path);
    }
    hide WellFormed;
  }

  lemma UpdateFileSizeEffect(s: Durable, path: str, size: u64, env: Env)
    ensures var o, t := Live(s, UpdateFileSizeRequest(path, size), env), s.tables;
            && (o.ok <==> path in t.files && env.logging == Written)
            && (o.ok ==>
                  o.state == Durable(s.ns, Tables(t.files[path := FileMeta(size, t.files[path].factor, t.files[path].chunks)], t.chunks, t.next)))
            && (!o.ok ==> o.state == s)
  {}

  lemma SetChunkVersionEffect(s: Durable, h: Handle, version: u64, env: Env)
    ensures var o, t := Live(s, SetChunkVersionRequest(h, version), env), s.tables;
            && (o.ok <==> h in t.chunks && version != 0 && env.logging == Written)
            && (o.ok ==> o.state == Durable(s.ns, Tables(t.files, t.chunks[h := ChunkMeta(version, t.chunks[h].size)], t.next)))
            && (!o.ok ==> o.state == s)
  {}

  lemma SetChunkSizeEffect(s: Durable, h: Handle, size: u64, env: Env)
    ensures var o, t := Live(s, SetChunkSizeRequest(h, size), env), s.tables;
            && (o.ok <==> h in t.chunks && env.logging == Written)
            && (o.ok ==> o.state == Durable(s.ns, Tables(t.files, t.chunks[h := ChunkMeta(t.chunks[h].version, size)], t.next)))
            && (!o.ok ==> o.state == s)
  {}

  lemma AddChunkToFileEffect(s: Durable, path: str, h: Handle, env: Env)
    ensures var o, t := Live(s, AddChunkToFileRequest(path, h), env), s.tables;
            && (o.ok <==> path in t.files && h in t.chunks && h !in t.files[path].chunks && env.logging == Written)
            && (o.ok ==>
                  var f := t.files[path];
                  o.state == Durable(s.ns, Tables(t.files[path := FileMeta(f.size, f.factor, f.chunks + [h])], t.chunks, t.next)))
            && (!o.ok ==> o.state == s)
  {}

  /** The chunk itself stays, listed or not. */
  lemma RemoveChunkFromFileEffect(s: Durable, path: str, h: Handle, env: Env) returns (i: nat)
    ensures var o, t := Live(s, RemoveChunkFromFileRequest(path, h), env), s.tables;
            && (o.ok <==> path in t.files && h in t.chunks && h in t.files[path].chunks && env.logging == Written)
            && (o.ok ==>
                  var f := t.files[path];
                  && FirstAt(f.chunks, h, i)
                  && o.state == Durable(s.ns, Tables(t.files[path := FileMeta(f.size, f.factor, f.chunks[..i] + f.chunks[i + 1..])], t.chunks, t.next)))
            && (!o.ok ==> o.state == s)
  {
    i := 0;
    if path in s.tables.files && h in s.tables.files[path].chunks {
      i := WithoutFirst(s.tables.files[path].chunks, h);
    }
    hide Without;
  }

  /** Only a chunk that no file lists is collected, and only if the chunkservers deleted it. */
  lemma CollectEffect(s: Durable, h: Handle, env: Env)
    requires Inv(s)
    ensures var o, t := Live(s, CollectRequest(h), env), s.tables;
            && (o.ok <==> h != 0 && (h !in t.chunks || (env.logging == Written && env.deleted && forall p :: p in t.files ==> h !in t.files[p].chunks)))
            && o.state == if o.ok then Durable(s.ns, Tables(t.files, t.chunks - {h}, t.next)) else s
  {
    var t := s.tables;
    if h in t.chunks {
      Unlisted(t, h);
      if References(t, h) == 0 {
        forall p | p in t.files
          ensures Without(t.files[p].chunks, h) == t.files[p].chunks
        {
          WithoutMeans(t.files[p].chunks, h);
        }
        assert DeleteChunk(t, h).state.files == t.files;
      }
    } else {
      assert t.chunks - {h} == t.chunks;
    }
    hide Inv, Without;
  }

  lemma Unlisted(t: Tables, h: Handle)
    requires h in t.chunks && h != 0
    ensures References(t, h) == 0 <==> forall p :: p in t.files ==> h !in t.files[p].chunks
  {
    if References(t, h) == 0 {
      forall p | p in t.files
        ensures h !in t.files[p].chunks
      {
        assert p !in Holders(t.files, h);
      }
    } else {
      assert Holders(t.files, h) != {};
      var p :| p in Holders(t.files, h);
    }
  }

  /** When a snapshot succeeds; what it adds is in Snapshot.SnapshotIsImage. */
  lemma SnapshotSucceedsIff(s: Durable, source: str, destination: str, env: Env)
    requires Inv(s)
    ensures var o := Live(s, CreateSnapshotRequest(source, destination), env);
            && (o.ok <==> source in s.ns && CanCreate(s.ns, destination) && env.logging == Written)
            && (!o.ok ==> o.state == s)
  {
    if source in s.ns {
      assert ValidEntry(s.ns, source);
    }
    hide WellFormed, Consistent, Placed, Parent;
  }
}
