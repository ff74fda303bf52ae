// Copy-on-write over the file and chunk tables.

module Sharing {
  // When it succeeds, what it changes, and that a failure changes nothing but the handle counter.

  import opened Bytes
  import opened Namespace
  import opened ChunkTables
  import opened MasterState

  // ----- the cases -----

  lemma LiveCopyOnWrite(s: Durable, path: str, index: u64)
    ensures forall env :: Live(s, CopyOnWriteRequest(path, index), env) == CopyOnWrite(s, path, index, env)
    ensures Inv(s) ==> forall env :: Inv(CopyOnWrite(s, path, index, env).state)
  {
    hide CopyOnWrite, Inv;
    if Inv(s) {
      forall env: Env
        ensures Inv(CopyOnWrite(s, path, index, env).state)
      {
        CopyOnWriteKeepsInv(s, path, index, env);
      }
    }
  }

  lemma CopyOnWriteRefused(s: Durable, path: str, index: u64, env: Env)
    requires path == [] || path !in s.tables.files || index >= |s.tables.files[path].chunks|
    ensures CopyOnWrite(s, path, index, env) == Outcome(s, false, None)
  {}

  predicate HasSlot(s: Durable, path: str, index: u64) {
    path != [] && path in s.tables.files && index < |s.tables.files[path].chunks|
  }

  function Slot(s: Durable, path: str, index: u64): Handle
    requires HasSlot(s, path, index)
  {
    s.tables.files[path].chunks[index]
  }

  /** A slot of a file holds a live chunk, which the file itself refers to. */
  lemma SlotOfInv(s: Durable, path: str, index: u64)
    requires Inv(s) && HasSlot(s, path, index)
    ensures var h := Slot(s, path, index);
            h != 0 && h in s.tables.chunks && 1 <= References(s.tables, h) && s.tables.chunks[h].version != 0
  {
    hide WellFormed;
    assert ConsistentFile(s.tables, path);
    var h := Slot(s, path, index);
    assert path in Holders(s.tables.files, h);
    if Holders(s.tables.files, h) == {} {
      assert false;
    }
  }

  lemma CopyOnWriteUnshared(s: Durable, path: str, index: u64, env: Env)
    requires HasSlot(s, path, index) && Slot(s, path, index) != 0 && References(s.tables, Slot(s, path, index)) <= 1
    ensures CopyOnWrite(s, path, index, env) == Outcome(s, true, None)
  {
    hide References;
  }

  predicate Shared(s: Durable, path: str, index: u64) {
    && HasSlot(s, path, index) && Slot(s, path, index) != 0 && Slot(s, path, index) in s.tables.chunks
    && References(s.tables, Slot(s, path, index)) > 1
  }

  function Allocated(s: Durable, path: str, index: u64): Step<Tables>
    requires Shared(s, path, index)
  {
    var c := s.tables.chunks[Slot(s, path, index)];
    AllocateStandalone(s.tables, s.tables.next, c.version, c.size)
  }

  lemma CopyOnWriteExhausted(s: Durable, path: str, index: u64, env: Env)
    requires Shared(s, path, index) && (s.tables.next == 0 || !Allocated(s, path, index).ok)
    ensures CopyOnWrite(s, path, index, env) ==
            Outcome(if s.tables.next == 0 then s else s.(tables := Allocated(s, path, index).state), false, None)
  {
    hide References, AllocateStandalone;
  }

  lemma CopyOnWriteMoved(s: Durable, path: str, index: u64, env: Env)
    requires Shared(s, path, index) && s.tables.next != 0 && Allocated(s, path, index).ok
    requires !env.registered || !env.cloned
    ensures CopyOnWrite(s, path, index, env) ==
            Outcome(s.(tables := s.tables.(next := Allocated(s, path, index).state.next)), false, None)
  {
    hide References, AllocateStandalone;
  }

  lemma CopyOnWriteReplaced(s: Durable, path: str, index: u64, env: Env)
    requires Shared(s, path, index) && s.tables.next != 0 && Allocated(s, path, index).ok
    requires env.registered && env.cloned
    ensures var a, h, from := Allocated(s, path, index), s.tables.next, Slot(s, path, index);
            var c := s.tables.chunks[from];
            CopyOnWrite(s, path, index, env) ==
            Outcome(s.(tables := if env.logging == Written then ReplaceChunkInFile(a.state, path, index, h).state else s.tables.(next := a.state.next)),
                    env.logging == Written,
                    if env.logging == NotWritten then None else Some(OpCopyOnWrite(path, index, from, h, c.version, c.size)))
  {
    hide References, AllocateStandalone, ReplaceChunkInFile;
  }

  lemma FreshIsUnlisted(s: Durable, h: Handle)
    requires Inv(s) && h !in s.tables.chunks
    ensures forall p :: p in s.tables.files ==> h !in s.tables.files[p].chunks
  {
    hide WellFormed;
    forall p | p in s.tables.files
      ensures h !in s.tables.files[p].chunks
    {
      assert ConsistentFile(s.tables, p);
    }
  }

  lemma AllocatedIs(t: Tables, h: Handle, version: u64, size: u64)
    requires AllocateStandalone(t, h, version, size).ok
    ensures var a := AllocateStandalone(t, h, version, size).state;
            h !in t.chunks && h != 0 && a == t.(chunks := t.chunks[h := ChunkMeta(version, size)], next := a.next)
  {}

  lemma DeleteOfUnlisted(t: Tables, h: Handle, c: ChunkMeta, next: u64)
    requires h !in t.chunks && forall p :: p in t.files ==> h !in t.files[p].chunks
    ensures DeleteChunk(t.(chunks := t.chunks[h := c], next := next), h).state == t.(next := next)
  {
    forall p | p in t.files
      ensures Without(t.files[p].chunks, h) == t.files[p].chunks
    {
      WithoutMeans(t.files[p].chunks, h);
    }
    assert (map p | p in t.files :: t.files[p].(chunks := Without(t.files[p].chunks, h))) == t.files;
    assert t.chunks[h := c] - {h} == t.chunks;
  }

  lemma AllocationUndone(s: Durable, h: Handle, version: u64, size: u64)
    requires Inv(s) && AllocateStandalone(s.tables, h, version, size).ok
    ensures var a := AllocateStandalone(s.tables, h, version, size);
            DeleteChunk(a.state, h).state == s.tables.(next := a.state.next)
  {
    hide *;
    AllocatedIs(s.tables, h, version, size);
    FreshIsUnlisted(s, h);
    DeleteOfUnlisted(s.tables, h, ChunkMeta(version, size), AllocateStandalone(s.tables, h, version, size).state.next);
  }

  lemma ReplaceAndBack(t: Tables, path: str, index: u64, h: Handle)
    requires path != [] && path in t.files && index < |t.files[path].chunks| && NoDuplicates(t.files[path].chunks)
    requires h != 0 && h in t.chunks && h !in t.files[path].chunks
    requires t.files[path].chunks[index] != 0 && t.files[path].chunks[index] in t.chunks
    ensures var b := ReplaceChunkInFile(t, path, index, h);
            && b.ok && b.state == t.(files := t.files[path := t.files[path].(chunks := t.files[path].chunks[index := h])])
            && ReplaceChunkInFile(b.state, path, index, t.files[path].chunks[index]).state == t
  {
    var chunks, from := t.files[path].chunks, t.files[path].chunks[index];
    var after := chunks[index := h];
    assert after[index := from] == chunks;
    assert from !in after;
    var files := t.files[path := t.files[path].(chunks := after)];
    assert files[path := files[path].(chunks := chunks)] == t.files;
  }

  lemma OnlyHolder(files: map<str, FileMeta>, path: str, index: u64, h: Handle)
    requires path in files && index < |files[path].chunks|
    requires forall p :: p in files ==> h !in files[p].chunks
    ensures Holders(files[path := files[path].(chunks := files[path].chunks[index := h])], h) == {path}
  {
    var after := files[path := files[path].(chunks := files[path].chunks[index := h])];
    assert after[path].chunks[index] == h;
  }

  lemma SlotFacts(s: Durable, path: str, index: u64)
    requires Inv(s) && HasSlot(s, path, index)
    ensures NoDuplicates(s.tables.files[path].chunks) && Slot(s, path, index) in s.tables.chunks && Slot(s, path, index) != 0
  {
    hide WellFormed;
    assert ConsistentFile(s.tables, path);
  }

  /** The fresh chunk fits into the slot, is referred to by this file alone, and can be taken out
      again. */
  lemma ReplaceSucceeds(s: Durable, path: str, index: u64, h: Handle, c: ChunkMeta)
    requires Inv(s) && HasSlot(s, path, index) && AllocateStandalone(s.tables, h, c.version, c.size).ok
    ensures var a, from := AllocateStandalone(s.tables, h, c.version, c.size).state, Slot(s, path, index);
            var b := ReplaceChunkInFile(a, path, index, h);
            && from != h && a.files == s.tables.files
            && b.ok && ReplaceChunkInFile(b.state, path, index, from).state == a
            && path in b.state.files && index < |b.state.files[path].chunks| && b.state.files[path].chunks[index] == h
            && References(b.state, h) == 1
  {
    AllocatedIs(s.tables, h, c.version, c.size);
    FreshIsUnlisted(s, h);
    SlotFacts(s, path, index);
    hide Inv, AllocateStandalone, ReplaceChunkInFile, Holders;
    var a := AllocateStandalone(s.tables, h, c.version, c.size).state;
    ReplaceAndBack(a, path, index, h);
    OnlyHolder(a.files, path, index, h);
  }

  // ----- all or nothing -----

  lemma Exhausted(t: Tables, h: Handle, version: u64, size: u64)
    requires t.next == h != 0 && h !in t.chunks && version != 0
    ensures AllocateStandalone(t, h, version, size).ok <==> h != U64 - 1
    ensures !AllocateStandalone(t, h, version, size).ok ==> AllocateStandalone(t, h, version, size).state == t.(next := 0)
  {}

  /** When copy-on-write grants a write: the slot exists, and either no other file shares its chunk
      or a handle is left and registration, cloning and logging all succeed. */
  predicate Grants(s: Durable, path: str, index: u64, env: Env) {
    HasSlot(s, path, index)
    && (References(s.tables, Slot(s, path, index)) <= 1
        || (s.tables.next != 0 && s.tables.next != U64 - 1 && env.registered && env.cloned && env.logging == Written))
  }

  /** Success on a shared chunk changes one slot of one file, to a fresh handle with the same version
      and size, and moves one reference; failure leaves both tables as they were, up to the counter. */
  lemma CopyOnWriteAllOrNothing(s: Durable, path: str, index: u64, env: Env)
    requires Inv(s)
    ensures var o, t := CopyOnWrite(s, path, index, env), s.tables;
            var u := o.state.tables;
            && o.state.ns == s.ns
            && (o.ok <==> Grants(s, path, index, env))
            && (!o.ok || References(t, Slot(s, path, index)) <= 1 ==> u.files == t.files && u.chunks == t.chunks)
            && (o.ok && References(t, Slot(s, path, index)) > 1 ==>
                  var from, h := Slot(s, path, index), t.next;
                  && h !in t.chunks && from in t.chunks && h != from
                  && u.chunks == t.chunks[h := t.chunks[from]]
                  && u.files == t.files[path := t.files[path].(chunks := t.files[path].chunks[index := h])]
                  && References(u, h) == 1
                  && References(u, from) == References(t, from) - 1
                  && (forall k :: k in t.chunks && k != from ==> References(u, k) == References(t, k)))
  {
    hide Inv, References, AllocateStandalone, ReplaceChunkInFile, CopyOnWrite;
    if !HasSlot(s, path, index) {
      CopyOnWriteRefused(s, path, index, env);
    } else {
      SlotOfInv(s, path, index);
      var from := Slot(s, path, index);
      if References(s.tables, from) <= 1 {
        CopyOnWriteUnshared(s, path, index, env);
      } else if s.tables.next == 0 {
        CopyOnWriteExhausted(s, path, index, env);
      } else {
        SharedCopyOnWrite(s, path, index, env);
      }
    }
  }

  lemma NextIsFresh(s: Durable)
    requires Inv(s)
    ensures s.tables.next != 0 ==> s.tables.next !in s.tables.chunks
  {
    hide WellFormed;
  }

  lemma SharedCopyOnWrite(s: Durable, path: str, index: u64, env: Env)
    requires Inv(s) && Shared(s, path, index) && s.tables.next != 0
    ensures var o, t, from, h := CopyOnWrite(s, path, index, env), s.tables, Slot(s, path, index), s.tables.next;
            var u := o.state.tables;
            && o.state.ns == s.ns
            && (o.ok <==> h != U64 - 1 && env.registered && env.cloned && env.logging == Written)
            && (!o.ok ==> u.files == t.files && u.chunks == t.chunks)
            && (o.ok ==>
                  && h !in t.chunks && h != from
                  && u.chunks == t.chunks[h := t.chunks[from]]
                  && u.files == t.files[path := t.files[path].(chunks := t.files[path].chunks[index := h])]
                  && References(u, h) == 1
                  && References(u, from) == References(t, from) - 1
                  && (forall k :: k in t.chunks && k != from ==> References(u, k) == References(t, k)))
  {
    var t, from, h := s.tables, Slot(s, path, index), s.tables.next;
    var c := t.chunks[from];
    NextIsFresh(s);
    SlotOfInv(s, path, index);
    Exhausted(t, h, c.version, c.size);
    hide Inv, AllocateStandalone, ReplaceChunkInFile, CopyOnWrite, References, CounterAfter;
    if !Allocated(s, path, index).ok {
      CopyOnWriteExhausted(s, path, index, env);
    } else {
      AllocatedIs(t, h, c.version, c.size);
      if !env.registered || !env.cloned {
        CopyOnWriteMoved(s, path, index, env);
      } else {
        CopyOnWriteReplaced(s, path, index, env);
        SlotReplaced(s, path, index, c);
        ReferencesMoved(s, path, index, h, c, ReplaceChunkInFile(Allocated(s, path, index).state, path, index, h).state);
      }
    }
  }

  lemma SlotReplaced(s: Durable, path: str, index: u64, c: ChunkMeta)
    requires Inv(s) && Shared(s, path, index) && c == s.tables.chunks[Slot(s, path, index)]
    requires AllocateStandalone(s.tables, s.tables.next, c.version, c.size).ok
    ensures var a, h := AllocateStandalone(s.tables, s.tables.next, c.version, c.size).state, s.tables.next;
            && ReplaceChunkInFile(a, path, index, h).state ==
               a.(files := s.tables.files[path := s.tables.files[path].(chunks := s.tables.files[path].chunks[index := h])])
            && a.chunks == s.tables.chunks[h := c]
  {
    var h := s.tables.next;
    AllocatedIs(s.tables, h, c.version, c.size);
    FreshIsUnlisted(s, h);
    SlotFacts(s, path, index);
    hide Inv, AllocateStandalone, ReplaceChunkInFile, References;
    var a := AllocateStandalone(s.tables, h, c.version, c.size).state;
    ReplaceAndBack(a, path, index, h);
  }

  /** One reference moves from the shared chunk to the fresh one. */
  lemma ReferencesMoved(s: Durable, path: str, index: u64, h: Handle, c: ChunkMeta, u: Tables)
    requires Inv(s) && Shared(s, path, index) && h !in s.tables.chunks && h != 0
    requires u.files == s.tables.files[path := s.tables.files[path].(chunks := s.tables.files[path].chunks[index := h])]
    requires u.chunks == s.tables.chunks[h := c]
    ensures References(u, h) == 1
    ensures References(u, Slot(s, path, index)) == References(s.tables, Slot(s, path, index)) - 1
    ensures forall k :: k in s.tables.chunks && k != Slot(s, path, index) ==> References(u, k) == References(s.tables, k)
  {
    var t, from := s.tables, Slot(s, path, index);
    FreshIsUnlisted(s, h);
    SlotFacts(s, path, index);
    hide Inv, Holders;
    OnlyHolder(t.files, path, index, h);
    HolderLost(t.files, path, index, h);
    forall k | k in t.chunks && k != from
      ensures References(u, k) == References(t, k)
    {
      HoldersSame(t.files, path, index, h, k);
    }
  }

  lemma HolderLost(files: map<str, FileMeta>, path: str, index: u64, h: Handle)
    requires path in files && index < |files[path].chunks| && NoDuplicates(files[path].chunks)
    requires h !in files[path].chunks
    ensures var after := files[path := files[path].(chunks := files[path].chunks[index := h])];
            var from := files[path].chunks[index];
            |Holders(after, from)| == |Holders(files, from)| - 1
  {
    var from := files[path].chunks[index];
    var chunks := files[path].chunks[index := h];
    var after := files[path := files[path].(chunks := chunks)];
    assert from !in chunks;
    assert path in Holders(files, from);
    assert Holders(after, from) == Holders(files, from) - {path};
  }

  lemma HoldersSame(files: map<str, FileMeta>, path: str, index: u64, h: Handle, k: Handle)
    requires path in files && index < |files[path].chunks| && k != h && k != files[path].chunks[index]
    ensures Holders(files[path := files[path].(chunks := files[path].chunks[index := h])], k) == Holders(files, k)
  {
    SameElsewhere(files[path].chunks, index, h, k);
  }

  lemma SameElsewhere(chunks: seq<Handle>, index: nat, h: Handle, k: Handle)
    requires index < |chunks| && k != h && k != chunks[index]
    ensures k in chunks[index := h] <==> k in chunks
  {
    if k in chunks {
      var i :| 0 <= i < |chunks| && chunks[i] == k;
      assert chunks[index := h][i] == k;
    }
  }
}
