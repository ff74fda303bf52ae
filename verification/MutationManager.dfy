// The primary's side of mutation ordering, in place: counters per chunk, the chunk's bytes in the
// chunkserver's storage, and the mutation that still has to be passed on.

module MutationManager {
  import opened Bytes
  import opened ChunkTables
  import opened ChunkBytes
  import opened Checksums
  import opened Mutations
  import Server = Chunkserver

  class MutationManager {
    const server: Server.Chunkserver
    var nextIds: map<Handle, u64>
    var lastIds: map<Handle, u64>
    var pending: map<Handle, Mutation>
    /** Everything that has been applied, in order. */
    ghost var applied: map<Handle, seq<Mutation>>

    constructor (server: Server.Chunkserver)
      ensures this.server == server && nextIds == map[] && lastIds == map[] && pending == map[] && applied == map[]
    {
      this.server, nextIds, lastIds, pending := server, map[], map[], map[];
      applied := map[];
    }

    /** What this server knows of one chunk. */
    ghost function CopyAt(h: Handle): Copy
      reads this, server
    {
      Copy(if h in server.chunks then server.chunks[h] else [],
           if h in lastIds then lastIds[h] else 0,
           if h in nextIds then nextIds[h] else 0,
           if h in applied then applied[h] else [])
    }

    ghost function PendingAt(h: Handle): Option<Mutation>
      reads this
    {
      if h in pending then Some(pending[h]) else None
    }

    /** The checksums of the chunk, if it exists, are right. */
    ghost predicate Sound(h: Handle)
      reads server
    {
      h in server.chunks ==> server.Sound(h)
    }

    /** Uses up one number. */
    method AssignMutationId(h: Handle) returns (id: u64)
      modifies this`nextIds
      ensures id == AssignedId(old(CopyAt(h)))
      ensures CopyAt(h) == Assign(old(CopyAt(h)))
      ensures forall k :: k != h ==> CopyAt(k) == old(CopyAt(k))
    {
      var next: u64 := if h in nextIds then nextIds[h] else 0;
      if next == 0 {
        next := 1;
      }
      id := next;
      nextIds := nextIds[h := if next == U64 - 1 then 0 else next + 1];
    }

    /** Applies the next mutation in order, and no other; `works` says whether the storage does. */
    method ApplyMutation(h: Handle, m: Mutation, works: bool) returns (ok: bool)
      requires server.Valid() && h != 0
      modifies this`nextIds, this`lastIds, this`applied, server
      ensures server.Valid()
      ensures (CopyAt(h), ok) == Apply(old(CopyAt(h)), m, works)
      ensures forall k :: k != h ==> CopyAt(k) == old(CopyAt(k))
      ensures old(Sound(h)) && m.offset <= |old(CopyAt(h)).bytes| ==> Sound(h)
    {
      hide Overlay, Stored, Server.Chunkserver.Valid, Server.Chunkserver.Sound;
      if m.id == 0 || !FitsChunk(m) {
        return false;
      }
      var expected := if h in lastIds then Successor(lastIds[h]) else 1;
      if m.id != expected {
        return false;
      }
      ok := Store(h, m, works);
      if !ok {
        return;
      }
      lastIds := lastIds[h := m.id];
      var next: u64 := if h in nextIds then nextIds[h] else 0;
      if next <= m.id {
        next := Successor(m.id);
      }
      nextIds := nextIds[h := next];
      applied := applied[h := (if h in applied then applied[h] else []) + [m]];
    }

    /** Creates the chunk if it is missing, and writes to it. */
    method Store(h: Handle, m: Mutation, works: bool) returns (ok: bool)
      requires server.Valid() && h != 0 && FitsChunk(m)
      modifies server
      ensures server.Valid()
      ensures ok == works
      ensures CopyAt(h) == old(CopyAt(h)).(bytes := if works then Stored(old(CopyAt(h)).bytes, m) else old(CopyAt(h)).bytes)
      ensures forall k :: k != h ==> CopyAt(k) == old(CopyAt(k))
      ensures old(Sound(h)) && m.offset <= |old(CopyAt(h)).bytes| ==> Sound(h)
    {
      hide Overlay, Agrees, NoGap, EditedTable;
      ghost var before := CopyAt(h).bytes;
      if h !in server.chunks {
        var created := server.CreateChunk(h);
        if !created {
          return false;
        }
      }
      assert server.chunks[h] == before;
      if !works {
        return false;
      }
      if m.offset <= |before| {
        StartsInChunk(before, m.offset);
      }
      ok := server.WriteChunk(h, m.offset, m.data);
      assert server.chunks[h] == Stored(before, m);
    }

    /** Sends a mutation to every secondary. */
    method SendToAll(secondaries: seq<Copy>, m: Mutation, how: seq<Delivery>) returns (after: seq<Copy>, all: bool)
      ensures (after, all) == Propagate(secondaries, m, how)
    {
      hide Apply;
      after, all := [], true;
      assert secondaries[0..] == secondaries && HowFrom(how, 0) == how;
      assert [] + Propagate(secondaries, m, how).0 == Propagate(secondaries, m, how).0;
      for i := 0 to |secondaries|
        invariant var rest := Propagate(secondaries[i..], m, HowFrom(how, i));
                  Propagate(secondaries, m, how) == (after + rest.0, all && rest.1)
      {
        var d := if i < |how| then how[i] else Delivery(false, false, false);
        PropagateStep(secondaries, m, how, i);
        var (c, ok) := if d.arrives then Apply(secondaries[i], m, d.works) else (secondaries[i], false);
        ghost var rest := Propagate(secondaries[i + 1..], m, HowFrom(how, i + 1));
        assert after + ([c] + rest.0) == after + [c] + rest.0;
        after := after + [c];
        all := all && ok && d.answered;
      }
      assert secondaries[|secondaries|..] == [];
      assert after + [] == after;
    }

    /** A number, a local application. */
    method ApplyNextAt(h: Handle, offset: nat, data: str, works: bool) returns (ok: bool, m: Mutation)
      requires server.Valid() && h != 0
      modifies this`nextIds, this`lastIds, this`applied, server
      ensures server.Valid()
      ensures (CopyAt(h), m, ok) == ApplyNext(old(CopyAt(h)), offset, data, works)
      ensures forall k :: k != h ==> CopyAt(k) == old(CopyAt(k))
      ensures old(Sound(h)) && offset <= |old(CopyAt(h)).bytes| ==> Sound(h)
    {
      hide Apply, Assign;
      AssignKeepsBytes(CopyAt(h));
      var id := AssignMutationId(h);
      m := Mutation(id, offset, data);
      ok := ApplyMutation(h, m, works);
    }

    method ExecutePrimaryMutation(h: Handle, version: u64, offset: nat, data: str, works: bool, secondaries: seq<Copy>, how: seq<Delivery>)
      returns (ok: bool, after: seq<Copy>)
      requires server.Valid()
      modifies this`nextIds, this`lastIds, this`applied, server
      ensures server.Valid()
      ensures h == 0 || version == 0 ==> !ok && after == secondaries && forall k :: CopyAt(k) == old(CopyAt(k))
      ensures h != 0 && version != 0 ==>
                (Group(CopyAt(h), PendingAt(h), after), ok)
                == ExecuteMutation(Group(old(CopyAt(h)), old(PendingAt(h)), secondaries), offset, data, works, how)
      ensures forall k :: k != h ==> CopyAt(k) == old(CopyAt(k))
      ensures ok <==>
                && h != 0 && version != 0 && offset + |data| <= CHUNK_SIZE && works && InOrder(old(CopyAt(h)))
                && (forall i :: 0 <= i < |secondaries| ==> secondaries[i].last == old(CopyAt(h)).last)
                && AllDeliver(how, |secondaries|)
      ensures h != 0 && version != 0 ==>
                if offset + |data| <= CHUNK_SIZE && works && InOrder(old(CopyAt(h)))
                then WrittenAt(old(CopyAt(h)).bytes, CopyAt(h).bytes, offset, data)
                else CopyAt(h).bytes == old(CopyAt(h)).bytes
      ensures |after| == |secondaries|
      ensures ok ==> forall i :: 0 <= i < |secondaries| ==>
                && WrittenAt(secondaries[i].bytes, after[i].bytes, offset, data)
                && after[i].applied == secondaries[i].applied + [Mutation(old(CopyAt(h)).last + 1, offset, data)]      ensures old(Sound(h)) && offset <= |old(CopyAt(h)).bytes| ==> Sound(h)
    {
      hide ApplyNext, Propagate, Server.Chunkserver.Valid, Server.Chunkserver.Sound, WrittenAt, AllDeliver, InOrder;
      ghost var g := Group(CopyAt(h), PendingAt(h), secondaries);
      WriteSucceedsIff(g, offset, data, works, how);
      WriteIsStored(g, offset, data, works, how);
      forall i | 0 <= i < |secondaries| {
        WriteReaches(g, offset, data, works, how, i);
      }
      after := secondaries;
      if h == 0 || version == 0 || !FitsChunk(Mutation(0, offset, data)) {
        return false, after;
      }
      var m;
      ok, m := ApplyNextAt(h, offset, data, works);
      if ok {
        after, ok := SendToAll(secondaries, m, how);
      }
    }

    /** Passes on the pending mutation, if there is one; the append goes on only if that succeeds. */
    method RetryPending(h: Handle, secondaries: seq<Copy>, how: seq<Delivery>) returns (ready: bool, after: seq<Copy>)
      modifies this`pending
      ensures (Group(CopyAt(h), PendingAt(h), after), ready) == Retry(Group(CopyAt(h), old(PendingAt(h)), secondaries), how)
      ensures forall k :: k != h ==> PendingAt(k) == old(PendingAt(k))
    {
      hide Propagate;
      if h !in pending {
        return true, secondaries;
      }
      after, ready := SendToAll(secondaries, pending[h], how);
      if ready {
        pending := pending - {h};
      }
    }

    /** Appends a record: at least once, in the order of the numbers, never across the end of the chunk. */
    method ExecutePrimaryRecordAppend(h: Handle, version: u64, data: str, works: bool, secondaries: seq<Copy>,
                                      first: seq<Delivery>, then_: seq<Delivery>)
      returns (result: AppendResult, after: seq<Copy>)
      requires server.Valid()
      modifies this`nextIds, this`lastIds, this`applied, this`pending, server
      ensures server.Valid()
      ensures h == 0 || version == 0 ==> result == REFUSED && after == secondaries && forall k :: CopyAt(k) == old(CopyAt(k))
      ensures h != 0 && version != 0 ==>
                (Group(CopyAt(h), PendingAt(h), after), result)
                == RecordAppend(Group(old(CopyAt(h)), old(PendingAt(h)), secondaries), data, works, first, then_)
      ensures forall k :: k != h ==> CopyAt(k) == old(CopyAt(k)) && PendingAt(k) == old(PendingAt(k))
      ensures old(Sound(h)) ==> Sound(h)
    {
      hide ApplyNext, Propagate, Server.Chunkserver.Valid, Server.Chunkserver.Sound, Retry;
      after := secondaries;
      if h == 0 || version == 0 || data == [] || |data| > CHUNK_SIZE / 4 {
        return REFUSED, after;
      }
      Create(h);
      var ready;
      ready, after := RetryPending(h, secondaries, first);
      RetryKeepsPrimary(Group(old(CopyAt(h)), old(PendingAt(h)), secondaries), first);
      var size := if h in server.chunks then |server.chunks[h]| else 0;
      if !ready {
        return AppendResult(Failed, 0, size, 0), after;
      }
      result, after := AppendNow(h, data, works, after, then_, size);
    }

    method Create(h: Handle)
      requires server.Valid() && h != 0
      modifies server
      ensures server.Valid() && h in server.chunks
      ensures forall k :: CopyAt(k) == old(CopyAt(k))
      ensures old(Sound(h)) ==> Sound(h)
    {
      hide Agrees;
      if h !in server.chunks {
        var _ := server.CreateChunk(h);
      }
    }

    method AppendNow(h: Handle, data: str, works: bool, secondaries: seq<Copy>, how: seq<Delivery>, size: nat)
      returns (result: AppendResult, after: seq<Copy>)
      requires server.Valid() && h != 0 && size == |CopyAt(h).bytes|
      modifies this`nextIds, this`lastIds, this`applied, this`pending, server
      ensures server.Valid()
      ensures (Group(CopyAt(h), PendingAt(h), after), result)
           == AppendAtEnd(Group(old(CopyAt(h)), old(PendingAt(h)), secondaries), data, works, how)
      ensures forall k :: k != h ==> CopyAt(k) == old(CopyAt(k)) && PendingAt(k) == old(PendingAt(k))
      ensures old(Sound(h)) ==> Sound(h)
    {
      hide ApplyNext, Propagate, Server.Chunkserver.Valid, Server.Chunkserver.Sound, Padding;
      after := secondaries;
      if size > CHUNK_SIZE || |data| > CHUNK_SIZE - size {
        if size >= CHUNK_SIZE {
          return AppendResult(RetryNextChunk, 0, size, 0), after;
        }
        var padded, sent;
        padded, sent, after := ApplyAndSend(h, size, Padding(CHUNK_SIZE - size), works, secondaries, how);
        if !padded {
          return REFUSED, after;
        }
        return AppendResult(if sent then RetryNextChunk else Failed, 0, SizeOf(h), 0), after;
      }
      var appended, sent;
      appended, sent, after := ApplyAndSend(h, size, data, works, secondaries, how);
      if !appended {
        return REFUSED, after;
      }
      return AppendResult(if sent then Success else Failed, size, SizeOf(h), |data|), after;
    }

    /** Applies bytes under the next number and passes them on; a mutation that does not reach every
        secondary is pending from then on. */
    method ApplyAndSend(h: Handle, offset: nat, data: str, works: bool, secondaries: seq<Copy>, how: seq<Delivery>)
      returns (ok: bool, all: bool, after: seq<Copy>)
      requires server.Valid() && h != 0
      modifies this`nextIds, this`lastIds, this`applied, this`pending, server
      ensures server.Valid()
      ensures var (c, m, applied) := ApplyNext(old(CopyAt(h)), offset, data, works);
              && ok == applied && CopyAt(h) == c
              && (if ok then (after, all) == Propagate(secondaries, m, how) && PendingAt(h) == (if all then old(PendingAt(h)) else Some(m))
                  else after == secondaries && PendingAt(h) == old(PendingAt(h)))
      ensures forall k :: k != h ==> CopyAt(k) == old(CopyAt(k)) && PendingAt(k) == old(PendingAt(k))
      ensures old(Sound(h)) && offset <= |old(CopyAt(h)).bytes| ==> Sound(h)
    {
      hide ApplyNext, Propagate, Server.Chunkserver.Valid, Server.Chunkserver.Sound;
      after, all := secondaries, false;
      var m;
      ok, m := ApplyNextAt(h, offset, data, works);
      if !ok {
        return;
      }
      after, all := SendToAll(secondaries, m, how);
      if !all {
        pending := pending[h := m];
      }
    }

    function SizeOf(h: Handle): nat
      reads server
    {
      if h in server.chunks then |server.chunks[h]| else 0
    }
  }

  function HowFrom(how: seq<Delivery>, i: nat): seq<Delivery> {
    if i < |how| then how[i..] else []
  }

  lemma PropagateStep(secondaries: seq<Copy>, m: Mutation, how: seq<Delivery>, i: nat)
    requires i < |secondaries|
    ensures var d := if i < |how| then how[i] else Delivery(false, false, false);
            var (c, ok) := if d.arrives then Apply(secondaries[i], m, d.works) else (secondaries[i], false);
            var rest := Propagate(secondaries[i + 1..], m, HowFrom(how, i + 1));
            Propagate(secondaries[i..], m, HowFrom(how, i)) == ([c] + rest.0, ok && d.answered && rest.1)
  {
    hide Apply;
    assert secondaries[i..][1..] == secondaries[i + 1..];
    if i < |how| {
      assert how[i..][1..] == how[i + 1..];
    }
  }

  lemma AssignKeepsBytes(c: Copy)
    ensures Assign(c).bytes == c.bytes
  {}

  lemma RetryKeepsPrimary(g: Group, how: seq<Delivery>)
    ensures Retry(g, how).0.primary == g.primary
  {
    hide Propagate;
  }
}
