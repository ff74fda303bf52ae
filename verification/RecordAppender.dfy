// The client's record append.

module RecordAppender {
  // Try the last chunk of the file, move on to the next when it is full, give up after a number of
  // attempts.

  import opened Bytes
  import opened ChunkBytes
  import opened Mutations

  /** How one attempt goes: whether a current primary with a lease is found, what happens to the
      mutation, and whether the sizes can be recorded afterwards. */
  datatype Attempt = Attempt(reached: bool, works: bool, first: seq<Delivery>, then_: seq<Delivery>, recorded: bool)

  function GroupAt(groups: map<u64, Group>, index: u64): Group {
    if index in groups then groups[index] else Group(NEW_COPY, None, [])
  }

  function BytesAt(groups: map<u64, Group>, index: u64): str {
    GroupAt(groups, index).primary.bytes
  }

  /** Every chunk is in step with its secondaries and fits. */
  ghost predicate FileInv(groups: map<u64, Group>) {
    forall index :: index in groups ==> InStep(groups[index]) && |groups[index].primary.bytes| <= CHUNK_SIZE
  }

  /** No chunk loses bytes. */
  ghost predicate Grown(before: map<u64, Group>, after: map<u64, Group>) {
    forall index: u64 :: BytesAt(before, index) <= BytesAt(after, index)
  }

  /** A record stands at a global offset: inside one chunk, behind what was there before. */
  ghost predicate StandsAt(before: map<u64, Group>, after: map<u64, Group>, index: u64, offset: nat, data: str) {
    var at := offset - index * CHUNK_SIZE;
    && 0 <= at && |BytesAt(before, index)| <= at
    && at + |data| <= |BytesAt(after, index)| <= CHUNK_SIZE
    && BytesAt(after, index)[at..at + |data|] == data
  }

  /** A record does not straddle a chunk boundary. */
  lemma WithinOneChunk(before: map<u64, Group>, after: map<u64, Group>, index: u64, offset: nat, data: str)
    requires StandsAt(before, after, index, offset, data) && data != []
    ensures offset / CHUNK_SIZE == index == (offset + |data| - 1) / CHUNK_SIZE
  {}

  lemma AbsentInStep()
    ensures InStep(Group(NEW_COPY, None, []))
  {}

  /** One append to one chunk of the file. */
  lemma AppendToFile(groups: map<u64, Group>, index: u64, data: str, a: Attempt)
    requires FileInv(groups)
    ensures var (g, r) := RecordAppend(GroupAt(groups, index), data, a.works, a.first, a.then_);
            var after := groups[index := g];
            && FileInv(after) && Grown(groups, after)
            && (r.status == Success ==> StandsAt(groups, after, index, index * CHUNK_SIZE + r.offset, data) && r.appended == |data|)
            && (r.status == RetryNextChunk ==> |BytesAt(after, index)| == CHUNK_SIZE)
  {
    AbsentInStep();
    hide RecordAppend, InStep;
    var g := GroupAt(groups, index);
    AppendGeometry(g, data, a.works, a.first, a.then_);
    AppendKeepsInStep(g, data, a.works, a.first, a.then_);
  }

  lemma GrownTwice(a: map<u64, Group>, b: map<u64, Group>, c: map<u64, Group>)
    requires Grown(a, b) && Grown(b, c)
    ensures Grown(a, c)
  {
    forall index: u64
      ensures BytesAt(a, index) <= BytesAt(c, index)
    {
      assert BytesAt(a, index) <= BytesAt(b, index) && BytesAt(b, index) <= BytesAt(c, index);
      var x, y, z := BytesAt(a, index), BytesAt(b, index), BytesAt(c, index);
      assert z[..|y|] == y && y[..|x|] == x;
    }
  }

  lemma StandsSince(a: map<u64, Group>, b: map<u64, Group>, c: map<u64, Group>, index: u64, offset: nat, data: str)
    requires Grown(a, b) && StandsAt(b, c, index, offset, data)
    ensures StandsAt(a, c, index, offset, data)
  {
    assert BytesAt(a, index) <= BytesAt(b, index);
  }

  // ----- the loop as a function -----

  datatype Outcome = Outcome(groups: map<u64, Group>, ok: bool, offset: nat, index: u64)

  function LastChunk(chunkCount: u64): u64 {
    if chunkCount == 0 then 0 else chunkCount - 1
  }

  /** The attempts from the k-th on, the next of them at chunk `current`. */
  function Attempts(groups: map<u64, Group>, current: u64, k: nat, max: nat, data: str, world: nat -> Attempt): Outcome
    decreases max - k
  {
    if k >= max then Outcome(groups, false, 0, 0)
    else if !world(k).reached then Attempts(groups, current, k + 1, max, data, world)
    else
      var a := world(k);
      var (g, r) := RecordAppend(GroupAt(groups, current), data, a.works, a.first, a.then_);
      var after := groups[current := g];
      match r.status
      case Success =>
        var global := (current * CHUNK_SIZE) % U64 + r.offset;
        if global + |data| >= U64 || !a.recorded then Outcome(after, false, 0, 0)
        else Outcome(after, r.appended == |data|, global, current)
      case RetryNextChunk =>
        if !a.recorded || current == U64 - 1 then Outcome(after, false, 0, 0)
        else Attempts(after, current + 1, k + 1, max, data, world)
      case Failed => Attempts(after, current, k + 1, max, data, world)
  }

  /** Attempts that reach nobody are free. */
  lemma {:induction false} UnreachedAttempts(groups: map<u64, Group>, current: u64, k: nat, j: nat, max: nat, data: str, world: nat -> Attempt)
    requires k <= j <= max && forall i :: k <= i < j ==> !world(i).reached
    ensures Attempts(groups, current, k, max, data, world) == Attempts(groups, current, j, max, data, world)
    decreases j - k
  {
    hide RecordAppend;
    if k < j {
      UnreachedAttempts(groups, current, k + 1, j, max, data, world);
    }
  }

  /** If the copies of the current chunk are in step with nothing pending and the record fits, the
      first attempt that reaches the primary decides: the append succeeds if the primary writes the
      record under its next number, every secondary gets it and answers, and the size is recorded. */
  lemma FirstReachedDecides(groups: map<u64, Group>, current: u64, j: nat, max: nat, data: str, world: nat -> Attempt)
    requires FileInv(groups) && ValidRecord(data) && j < max
    requires forall i :: 0 <= i < j ==> !world(i).reached
    requires var g, a := GroupAt(groups, current), world(j);
             && g.pending == None && |g.primary.bytes| + |data| <= CHUNK_SIZE && (current + 1) * CHUNK_SIZE < U64
             && a.reached && a.works && a.recorded
             && AssignedId(g.primary) == Successor(g.primary.last) && AllDeliver(a.then_, |g.secondaries|)
    ensures var o := Attempts(groups, current, 0, max, data, world);
            && o.ok && o.index == current && o.offset == current * CHUNK_SIZE + |BytesAt(groups, current)|
            && BytesAt(o.groups, current) == BytesAt(groups, current) + data
            && forall k: u64 :: k != current ==> BytesAt(o.groups, k) == BytesAt(groups, k)
  {
    var g, a := GroupAt(groups, current), world(j);
    AbsentInStep();
    UnreachedAttempts(groups, current, 0, j, max, data, world);
    hide RecordAppend, InStep, AllDeliver;
    AppendSucceedsIff(g, data, a.works, a.first, a.then_);
    AppendGeometry(g, data, a.works, a.first, a.then_);
  }

  class RecordAppender {
    const maxAttempts: nat
    /** The chunks of the file, each with its primary and secondaries. */
    var groups: map<u64, Group>

    constructor (maxAttempts: nat, groups: map<u64, Group>)
      ensures this.maxAttempts == (if maxAttempts == 0 then 1 else maxAttempts) && this.groups == groups
    {
      this.maxAttempts, this.groups := if maxAttempts == 0 then 1 else maxAttempts, groups;
    }

    /** The retry loop.  It does what the recursive form does.  When it reports success the record
        stands at the reported offset (as long as the start of the chunk does not exceed 64 bits),
        every chunk it passed over is full, and whatever happened no chunk lost a byte. */
    method Append(data: str, chunkCount: u64, world: nat -> Attempt) returns (ok: bool, offset: nat, ghost index: u64)
      requires FileInv(groups)
      modifies this`groups
      ensures FileInv(groups) && Grown(old(groups), groups)
      ensures !ValidRecord(data) ==> !ok && groups == old(groups)
      ensures ValidRecord(data) ==>
                Outcome(groups, ok, offset, index) == Attempts(old(groups), LastChunk(chunkCount), 0, maxAttempts, data, world)
      ensures ok ==>
                && (index * CHUNK_SIZE < U64 ==> StandsAt(old(groups), groups, index, offset, data))
                && offset + |data| < U64
                && LastChunk(chunkCount) <= index
                && (forall k: u64 :: LastChunk(chunkCount) <= k < index ==> |BytesAt(groups, k)| == CHUNK_SIZE)
    {
      hide RecordAppend, InStep, StandsAt, FileInv, Grown, BytesAt, GroupAt;
      ok, offset, index := false, 0, 0;
      NothingLost(groups);
      if data == [] || |data| > CHUNK_SIZE / 4 {
        return;
      }
      ghost var before := groups;
      var start := LastChunk(chunkCount);
      var current: u64 := start;
      var attempts := 0;
      while attempts < maxAttempts
        invariant FileInv(groups) && Grown(before, groups) && start <= current && attempts <= maxAttempts
        invariant forall k: u64 :: start <= k < current ==> |BytesAt(groups, k)| == CHUNK_SIZE
        invariant Attempts(before, start, 0, maxAttempts, data, world) == Attempts(groups, current, attempts, maxAttempts, data, world)
        decreases maxAttempts - attempts
      {
        var a := world(attempts);
        attempts := attempts + 1;
        if a.reached {
          ghost var previous := groups;
          AppendToFile(groups, current, data, a);
          var (g, r) := RecordAppend(GroupAt(groups, current), data, a.works, a.first, a.then_);
          groups := groups[current := g];
          OtherChunks(previous, current, groups);
          GrownTwice(before, previous, groups);
          if r.status == Success {
            var base := (current * CHUNK_SIZE) % U64;
            var global := base + r.offset;
            if global + |data| >= U64 || !a.recorded {
              return;
            }
            if current * CHUNK_SIZE < U64 {
              StandsSince(before, previous, groups, current, global, data);
            }
            index := current;
            return r.appended == |data|, global, index;
          }
          if r.status == RetryNextChunk {
            if !a.recorded || current == U64 - 1 {
              return;
            }
            current := current + 1;
          }
        }
      }
    }
  }

  lemma NothingLost(groups: map<u64, Group>)
    ensures Grown(groups, groups)
  {}

  lemma OtherChunks(before: map<u64, Group>, index: u64, after: map<u64, Group>)
    requires index in after && after == before[index := after[index]]
    ensures forall k: u64 :: k != index ==> BytesAt(after, k) == BytesAt(before, k)
  {}
}
