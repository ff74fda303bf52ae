// The mutations of one chunk and its copies.

module Mutations {
  // The primary numbers them, applies them and passes them on; every copy applies them in the order
  // of their numbers.  Deliveries may fail in any way.

  import opened Bytes
  import opened ChunkBytes

  datatype Mutation = Mutation(id: u64, offset: nat, data: str)

  /** One copy of the chunk.  Its counters, its bytes, and all it has applied, in order. */
  datatype Copy = Copy(bytes: str, last: u64, next: u64, applied: seq<Mutation>)

  const NEW_COPY := Copy([], 0, 0, [])

  predicate FitsChunk(m: Mutation) {
    m.offset <= CHUNK_SIZE && |m.data| <= CHUNK_SIZE - m.offset
  }

  function Successor(n: u64): u64 {
    if n == U64 - 1 then 0 else n + 1
  }

  function Stored(bytes: str, m: Mutation): str {
    if m.data == [] then bytes else Overlay(bytes, m.offset, m.data)
  }

  /** A copy applies a mutation only if it is the next one and the write to the chunk works. */
  predicate Accepts(c: Copy, m: Mutation, works: bool) {
    m.id != 0 && FitsChunk(m) && m.id == Successor(c.last) && works
  }

  function Apply(c: Copy, m: Mutation, works: bool): (r: (Copy, bool))
    ensures r.1 <==> Accepts(c, m, works)
  {
    if Accepts(c, m, works) then
      (Copy(Stored(c.bytes, m), m.id, if c.next <= m.id then Successor(m.id) else c.next, c.applied + [m]), true)
    else (c, false)
  }

  /** The number the primary gives next; 0 stands for "none given yet" and for a counter that has
      wrapped around. */
  function AssignedId(c: Copy): u64 {
    if c.next == 0 then 1 else c.next
  }

  function Assign(c: Copy): Copy {
    c.(next := Successor(AssignedId(c)))
  }

  // ----- what one copy keeps -----

  function BytesAfter(applied: seq<Mutation>): str {
    if applied == [] then [] else Stored(BytesAfter(applied[..|applied| - 1]), applied[|applied| - 1])
  }

  /** The i-th mutation applied has number i + 1, and the bytes are what the mutations wrote. */
  ghost predicate ValidCopy(c: Copy) {
    && |c.applied| == c.last
    && (forall i :: 0 <= i < |c.applied| ==> c.applied[i].id == i + 1 && FitsChunk(c.applied[i]))
    && c.bytes == BytesAfter(c.applied)
  }

  lemma ApplyKeepsValid(c: Copy, m: Mutation, works: bool)
    requires ValidCopy(c)
    ensures ValidCopy(Apply(c, m, works).0)
    ensures Apply(c, m, works).1 ==> |c.applied| == m.id - 1 && Apply(c, m, works).0.applied == c.applied + [m]
  {
    var c' := Apply(c, m, works).0;
    if Apply(c, m, works).1 {
      assert c'.applied[..|c'.applied| - 1] == c.applied;
    }
  }

  // ----- passing a mutation on -----

  /** What happens to a mutation on its way to one secondary: whether it arrives, whether the write
      there works, and whether the answer gets back. */
  datatype Delivery = Delivery(arrives: bool, works: bool, answered: bool)

  /** Every secondary is sent the mutation; the result says whether all reported success.  Deliveries
      that are missing from the list do not take place. */
  function Propagate(secondaries: seq<Copy>, m: Mutation, how: seq<Delivery>): (r: (seq<Copy>, bool))
    ensures |r.0| == |secondaries|
    decreases |secondaries|
  {
    if secondaries == [] then ([], true)
    else
      var d := if how == [] then Delivery(false, false, false) else how[0];
      var (c, ok) := if d.arrives then Apply(secondaries[0], m, d.works) else (secondaries[0], false);
      var (rest, all) := Propagate(secondaries[1..], m, if how == [] then [] else how[1..]);
      ([c] + rest, ok && d.answered && all)
  }

  /** After propagation each secondary is as it was or has applied the mutation; if propagation
      succeeded, all have, and none had before. */
  lemma {:induction false} PropagateMeans(secondaries: seq<Copy>, m: Mutation, how: seq<Delivery>)
    ensures var r := Propagate(secondaries, m, how);
            && (forall i :: 0 <= i < |secondaries| ==> r.0[i] == secondaries[i] || (Accepts(secondaries[i], m, true) && r.0[i] == Apply(secondaries[i], m, true).0))
            && (r.1 ==> forall i :: 0 <= i < |secondaries| ==> Accepts(secondaries[i], m, true) && r.0[i] == Apply(secondaries[i], m, true).0)
    decreases |secondaries|
  {
    if secondaries != [] {
      PropagateMeans(secondaries[1..], m, if how == [] then [] else how[1..]);
    }
  }

  /** Whatever subset of the secondaries a mutation reaches, some delivery does just that. */
  lemma {:induction false} AllDelivered(secondaries: seq<Copy>, m: Mutation) returns (how: seq<Delivery>)
    ensures Propagate(secondaries, m, how).1 <==> forall i :: 0 <= i < |secondaries| ==> Accepts(secondaries[i], m, true)
    decreases |secondaries|
  {
    if secondaries == [] {
      how := [];
    } else {
      var rest := AllDelivered(secondaries[1..], m);
      how := [Delivery(true, true, true)] + rest;
      assert how[1..] == rest;
      if Propagate(secondaries, m, how).1 {
        forall i | 0 <= i < |secondaries|
          ensures Accepts(secondaries[i], m, true)
        {
          if i > 0 {
            assert secondaries[1..][i - 1] == secondaries[i];
          }
        }
      } else if Accepts(secondaries[0], m, true) {
        var i :| 0 <= i < |secondaries[1..]| && !Accepts(secondaries[1..][i], m, true);
        assert !Accepts(secondaries[i + 1], m, true);
      }
    }
  }

  // ----- the group: a primary and its secondaries -----

  /** `pending` is the mutation that the primary has applied but could not pass on to everybody. */
  datatype Group = Group(primary: Copy, pending: Option<Mutation>, secondaries: seq<Copy>)

  datatype Status = Success | RetryNextChunk | Failed

  datatype AppendResult = AppendResult(status: Status, offset: nat, size: nat, appended: nat)

  const REFUSED := AppendResult(Failed, 0, 0, 0)

  /** Assigns the next number and applies locally.  A number is used up even if applying fails. */
  function ApplyNext(c: Copy, offset: nat, data: str, works: bool): (Copy, Mutation, bool) {
    var m := Mutation(AssignedId(c), offset, data);
    var r := Apply(Assign(c), m, works);
    (r.0, m, r.1)
  }

  /** A write at a given offset.  A failed propagation is reported and forgotten. */
  function ExecuteMutation(g: Group, offset: nat, data: str, works: bool, how: seq<Delivery>): (Group, bool) {
    if !FitsChunk(Mutation(0, offset, data)) then (g, false)
    else
      var (c, m, ok) := ApplyNext(g.primary, offset, data, works);
      if !ok then (g.(primary := c), false)
      else
        var (secondaries, all) := Propagate(g.secondaries, m, how);
        (Group(c, g.pending, secondaries), all)
  }

  /** First the pending mutation, if there is one, is passed on again. */
  function Retry(g: Group, how: seq<Delivery>): (Group, bool) {
    match g.pending
    case None => (g, true)
    case Some(m) =>
      var (secondaries, all) := Propagate(g.secondaries, m, how);
      (Group(g.primary, if all then None else g.pending, secondaries), all)
  }

  /** Then the record is appended at the end, or, if it does not fit, the chunk is filled up. */
  function AppendAtEnd(g: Group, data: str, works: bool, how: seq<Delivery>): (Group, AppendResult) {
    var size := |g.primary.bytes|;
    if size > CHUNK_SIZE || |data| > CHUNK_SIZE - size then
      if size >= CHUNK_SIZE then (g, AppendResult(RetryNextChunk, 0, size, 0))
      else
        var (c, m, ok) := ApplyNext(g.primary, size, Padding(CHUNK_SIZE - size), works);
        if !ok then (g.(primary := c), REFUSED)
        else
          var (secondaries, all) := Propagate(g.secondaries, m, how);
          if all then (Group(c, g.pending, secondaries), AppendResult(RetryNextChunk, 0, |c.bytes|, 0))
          else (Group(c, Some(m), secondaries), AppendResult(Failed, 0, |c.bytes|, 0))
    else
      var (c, m, ok) := ApplyNext(g.primary, size, data, works);
      if !ok then (g.(primary := c), REFUSED)
      else
        var (secondaries, all) := Propagate(g.secondaries, m, how);
        if all then (Group(c, g.pending, secondaries), AppendResult(Success, size, |c.bytes|, |data|))
        else (Group(c, Some(m), secondaries), AppendResult(Failed, size, |c.bytes|, |data|))
  }

  function Padding(n: nat): (s: str)
    ensures |s| == n
  {
    seq(n, _ => 0)
  }

  /** A record is at most a quarter of a chunk. */
  predicate ValidRecord(data: str) {
    data != [] && |data| <= CHUNK_SIZE / 4
  }

  function RecordAppend(g: Group, data: str, works: bool, first: seq<Delivery>, then_: seq<Delivery>): (Group, AppendResult) {
    if !ValidRecord(data) then (g, REFUSED)
    else
      var (h, ready) := Retry(g, first);
      if !ready then (h, AppendResult(Failed, 0, |g.primary.bytes|, 0))
      else AppendAtEnd(h, data, works, then_)
  }

  // ----- what holds in every run -----

  ghost predicate Prefix(a: seq<Mutation>, b: seq<Mutation>) {
    |a| <= |b| && a == b[..|a|]
  }

  /** Every secondary has applied a front part of what the primary has applied. */
  ghost predicate GroupInv(g: Group) {
    && ValidCopy(g.primary)
    && (forall i :: 0 <= i < |g.secondaries| ==> ValidCopy(g.secondaries[i]) && Prefix(g.secondaries[i].applied, g.primary.applied))
    && (g.pending != None ==> AppliedBy(g.primary, g.pending.value))
  }

  ghost predicate AppliedBy(c: Copy, m: Mutation) {
    0 < m.id <= |c.applied| && c.applied[m.id - 1] == m
  }

  lemma ApplyNextMeans(c: Copy, offset: nat, data: str, works: bool)
    requires ValidCopy(c)
    ensures var r := ApplyNext(c, offset, data, works);
            && ValidCopy(r.0)
            && (r.2 ==> r.0.applied == c.applied + [r.1] && AppliedBy(r.0, r.1) && r.0.bytes == Stored(c.bytes, r.1))
            && (!r.2 ==> r.0.applied == c.applied && r.0.bytes == c.bytes)
            && r.1 == Mutation(AssignedId(c), offset, data)
  {
    ApplyKeepsValid(Assign(c), Mutation(AssignedId(c), offset, data), works);
  }

  /** Passing on a mutation that the primary has applied keeps the secondaries behind it. */
  lemma PropagateKeepsInv(g: Group, m: Mutation, how: seq<Delivery>)
    requires GroupInv(g) && AppliedBy(g.primary, m)
    ensures var r := Propagate(g.secondaries, m, how);
            && GroupInv(g.(secondaries := r.0))
            && (r.1 ==> forall i :: 0 <= i < |g.secondaries| ==> |r.0[i].applied| == m.id)
            && (forall i :: 0 <= i < |g.secondaries| ==> |g.secondaries[i].applied| <= |r.0[i].applied|)
  {
    var r := Propagate(g.secondaries, m, how);
    PropagateMeans(g.secondaries, m, how);
    hide BytesAfter, Overlay;
    forall i | 0 <= i < |g.secondaries|
      ensures ValidCopy(r.0[i]) && Prefix(r.0[i].applied, g.primary.applied) && |g.secondaries[i].applied| <= |r.0[i].applied|
      ensures r.1 ==> |r.0[i].applied| == m.id
    {
      ApplyKeepsValid(g.secondaries[i], m, true);
      assert Prefix(g.secondaries[i].applied, g.primary.applied);
      if r.0[i] != g.secondaries[i] {
        assert g.primary.applied[..m.id] == g.primary.applied[..m.id - 1] + [m];
      }
    }
  }

  /** What the primary applies comes after everything the secondaries have. */
  lemma PrimaryAhead(g: Group, c: Copy)
    requires GroupInv(g) && ValidCopy(c) && Prefix(g.primary.applied, c.applied)
    ensures GroupInv(g.(primary := c))
  {
    hide BytesAfter;
    forall i | 0 <= i < |g.secondaries|
      ensures Prefix(g.secondaries[i].applied, c.applied)
    {
      assert Prefix(g.secondaries[i].applied, g.primary.applied);
    }
  }

  lemma ExecuteKeepsInv(g: Group, offset: nat, data: str, works: bool, how: seq<Delivery>)
    requires GroupInv(g)
    ensures GroupInv(ExecuteMutation(g, offset, data, works, how).0)
  {
    var (c, m, ok) := ApplyNext(g.primary, offset, data, works);
    ApplyNextMeans(g.primary, offset, data, works);
    hide GroupInv, ValidCopy, ApplyNext, Propagate;
    OneAhead(g, c);
    if ok {
      PropagateKeepsInv(g.(primary := c), m, how);
    }
  }

  lemma OneAhead(g: Group, c: Copy)
    requires GroupInv(g) && ValidCopy(c)
    requires c.applied == g.primary.applied || (exists m :: c.applied == g.primary.applied + [m])
    ensures GroupInv(g.(primary := c))
  {
    hide BytesAfter;
    PrimaryAhead(g, c);
  }

  /** A copy lags by at most the last mutation, and then that mutation is the pending one. */
  ghost predicate InStep(g: Group) {
    GroupInv(g)
    && forall i :: 0 <= i < |g.secondaries| ==>
         || |g.secondaries[i].applied| == |g.primary.applied|
         || (|g.secondaries[i].applied| == |g.primary.applied| - 1 && g.pending != None && g.pending.value.id == |g.primary.applied|)
  }

  ghost predicate AllCaughtUp(g: Group) {
    forall i :: 0 <= i < |g.secondaries| ==> |g.secondaries[i].applied| == |g.primary.applied|
  }

  lemma RetryKeepsInStep(g: Group, how: seq<Delivery>)
    requires InStep(g)
    ensures var r := Retry(g, how);
            && InStep(r.0) && r.0.primary == g.primary
            && (r.1 ==> r.0.pending == None && AllCaughtUp(r.0))
            && (!r.1 ==> r.0.pending == g.pending)
  {
    hide ValidCopy, Propagate, Prefix;
    if g.pending != None {
      var m := g.pending.value;
      PropagateKeepsInv(g, m, how);
      PropagatePendingInStep(g, m, how);
    }
  }

  lemma PropagatePendingInStep(g: Group, m: Mutation, how: seq<Delivery>)
    requires InStep(g) && g.pending == Some(m)
    ensures var r := Propagate(g.secondaries, m, how);
            && (forall i :: 0 <= i < |g.secondaries| ==>
                  |g.secondaries[i].applied| <= |r.0[i].applied| <= |g.primary.applied|)
            && (r.1 ==> (g.secondaries == [] || m.id == |g.primary.applied|)
                        && forall i :: 0 <= i < |g.secondaries| ==> |r.0[i].applied| == |g.primary.applied|)
  {
    PropagateKeepsInv(g, m, how);
    PropagateMeans(g.secondaries, m, how);
    var r := Propagate(g.secondaries, m, how);
    hide BytesAfter, Overlay, Propagate;
    forall i | 0 <= i < |g.secondaries|
      ensures |r.0[i].applied| <= |g.primary.applied|
    {
      assert Prefix(r.0[i].applied, g.primary.applied);
    }
    if r.1 {
      forall i | 0 <= i < |g.secondaries|
        ensures |r.0[i].applied| == |g.primary.applied|
      {
        ApplyKeepsValid(g.secondaries[i], m, true);
      }
    }
  }

  /** What AppendAtEnd appends: the record, the padding, or nothing. */
  function ToAppend(g: Group, data: str): str {
    var size := |g.primary.bytes|;
    if size <= CHUNK_SIZE && |data| <= CHUNK_SIZE - size then data
    else if size >= CHUNK_SIZE then [] else Padding(CHUNK_SIZE - size)
  }

  /** AppendAtEnd without its results. */
  function Appended(g: Group, data: str, works: bool, how: seq<Delivery>): Group {
    if data == [] then g
    else
      var (c, m, ok) := ApplyNext(g.primary, |g.primary.bytes|, data, works);
      if !ok then g.(primary := c)
      else
        var (secondaries, all) := Propagate(g.secondaries, m, how);
        Group(c, if all then g.pending else Some(m), secondaries)
  }

  lemma AppendAtEndIs(g: Group, data: str, works: bool, how: seq<Delivery>)
    requires data != []
    ensures AppendAtEnd(g, data, works, how).0 == Appended(g, ToAppend(g, data), works, how)
  {
    hide ApplyNext, Propagate;
  }

  lemma AppendedKeepsInStep(g: Group, data: str, works: bool, how: seq<Delivery>)
    requires InStep(g) && AllCaughtUp(g) && g.pending == None
    ensures InStep(Appended(g, data, works, how))
  {
    hide ValidCopy, Propagate, ApplyNext, Prefix;
    if data != [] {
      var (c, m, ok) := ApplyNext(g.primary, |g.primary.bytes|, data, works);
      ApplyNextMeans(g.primary, |g.primary.bytes|, data, works);
      OneAhead(g, c);
      if ok {
        PropagateKeepsInv(g.(primary := c), m, how);
        var r := Propagate(g.secondaries, m, how);
        NotFurther(Group(c, g.pending, r.0));
        assert m.id <= |c.applied|;
        LastId(c, m);
      }
    }
  }

  lemma NotFurther(g: Group)
    requires GroupInv(g)
    ensures forall i :: 0 <= i < |g.secondaries| ==> |g.secondaries[i].applied| <= |g.primary.applied|
  {
    forall i | 0 <= i < |g.secondaries|
      ensures |g.secondaries[i].applied| <= |g.primary.applied|
    {
      assert Prefix(g.secondaries[i].applied, g.primary.applied);
    }
  }

  lemma LastId(c: Copy, m: Mutation)
    requires ValidCopy(c) && c.applied != [] && c.applied[|c.applied| - 1] == m
    ensures m.id == |c.applied|
  {
    hide BytesAfter;
  }

  // ----- runs of record appends -----

  datatype Event = Append(data: str, works: bool, first: seq<Delivery>, then_: seq<Delivery>)
                 | Plain(offset: nat, data: str, works: bool, how: seq<Delivery>)

  function Step(g: Group, e: Event): Group {
    match e
    case Append(data, works, first, then_) => RecordAppend(g, data, works, first, then_).0
    case Plain(offset, data, works, how) => ExecuteMutation(g, offset, data, works, how).0
  }

  function Run(g: Group, events: seq<Event>): Group
    decreases |events|
  {
    if events == [] then g else Run(Step(g, events[0]), events[1..])
  }

  lemma AppendKeepsInv(g: Group, data: str, works: bool, first: seq<Delivery>, then_: seq<Delivery>)
    requires GroupInv(g)
    ensures GroupInv(RecordAppend(g, data, works, first, then_).0)
  {
    hide ValidCopy, Prefix, Propagate, ApplyNext;
    if ValidRecord(data) {
      if g.pending != None {
        PropagateKeepsInv(g, g.pending.value, first);
      }
      var (h, ready) := Retry(g, first);
      if ready {
        AppendAtEndIs(h, data, works, then_);
        AppendedKeepsInv(h, ToAppend(h, data), works, then_);
      }
    }
  }

  lemma AppendedKeepsInv(g: Group, data: str, works: bool, how: seq<Delivery>)
    requires GroupInv(g)
    ensures GroupInv(Appended(g, data, works, how))
  {
    hide ValidCopy, Propagate, ApplyNext, Prefix;
    if data != [] {
      var (c, m, ok) := ApplyNext(g.primary, |g.primary.bytes|, data, works);
      ApplyNextMeans(g.primary, |g.primary.bytes|, data, works);
      OneAhead(g, c);
      if ok {
        PropagateKeepsInv(g.(primary := c), m, how);
      }
    }
  }

  /** In every run of mutations of both kinds, with any number of secondaries and any failures, each
      secondary has applied a front part of what the primary has applied. */
  lemma {:induction false} SecondariesArePrefixes(g: Group, events: seq<Event>)
    requires GroupInv(g)
    ensures GroupInv(Run(g, events))
    decreases |events|
  {
    hide GroupInv, RecordAppend, ExecuteMutation;
    if events != [] {
      match events[0] {
        case Append(data, works, first, then_) => AppendKeepsInv(g, data, works, first, then_);
        case Plain(offset, data, works, how) => ExecuteKeepsInv(g, offset, data, works, how);
      }
      SecondariesArePrefixes(Step(g, events[0]), events[1..]);
    }
  }

  lemma AppendKeepsInStep(g: Group, data: str, works: bool, first: seq<Delivery>, then_: seq<Delivery>)
    requires InStep(g)
    ensures InStep(RecordAppend(g, data, works, first, then_).0)
  {
    RetryKeepsInStep(g, first);
    hide InStep, Retry, AppendAtEnd;
    if ValidRecord(data) && Retry(g, first).1 {
      var h := Retry(g, first).0;
      AppendAtEndIs(h, data, works, then_);
      AppendedKeepsInStep(h, ToAppend(h, data), works, then_);
    }
  }

  predicate AppendsOnly(events: seq<Event>) {
    forall i :: 0 <= i < |events| ==> events[i].Append?
  }

  /** In every run of record appends alone, a secondary lags by at most the last mutation, and then
      that mutation is pending. */
  lemma {:induction false} AppendsStayInStep(g: Group, events: seq<Event>)
    requires InStep(g) && AppendsOnly(events)
    ensures InStep(Run(g, events))
    decreases |events|
  {
    hide InStep, RecordAppend;
    if events != [] {
      var e := events[0];
      AppendKeepsInStep(g, e.data, e.works, e.first, e.then_);
      AppendsStayInStep(Step(g, e), events[1..]);
    }
  }

  /** So when nothing is pending all copies are identical. */
  lemma NothingPendingMeansIdentical(secondaries: nat, events: seq<Event>, i: nat)
    requires AppendsOnly(events) && i < secondaries
    ensures var g := Run(NewGroup(secondaries), events);
            && |g.secondaries| == secondaries
            && (g.pending == None ==> g.secondaries[i].applied == g.primary.applied && g.secondaries[i].bytes == g.primary.bytes)
  {
    NewGroupInStep(secondaries);
    AppendsStayInStep(NewGroup(secondaries), events);
    RunKeepsCount(NewGroup(secondaries), events);
    hide Run, BytesAfter;
    var g := Run(NewGroup(secondaries), events);
    if g.pending == None {
      assert Prefix(g.secondaries[i].applied, g.primary.applied);
    }
  }

  function NewGroup(secondaries: nat): Group {
    Group(NEW_COPY, None, seq(secondaries, _ => NEW_COPY))
  }

  lemma NewGroupInStep(secondaries: nat)
    ensures InStep(NewGroup(secondaries))
  {}

  lemma {:induction false} RunKeepsCount(g: Group, events: seq<Event>)
    ensures |Run(g, events).secondaries| == |g.secondaries|
    decreases |events|
  {
    if events != [] {
      StepKeepsCount(g, events[0]);
      RunKeepsCount(Step(g, events[0]), events[1..]);
    }
  }

  lemma StepKeepsCount(g: Group, e: Event)
    ensures |Step(g, e).secondaries| == |g.secondaries|
  {
    hide ApplyNext, Propagate;
  }

  // ----- when the pending mutation cannot be passed on -----

  /** The next append can pass on the pending mutation - given the right deliveries - if and only if
      it is exactly the next one for every secondary.  A secondary that has applied it already turns
      it down again. */
  lemma PendingDrainsIff(g: Group, m: Mutation)
    requires GroupInv(g) && g.pending == Some(m)
    ensures (exists how :: Retry(g, how).1) <==> forall i :: 0 <= i < |g.secondaries| ==> |g.secondaries[i].applied| == m.id - 1
  {
    if forall i :: 0 <= i < |g.secondaries| ==> |g.secondaries[i].applied| == m.id - 1 {
      var how := AllDelivered(g.secondaries, m);
      forall i | 0 <= i < |g.secondaries|
        ensures Accepts(g.secondaries[i], m, true)
      {
        assert ValidCopy(g.secondaries[i]);
      }
      assert Retry(g, how).1;
    }
    if how :| Retry(g, how).1 {
      PropagateMeans(g.secondaries, m, how);
      forall i | 0 <= i < |g.secondaries|
        ensures |g.secondaries[i].applied| == m.id - 1
      {
        ApplyKeepsValid(g.secondaries[i], m, true);
      }
    }
  }

  /** Once a secondary has applied the pending mutation - its answer was lost - nothing that happens
      later clears it, and every append fails without touching the primary. */
  ghost predicate Stuck(g: Group, m: Mutation, i: nat) {
    GroupInv(g) && g.pending == Some(m) && i < |g.secondaries| && |g.secondaries[i].applied| >= m.id
  }

  lemma StuckAppend(g: Group, m: Mutation, i: nat, data: str, works: bool, first: seq<Delivery>, then_: seq<Delivery>)
    requires Stuck(g, m, i)
    ensures var (g', r) := RecordAppend(g, data, works, first, then_);
            r.status == Failed && g'.primary == g.primary && Stuck(g', m, i)
  {
    PropagateKeepsInv(g, m, first);
    PropagateMeans(g.secondaries, m, first);
    assert ValidCopy(g.secondaries[i]);
    hide BytesAfter, Overlay, Propagate, AppendAtEnd;
    assert !Accepts(g.secondaries[i], m, true);
  }

  lemma StuckPlain(g: Group, m: Mutation, i: nat, offset: nat, data: str, works: bool, how: seq<Delivery>)
    requires Stuck(g, m, i)
    ensures Stuck(ExecuteMutation(g, offset, data, works, how).0, m, i)
  {
    ExecuteKeepsInv(g, offset, data, works, how);
    var (c, n, ok) := ApplyNext(g.primary, offset, data, works);
    ApplyNextMeans(g.primary, offset, data, works);
    OneAhead(g, c);
    if ok {
      PropagateKeepsInv(g.(primary := c), n, how);
    }
    hide GroupInv, ApplyNext, Propagate;
  }

  lemma {:induction false} StuckForever(g: Group, m: Mutation, i: nat, events: seq<Event>)
    requires Stuck(g, m, i)
    ensures Stuck(Run(g, events), m, i)
    decreases |events|
  {
    hide Stuck, RecordAppend, ExecuteMutation;
    if events != [] {
      match events[0] {
        case Append(data, works, first, then_) => StuckAppend(g, m, i, data, works, first, then_);
        case Plain(offset, data, works, how) => StuckPlain(g, m, i, offset, data, works, how);
      }
      StuckForever(Step(g, events[0]), m, i, events[1..]);
    }
  }

  // ----- when an append succeeds -----

  const DELIVERED := Delivery(true, true, true)

  /** Every delivery of the list goes through and is answered. */
  predicate AllDeliver(how: seq<Delivery>, n: nat) {
    n <= |how| && forall i :: 0 <= i < n ==> how[i] == DELIVERED
  }

  /** Propagation succeeds if and only if the mutation is the next one for every secondary and all
      deliveries go through. */
  lemma {:induction false} PropagateIff(secondaries: seq<Copy>, m: Mutation, how: seq<Delivery>)
    ensures Propagate(secondaries, m, how).1 <==>
              (forall i :: 0 <= i < |secondaries| ==> Accepts(secondaries[i], m, true)) && AllDeliver(how, |secondaries|)
    decreases |secondaries|
  {
    if secondaries != [] {
      PropagateIff(secondaries[1..], m, if how == [] then [] else how[1..]);
      if how != [] {
        assert forall i :: 0 <= i < |how[1..]| ==> how[1..][i] == how[i + 1];
      }
      assert forall i :: 0 <= i < |secondaries[1..]| ==> secondaries[1..][i] == secondaries[i + 1];
    }
  }

  /** With copies in step and nothing pending, an append succeeds if and only if the record is not empty,
      at most a quarter of a chunk, and fits, the primary can apply its next number and writes it, and every secondary gets it and answers. */
  lemma AppendSucceedsIff(g: Group, data: str, works: bool, first: seq<Delivery>, then_: seq<Delivery>)
    requires InStep(g) && g.pending == None && |g.primary.bytes| <= CHUNK_SIZE
    ensures RecordAppend(g, data, works, first, then_).1.status == Success <==>
              && data != [] && 4 * |data| <= CHUNK_SIZE && |g.primary.bytes| + |data| <= CHUNK_SIZE
              && works && AssignedId(g.primary) == Successor(g.primary.last)
              && AllDeliver(then_, |g.secondaries|)
  {
    var size, m := |g.primary.bytes|, Mutation(AssignedId(g.primary), |g.primary.bytes|, data);
    NextAppliesIff(g.primary, size, data);
    hide BytesAfter, Overlay, Propagate, AllDeliver, Prefix;
    if size + |data| <= CHUNK_SIZE && works && AssignedId(g.primary) == Successor(g.primary.last) {
      forall i | 0 <= i < |g.secondaries|
        ensures Accepts(g.secondaries[i], m, true)
      {
        assert ValidCopy(g.secondaries[i]) && |g.secondaries[i].applied| == |g.primary.applied|;
      }
      PropagateIff(g.secondaries, m, then_);
    }
  }

  // ----- when the primary itself cannot go on -----

  /** The primary can apply what it numbers next if and only if the number is the one after the last
      it applied. */
  lemma NextAppliesIff(c: Copy, offset: nat, data: str)
    ensures ApplyNext(c, offset, data, true).2 <==> FitsChunk(Mutation(0, offset, data)) && AssignedId(c) == Successor(c.last)
  {}

  /** A number has been used up by a local write that failed. */
  predicate Wedged(c: Copy) {
    c.next > c.last + 1
  }

  lemma FailedWriteWedges(c: Copy, offset: nat, data: str)
    requires AssignedId(c) == Successor(c.last) && c.last + 2 < U64
    ensures var r := ApplyNext(c, offset, data, false); !r.2 && Wedged(r.0) && r.0.applied == c.applied && r.0.bytes == c.bytes
  {}

  lemma WedgedStep(g: Group, e: Event)
    requires Wedged(g.primary) && g.primary.next + 1 < U64
    ensures var g' := Step(g, e);
            && g'.primary.applied == g.primary.applied && g'.primary.bytes == g.primary.bytes && g'.primary.last == g.primary.last
            && g.primary.next <= g'.primary.next <= g.primary.next + 1
            && Wedged(g'.primary)
  {
    hide Propagate;
    if e.Append? && ValidRecord(e.data) {
      var h := Retry(g, e.first).0;
      assert h.primary == g.primary;
      AppendAtEndIs(h, e.data, e.works, e.then_);
    }
  }

  /** From then on the primary applies nothing more, for as many attempts as there are numbers left. */
  lemma {:induction false} WedgedForLong(g: Group, events: seq<Event>)
    requires Wedged(g.primary) && g.primary.next + |events| < U64
    ensures Run(g, events).primary.applied == g.primary.applied && Run(g, events).primary.bytes == g.primary.bytes
    decreases |events|
  {
    hide Step;
    if events != [] {
      WedgedStep(g, events[0]);
      WedgedForLong(Step(g, events[0]), events[1..]);
    }
  }

  /** A write that the primary accepts but cannot store uses up its number.  Whatever is written or
      appended afterwards, the primary stores nothing more, for as many attempts as there are numbers. */
  lemma FailedWriteIsFinal(g: Group, offset: nat, data: str, how: seq<Delivery>, events: seq<Event>)
    requires FitsChunk(Mutation(0, offset, data)) && AssignedId(g.primary) == Successor(g.primary.last)
    requires g.primary.last + 2 + |events| < U64
    ensures var (g', ok) := ExecuteMutation(g, offset, data, false, how);
            && !ok
            && Run(g', events).primary.applied == g.primary.applied && Run(g', events).primary.bytes == g.primary.bytes
  {
    FailedWriteWedges(g.primary, offset, data);
    var g' := ExecuteMutation(g, offset, data, false, how).0;
    assert g'.primary == ApplyNext(g.primary, offset, data, false).0;
    hide Run;
    WedgedForLong(g', events);
  }

  // ----- where records go -----

  /** One append: the bytes only grow, within the chunk; a successful record stands at the reported
      offset; a record that is sent to the next chunk leaves this one exactly full, with padding
      shorter than the record. */
  lemma AppendGeometry(g: Group, data: str, works: bool, first: seq<Delivery>, then_: seq<Delivery>)
    requires |g.primary.bytes| <= CHUNK_SIZE
    ensures var (g', r) := RecordAppend(g, data, works, first, then_);
            var before, after := g.primary.bytes, g'.primary.bytes;
            && before <= after && |after| <= CHUNK_SIZE
            && (r.status == Success ==> after == before + data && r.offset == |before| && r.size == |after| && r.appended == |data|)
            && (r.status == RetryNextChunk ==>
                  && |after| == CHUNK_SIZE == r.size && after == before + Padding(CHUNK_SIZE - |before|)
                  && CHUNK_SIZE - |before| < |data| <= CHUNK_SIZE / 4)
            && (r.status == Failed ==>
                  after == before || after == before + data
                  || (after == before + Padding(CHUNK_SIZE - |before|) && CHUNK_SIZE - |before| < |data|))
  {
    hide Propagate;
    if ValidRecord(data) {
      var (h, ready) := Retry(g, first);
      assert h.primary == g.primary;
      if ready {
        var size := |g.primary.bytes|;
        AtEnd(g.primary.bytes, data);
        AtEnd(g.primary.bytes, Padding(CHUNK_SIZE - size));
        hide Overlay;
        if |data| <= CHUNK_SIZE - size {
          AppendBytes(h.primary, data, works);
        } else if size < CHUNK_SIZE {
          AppendBytes(h.primary, Padding(CHUNK_SIZE - size), works);
        }
        hide ApplyNext, Padding;
        NoPadding(g.primary.bytes);
      }
    }
  }

  lemma NoPadding(bytes: str)
    ensures bytes + Padding(0) == bytes
  {}

  lemma AtEnd(bytes: str, data: str)
    ensures Overlay(bytes, |bytes|, data) == bytes + data
  {}

  lemma AppendBytes(c: Copy, data: str, works: bool)
    requires data != []
    ensures var r := ApplyNext(c, |c.bytes|, data, works);
            r.0.bytes == if r.2 then c.bytes + data else c.bytes
  {
    AtEnd(c.bytes, data);
    hide Overlay;
  }

  function Results(g: Group, events: seq<Event>): (r: seq<AppendResult>)
    requires AppendsOnly(events)
    ensures |r| == |events|
    decreases |events|
  {
    if events == [] then []
    else
      var e := events[0];
      [RecordAppend(g, e.data, e.works, e.first, e.then_).1] + Results(Step(g, e), events[1..])
  }

  /** The bytes never shrink and never exceed a chunk, in any run of appends. */
  lemma {:induction false} BytesGrow(g: Group, events: seq<Event>)
    requires |g.primary.bytes| <= CHUNK_SIZE && AppendsOnly(events)
    ensures g.primary.bytes <= Run(g, events).primary.bytes && |Run(g, events).primary.bytes| <= CHUNK_SIZE
    decreases |events|
  {
    hide RecordAppend;
    if events != [] {
      var e := events[0];
      AppendGeometry(g, e.data, e.works, e.first, e.then_);
      BytesGrow(Step(g, e), events[1..]);
    }
  }

  /** Every successful record of a run lies in the chunk, behind everything that was there before the
      run, keeps its bytes to the end of the run, and does not overlap later records. */
  lemma {:induction false} RecordsKept(g: Group, events: seq<Event>, i: nat)
    requires |g.primary.bytes| <= CHUNK_SIZE && AppendsOnly(events) && i < |events|
    requires Results(g, events)[i].status == Success
    ensures var r, end := Results(g, events)[i], Run(g, events).primary.bytes;
            && |g.primary.bytes| <= r.offset && r.offset + |events[i].data| <= |end| <= CHUNK_SIZE
            && end[r.offset..r.offset + |events[i].data|] == events[i].data
    ensures forall j :: i < j < |events| && Results(g, events)[j].status == Success ==>
              Results(g, events)[i].offset + |events[i].data| <= Results(g, events)[j].offset
    decreases |events|
  {
    hide RecordAppend;
    var e := events[0];
    AppendGeometry(g, e.data, e.works, e.first, e.then_);
    var g' := Step(g, e);
    BytesGrow(g', events[1..]);
    if i == 0 {
      KeptBytes(g.primary.bytes, e.data, Run(g, events).primary.bytes);
      forall j | 0 < j < |events| && Results(g, events)[j].status == Success
        ensures Results(g, events)[0].offset + |e.data| <= Results(g, events)[j].offset
      {
        RecordsKept(g', events[1..], j - 1);
      }
    } else {
      RecordsKept(g', events[1..], i - 1);
      forall j | i < j < |events| && Results(g, events)[j].status == Success
        ensures Results(g, events)[i].offset + |events[i].data| <= Results(g, events)[j].offset
      {
        assert Results(g', events[1..])[j - 1] == Results(g, events)[j];
      }
    }
  }

  lemma KeptBytes(before: str, data: str, end: str)
    requires before + data <= end
    ensures end[|before|..|before| + |data|] == data
  {
    assert end[..|before + data|] == before + data;
    assert end[|before|..|before| + |data|] == end[..|before + data|][|before|..];
  }

  // ----- what a write at an offset does -----

  /** The data stands at the offset, every other byte is as it was, and a gap before the offset is
      filled with zeros; writing nothing changes nothing. */
  ghost predicate WrittenAt(before: str, after: str, offset: nat, data: str) {
    && |after| == (if data != [] && |before| < offset + |data| then offset + |data| else |before|)
    && forall k :: 0 <= k < |after| ==>
         after[k] == if offset <= k < offset + |data| then data[k - offset] else if k < |before| then before[k] else 0
  }

  lemma StoredIsWritten(bytes: str, m: Mutation)
    ensures WrittenAt(bytes, Stored(bytes, m), m.offset, m.data)
  {
    if m.data != [] {
      forall k | 0 <= k < |Stored(bytes, m)|
        ensures Stored(bytes, m)[k] ==
                if m.offset <= k < m.offset + |m.data| then m.data[k - m.offset] else if k < |bytes| then bytes[k] else 0
      {
        OverlayAt(bytes, m.offset, m.data, k);
      }
    }
    hide Overlay;
  }

  /** The primary has not used up a number without storing anything under it. */
  predicate InOrder(c: Copy) {
    c.next == c.last + 1 || (c.next == 0 && c.last == 0)
  }

  /** A write succeeds if and only if it lies in the chunk, the primary is in order and its storage
      works, every secondary has applied as much as the primary, and all of them get it and answer. */
  lemma WriteSucceedsIff(g: Group, offset: nat, data: str, works: bool, how: seq<Delivery>)
    ensures ExecuteMutation(g, offset, data, works, how).1 <==>
              && offset + |data| <= CHUNK_SIZE && works && InOrder(g.primary)
              && (forall i :: 0 <= i < |g.secondaries| ==> g.secondaries[i].last == g.primary.last)
              && AllDeliver(how, |g.secondaries|)
  {
    hide Propagate, Stored, AllDeliver;
    var m := Mutation(AssignedId(g.primary), offset, data);
    PropagateIff(g.secondaries, m, how);
    if FitsChunk(m) && works && InOrder(g.primary) {
      assert forall i :: 0 <= i < |g.secondaries| ==> (Accepts(g.secondaries[i], m, true) <==> g.secondaries[i].last == g.primary.last);
    }
  }

  /** The primary stores a write, wherever it is passed on, if and only if it lies in the chunk, the
      primary is in order and its storage works; then it stands there, and otherwise nothing changes. */
  lemma WriteIsStored(g: Group, offset: nat, data: str, works: bool, how: seq<Delivery>)
    ensures var g' := ExecuteMutation(g, offset, data, works, how).0;
            if offset + |data| <= CHUNK_SIZE && works && InOrder(g.primary)
            then WrittenAt(g.primary.bytes, g'.primary.bytes, offset, data)
                 && g'.primary.applied == g.primary.applied + [Mutation(g.primary.last + 1, offset, data)]
            else g'.primary.bytes == g.primary.bytes && g'.primary.applied == g.primary.applied
  {
    hide Propagate, Stored, WrittenAt;
    StoredIsWritten(g.primary.bytes, Mutation(AssignedId(g.primary), offset, data));
  }

  /** Every secondary is as it was, or the same write stands at the same offset there; after a
      success it stands on all of them. */
  lemma WriteReaches(g: Group, offset: nat, data: str, works: bool, how: seq<Delivery>, i: nat)
    requires i < |g.secondaries|
    ensures var (g', ok) := ExecuteMutation(g, offset, data, works, how);
            var before, after := g.secondaries[i], g'.secondaries[i];
            && |g'.secondaries| == |g.secondaries|
            && (ok || after != before ==>
                  && WrittenAt(before.bytes, after.bytes, offset, data)
                  && after.applied == before.applied + [Mutation(g.primary.last + 1, offset, data)])
  {
    hide Propagate, Stored, WrittenAt;
    var m := Mutation(AssignedId(g.primary), offset, data);
    PropagateMeans(g.secondaries, m, how);
    StoredIsWritten(g.secondaries[i].bytes, m);
  }

  predicate Touches(e: Event, k: nat) {
    e.Plain? && e.offset <= k < e.offset + |e.data|
  }

  lemma StepKeepsByte(g: Group, e: Event, k: nat)
    requires k < |g.primary.bytes| <= CHUNK_SIZE && !Touches(e, k)
    ensures k < |Step(g, e).primary.bytes| <= CHUNK_SIZE && Step(g, e).primary.bytes[k] == g.primary.bytes[k]
  {
    hide ExecuteMutation, RecordAppend;
    match e {
      case Append(data, works, first, then_) => AppendGeometry(g, data, works, first, then_);
      case Plain(offset, data, works, how) => WriteIsStored(g, offset, data, works, how);
    }
  }

  /** A byte keeps its value in every run without a write to its position; appends leave it alone. */
  lemma {:induction false} ByteKept(g: Group, events: seq<Event>, k: nat)
    requires k < |g.primary.bytes| <= CHUNK_SIZE
    requires forall i :: 0 <= i < |events| ==> !Touches(events[i], k)
    ensures k < |Run(g, events).primary.bytes| <= CHUNK_SIZE && Run(g, events).primary.bytes[k] == g.primary.bytes[k]
    decreases |events|
  {
    hide Step;
    if events != [] {
      StepKeepsByte(g, events[0], k);
      ByteKept(Step(g, events[0]), events[1..], k);
    }
  }

  /** The last write to a position decides its byte, whatever else is written and appended later, and
      whether or not the write reached the secondaries. */
  lemma LastWriteDecides(g: Group, offset: nat, data: str, how: seq<Delivery>, later: seq<Event>, k: nat)
    requires |g.primary.bytes| <= CHUNK_SIZE && offset + |data| <= CHUNK_SIZE && InOrder(g.primary)
    requires offset <= k < offset + |data|
    requires forall i :: 0 <= i < |later| ==> !Touches(later[i], k)
    ensures var end := Run(g, [Plain(offset, data, true, how)] + later).primary.bytes;
            k < |end| && end[k] == data[k - offset]
  {
    hide ExecuteMutation;
    var e := Plain(offset, data, true, how);
    WriteIsStored(g, offset, data, true, how);
    ByteKept(Step(g, e), later, k);
    assert ([e] + later)[1..] == later;
  }
}
