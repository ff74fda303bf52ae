// Which chunkservers hold a replica of each chunk, and which of them is the primary.

module Replicas {
  import opened Bytes
  import opened ChunkTables

  type ServerId = u64

  datatype Replica = Replica(server: ServerId, primary: bool)

  type ReplicaMap = map<Handle, seq<Replica>>

  // ----- the list of one chunk -----

  function Servers(list: seq<Replica>): (servers: seq<ServerId>)
    ensures |servers| == |list|
  {
    seq(|list|, i requires 0 <= i < |list| => list[i].server)
  }

  predicate HasPrimary(list: seq<Replica>) {
    exists i :: 0 <= i < |list| && list[i].primary
  }

  /** Every server once, never server 0, and at most one of them primary. */
  ghost predicate ValidList(list: seq<Replica>) {
    && NoDuplicates(Servers(list))
    && 0 !in Servers(list)
    && forall i, j :: 0 <= i < j < |list| ==> !(list[i].primary && list[j].primary)
  }

  function Demoted(list: seq<Replica>): (r: seq<Replica>)
    ensures |r| == |list|
  {
    seq(|list|, i requires 0 <= i < |list| => Replica(list[i].server, false))
  }

  /** The flags after a server has been made primary; none is left if the server is not listed. */
  function Promoted(list: seq<Replica>, s: ServerId): (r: seq<Replica>)
    ensures |r| == |list|
  {
    seq(|list|, i requires 0 <= i < |list| => Replica(list[i].server, list[i].server == s))
  }

  function IndexOf(list: seq<Replica>, s: ServerId): (i: nat)
    ensures i <= |list|
    ensures i < |list| ==> list[i].server == s
    ensures forall j :: 0 <= j < i ==> list[j].server != s
    decreases |list|
  {
    if list == [] then 0
    else if list[0].server == s then 0
    else
      var i := IndexOf(list[1..], s);
      assert forall j :: 0 < j < i + 1 ==> list[j] == list[1..][j - 1];
      i + 1
  }

  function Erased(list: seq<Replica>, i: nat): seq<Replica>
    requires i < |list|
  {
    list[..i] + list[i + 1..]
  }

  /** If no primary is left, the first of the list becomes primary. */
  function Repaired(list: seq<Replica>): (r: seq<Replica>)
    ensures |r| == |list|
  {
    if list == [] || HasPrimary(list) then list else list[0 := list[0].(primary := true)]
  }

  // ----- the operations on values -----

  function ListAt(r: ReplicaMap, h: Handle): seq<Replica> {
    if h in r then r[h] else []
  }

  function ServersAt(r: ReplicaMap, h: Handle): seq<ServerId> {
    Servers(ListAt(r, h))
  }

  function PrimaryAt(r: ReplicaMap, h: Handle): Option<ServerId> {
    PrimaryOf(ListAt(r, h))
  }

  function PrimaryOf(list: seq<Replica>): (p: Option<ServerId>)
    ensures p == None <==> !HasPrimary(list)
    ensures p != None ==> exists i :: 0 <= i < |list| && list[i] == Replica(p.value, true)
    decreases |list|
  {
    if list == [] then None
    else if list[0].primary then Some(list[0].server)
    else
      var p := PrimaryOf(list[1..]);
      assert forall j :: 0 < j < |list| ==> list[j] == list[1..][j - 1];
      p
  }

  /** A replica that is already listed is not registered again, but it can become primary. */
  function Register(r: ReplicaMap, h: Handle, s: ServerId, primary: bool): Step<ReplicaMap> {
    if h == 0 || s == 0 then Step(r, false)
    else
      var list := ListAt(r, h);
      if s in Servers(list) then Step(if primary then r[h := Promoted(list, s)] else r, false)
      else Step(r[h := (if primary then Demoted(list) else list) + [Replica(s, primary)]], true)
  }

  function Remove(r: ReplicaMap, h: Handle, s: ServerId): Step<ReplicaMap> {
    if h == 0 || s == 0 || s !in ServersAt(r, h) then Step(r, false)
    else
      var i := IndexOf(r[h], s);
      if i == |r[h]| then Step(r, false)
      else
        var rest := Erased(r[h], i);
        Step(if rest == [] then r - {h} else r[h := Repaired(rest)], true)
  }

  function SetPrimary(r: ReplicaMap, h: Handle, s: ServerId): Step<ReplicaMap> {
    if h == 0 || s == 0 || h !in r then Step(r, false)
    else Step(r[h := Promoted(r[h], s)], s in Servers(r[h]))
  }

  function RemoveChunk(r: ReplicaMap, h: Handle): Step<ReplicaMap> {
    if h == 0 then Step(r, false) else Step(r - {h}, h in r)
  }

  ghost predicate ValidReplicas(r: ReplicaMap) {
    forall h :: h in r ==> h != 0 && r[h] != [] && ValidList(r[h])
  }

  // ----- every operation keeps the lists valid -----

  lemma RegisterKeepsValid(r: ReplicaMap, h: Handle, s: ServerId, primary: bool)
    requires ValidReplicas(r)
    ensures var after := Register(r, h, s, primary);
            && ValidReplicas(after.state)
            && (after.ok <==> h != 0 && s != 0 && s !in ServersAt(r, h))
            && (after.ok ==> ServersAt(after.state, h) == ServersAt(r, h) + [s])
            && (!after.ok ==> ServersAt(after.state, h) == ServersAt(r, h))
            && (forall k :: k != h ==> ListAt(after.state, k) == ListAt(r, k))
            && (primary && h != 0 && s != 0 ==> PrimaryAt(after.state, h) == Some(s))
            && (!primary ==> PrimaryAt(after.state, h) == PrimaryAt(r, h))
            && (!after.ok && !primary ==> after.state == r)
  {
    var list, after := ListAt(r, h), Register(r, h, s, primary);
    assert ValidList(list);
    if h != 0 && s != 0 {
      if s in Servers(list) {
        if primary {
          PromotedIsValid(list, s);
        }
      } else {
        DemotedIsValid(list);
        var base := if primary then Demoted(list) else list;
        AppendIsValid(base, s, primary);
        assert Servers(base) == Servers(list);
        assert Servers(base + [Replica(s, primary)]) == Servers(list) + [s];
      }
    }
  }

  lemma PromotedIsValid(list: seq<Replica>, s: ServerId)
    requires ValidList(list)
    ensures ValidList(Promoted(list, s)) && Servers(Promoted(list, s)) == Servers(list)
    ensures PrimaryOf(Promoted(list, s)) == if s in Servers(list) then Some(s) else None
  {
    var after := Promoted(list, s);
    assert Servers(after) == Servers(list);
    forall i, j | 0 <= i < j < |list|
      ensures !(after[i].primary && after[j].primary)
    {
      assert Servers(list)[i] != Servers(list)[j];
    }
    if s in Servers(list) {
      var i :| 0 <= i < |list| && Servers(list)[i] == s;
      assert after[i].primary;
    } else {
      forall i | 0 <= i < |list|
        ensures !after[i].primary
      {
        assert Servers(list)[i] != s;
      }
    }
  }

  lemma DemotedIsValid(list: seq<Replica>)
    requires ValidList(list)
    ensures ValidList(Demoted(list)) && Servers(Demoted(list)) == Servers(list) && !HasPrimary(Demoted(list))
  {
    assert Servers(Demoted(list)) == Servers(list);
  }

  lemma AppendIsValid(list: seq<Replica>, s: ServerId, primary: bool)
    requires ValidList(list) && s != 0 && s !in Servers(list)
    requires primary ==> !HasPrimary(list)
    ensures var after := list + [Replica(s, primary)];
            ValidList(after) && PrimaryOf(after) == if primary then Some(s) else PrimaryOf(list)
  {
    var after := list + [Replica(s, primary)];
    assert Servers(after) == Servers(list) + [s];
    forall i, j | 0 <= i < j < |after|
      ensures !(after[i].primary && after[j].primary)
    {
      if j == |list| && primary {
        assert !list[i].primary;
      }
    }
    PrimaryIsUnique(list);
    PrimaryIsUnique(after);
    if primary {
      assert after[|list|].primary;
    } else if HasPrimary(list) {
      var i :| 0 <= i < |list| && list[i].primary;
      assert after[i].primary;
    }
  }

  lemma PrimaryIsUnique(list: seq<Replica>)
    requires ValidList(list)
    ensures forall i :: 0 <= i < |list| && list[i].primary ==> PrimaryOf(list) == Some(list[i].server)
  {
    forall i | 0 <= i < |list| && list[i].primary
      ensures PrimaryOf(list) == Some(list[i].server)
    {
      var j :| 0 <= j < |list| && list[j] == Replica(PrimaryOf(list).value, true);
      assert !(i < j) && !(j < i);
    }
  }

  /** Removing a replica keeps the others in order.  The primary stays; if it is the one removed, or
      there was none, the first that is left takes over. */
  lemma RemoveKeepsValid(r: ReplicaMap, h: Handle, s: ServerId)
    requires ValidReplicas(r)
    ensures var after := Remove(r, h, s);
            && ValidReplicas(after.state)
            && (after.ok <==> s in ServersAt(r, h))
            && (forall k :: k != h ==> ListAt(after.state, k) == ListAt(r, k))
            && (forall x :: x in ServersAt(after.state, h) <==> x in ServersAt(r, h) && x != s)
            && (after.ok ==> |ServersAt(after.state, h)| == |ServersAt(r, h)| - 1)
            && (forall i :: 0 <= i < |ServersAt(r, h)| && ServersAt(r, h)[i] == s ==>
                  ServersAt(after.state, h) == ServersAt(r, h)[..i] + ServersAt(r, h)[i + 1..])
            && (!after.ok ==> after.state == r)
            && (after.ok && |ServersAt(r, h)| > 1 ==>
                  PrimaryAt(after.state, h) ==
                  if PrimaryAt(r, h) == None || PrimaryAt(r, h) == Some(s) then Some(ServersAt(after.state, h)[0]) else PrimaryAt(r, h))
  {
    hide Servers, PrimaryOf, Erased, Repaired, ValidList, NoDuplicates;
    var list := ListAt(r, h);
    if s in Servers(list) {
      ListedAt(r, h, s);
      var i := IndexOf(list, s);
      RemovedIsValid(list, i);
      assert ListAt(Remove(r, h, s).state, h) == Repaired(Erased(list, i)) by {
        EmptyIsNotRepaired();
      }
    } else {
      assert Remove(r, h, s) == Step(r, false);
    }
  }

  lemma EmptyIsNotRepaired()
    ensures Repaired([]) == []
  {}

  /** A listed server has one position, and no server is 0. */
  lemma ListedAt(r: ReplicaMap, h: Handle, s: ServerId)
    requires ValidReplicas(r) && s in ServersAt(r, h)
    ensures h in r && h != 0 && s != 0 && ValidList(r[h]) && IndexOf(r[h], s) < |r[h]|
    ensures forall i :: 0 <= i < |ServersAt(r, h)| && ServersAt(r, h)[i] == s ==> i == IndexOf(r[h], s)
  {
    var k :| 0 <= k < |ServersAt(r, h)| && ServersAt(r, h)[k] == s;
    assert ListAt(r, h)[k].server == s;
    var n := IndexOf(r[h], s);
    assert Servers(r[h])[n] == s;
    hide IndexOf;
  }

  lemma RemovedIsValid(list: seq<Replica>, i: nat)
    requires ValidList(list) && i < |list|
    ensures var after, servers := Repaired(Erased(list, i)), Servers(list);
            && ValidList(after)
            && Servers(after) == servers[..i] + servers[i + 1..] && (after == [] <==> Erased(list, i) == [])
            && (forall x :: x in Servers(after) <==> x in servers && x != list[i].server)
            && (|list| > 1 ==>
                  |Servers(after)| > 0
                  && PrimaryOf(after) ==
                     if PrimaryOf(list) == None || PrimaryOf(list) == Some(list[i].server) then Some(Servers(after)[0]) else PrimaryOf(list))
  {
    hide *;
    ErasedIsValid(list, i);
    ErasedParts(list, i);
    RepairedIsValid(Erased(list, i));
    if PrimaryOf(list) == None || PrimaryOf(list) == Some(list[i].server) {
      NoPrimaryLeft(list, i);
      FirstTakesOver(Erased(list, i));
    }
  }

  lemma NoPrimaryLeft(list: seq<Replica>, i: nat)
    requires ValidList(list) && i < |list| && (PrimaryOf(list) == None || PrimaryOf(list) == Some(list[i].server))
    ensures !HasPrimary(Erased(list, i))
  {
    PrimaryIsUnique(list);
    var rest := Erased(list, i);
    hide PrimaryOf;
    forall j | 0 <= j < |rest|
      ensures !rest[j].primary
    {
      var k := if j < i then j else j + 1;
      assert rest[j] == list[k];
      assert Servers(list)[k] != Servers(list)[i];
    }
  }

  lemma FirstTakesOver(list: seq<Replica>)
    requires !HasPrimary(list)
    ensures list != [] ==> PrimaryOf(Repaired(list)) == Some(Servers(Repaired(list))[0])
  {}

  lemma ErasedIsValid(list: seq<Replica>, i: nat)
    requires ValidList(list) && i < |list|
    ensures ValidList(Erased(list, i))
    ensures forall x :: x in Servers(Erased(list, i)) <==> x in Servers(list) && x != list[i].server
    ensures PrimaryOf(list) != None && PrimaryOf(list) != Some(list[i].server) ==> PrimaryOf(Erased(list, i)) == PrimaryOf(list)
  {
    hide *;
    ErasedParts(list, i);
    ErasedServers(Servers(list), i);
    ErasedFlags(list, i);
    if PrimaryOf(list) != None && PrimaryOf(list) != Some(list[i].server) {
      ErasedPrimary(list, i);
    }
  }

  lemma ErasedParts(list: seq<Replica>, i: nat)
    requires ValidList(list) && i < |list|
    ensures Servers(Erased(list, i)) == Servers(list)[..i] + Servers(list)[i + 1..]
    ensures NoDuplicates(Servers(list)) && i < |Servers(list)| && Servers(list)[i] == list[i].server
  {
    var rest := Erased(list, i);
    assert forall j :: 0 <= j < |rest| ==> rest[j] == list[if j < i then j else j + 1];
  }

  /** Without one entry there are no more primaries than before. */
  lemma ErasedFlags(list: seq<Replica>, i: nat)
    requires ValidList(list) && i < |list| && NoDuplicates(Servers(Erased(list, i)))
    requires forall x :: x in Servers(Erased(list, i)) ==> x in Servers(list)
    ensures ValidList(Erased(list, i))
  {
    var rest := Erased(list, i);
    assert forall j :: 0 <= j < |rest| ==> rest[j] == list[if j < i then j else j + 1];
    hide Servers, Erased;
  }

  lemma ErasedPrimary(list: seq<Replica>, i: nat)
    requires ValidList(list) && i < |list| && ValidList(Erased(list, i))
    requires PrimaryOf(list) != None && PrimaryOf(list) != Some(list[i].server)
    ensures PrimaryOf(Erased(list, i)) == PrimaryOf(list)
  {
    hide *;
    var j := PrimaryIndex(list);
    ErasedAt(list, i, j);
    PrimaryIsUnique(Erased(list, i));
    assert Erased(list, i)[if j < i then j else j - 1] == Replica(PrimaryOf(list).value, true);
  }

  lemma PrimaryIndex(list: seq<Replica>) returns (j: nat)
    requires PrimaryOf(list) != None
    ensures j < |list| && list[j] == Replica(PrimaryOf(list).value, true)
  {
    j :| j < |list| && list[j] == Replica(PrimaryOf(list).value, true);
  }

  lemma ErasedAt(list: seq<Replica>, i: nat, j: nat)
    requires i < |list| && j < |list| && j != i
    ensures |Erased(list, i)| == |list| - 1
    ensures Erased(list, i)[if j < i then j else j - 1] == list[j]
  {}

  lemma ErasedServers(servers: seq<ServerId>, i: nat)
    requires NoDuplicates(servers) && i < |servers|
    ensures var rest := servers[..i] + servers[i + 1..];
            NoDuplicates(rest) && forall x :: x in rest <==> x in servers && x != servers[i]
  {
    var rest := servers[..i] + servers[i + 1..];
    assert forall j :: 0 <= j < |rest| ==> rest[j] == servers[if j < i then j else j + 1];
    assert forall j :: 0 <= j < |servers| && j != i ==> servers[j] == rest[if j < i then j else j - 1];
  }

  lemma RepairedIsValid(list: seq<Replica>)
    requires ValidList(list)
    ensures ValidList(Repaired(list)) && Servers(Repaired(list)) == Servers(list)
    ensures list != [] ==> HasPrimary(Repaired(list))
    ensures HasPrimary(list) ==> PrimaryOf(Repaired(list)) == PrimaryOf(list)
  {
    assert Servers(Repaired(list)) == Servers(list);
    if list != [] && !HasPrimary(list) {
      assert Repaired(list)[0].primary;
    }
  }

  /** Naming an unknown server as primary is refused, yet takes the flag from the old primary. */
  lemma SetPrimaryKeepsValid(r: ReplicaMap, h: Handle, s: ServerId)
    requires ValidReplicas(r)
    ensures var after := SetPrimary(r, h, s);
            && ValidReplicas(after.state)
            && ServersAt(after.state, h) == ServersAt(r, h)
            && (forall k :: k != h ==> ListAt(after.state, k) == ListAt(r, k))
            && (after.ok <==> s in ServersAt(r, h))
            && (after.ok ==> PrimaryAt(after.state, h) == Some(s))
            && (!after.ok && s != 0 ==> PrimaryAt(after.state, h) == None)
            && (s == 0 ==> after.state == r)
  {
    var list := ListAt(r, h);
    assert ValidList(list);
    PromotedIsValid(list, s);
  }
}
