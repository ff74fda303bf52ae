// Bringing a chunk back to its number of replicas.

module ReReplication {
  // Servers die or fall behind.  Chunkservers are maps from handles to bytes; transfers run in the
  // same process.

  import opened Bytes
  import opened ChunkTables
  import opened ChunkBytes
  import opened Replicas
  import opened Placement
  import Manager = ReplicaManager

  type Fleet = map<ServerId, map<Handle, str>>

  /** What the master knows at the time of a recovery: the factor of the chunk, the servers that are
      alive now, those whose replica of the chunk is stale, those the heartbeats list as live, and
      those a transfer to which fails. */
  datatype Situation = Situation(desired: nat, alive: set<ServerId>, stale: set<ServerId>, live: seq<ServerId>, broken: set<ServerId>)

  /** What a transfer needs, besides a way to the destination. */
  predicate Transferable(servers: Fleet, source: ServerId, destination: ServerId, h: Handle) {
    && h != 0 && source != 0 && destination != 0 && source != destination
    && source in servers && destination in servers
    && h in servers[source] && |servers[source][h]| <= CHUNK_SIZE
  }

  function Transferred(servers: Fleet, source: ServerId, destination: ServerId, h: Handle): Fleet
    requires source in servers && h in servers[source] && destination in servers
  {
    var chunks: map<Handle, str> := servers[destination];
    servers[destination := chunks[h := servers[source][h]]]
  }

  /** The servers that hold a healthy, current copy. */
  function Good(servers: Fleet, h: Handle, v: Situation): set<ServerId> {
    set s | s in v.alive && s != 0 && s !in v.stale && s in servers && h in servers[s]
  }

  function Only(list: seq<ServerId>, good: set<ServerId>): (r: seq<ServerId>) {
    if list == [] then []
    else if list[0] in good then [list[0]] + Only(list[1..], good)
    else Only(list[1..], good)
  }

  lemma {:induction false} OnlyMeans(list: seq<ServerId>, good: set<ServerId>)
    ensures forall s :: s in Only(list, good) <==> s in list && s in good
    ensures NoDuplicates(list) ==> NoDuplicates(Only(list, good))
  {
    if list != [] {
      OnlyMeans(list[1..], good);
      assert list == [list[0]] + list[1..];
      if NoDuplicates(list) {
        assert forall i :: 0 <= i < |list[1..]| ==> list[1..][i] == list[i + 1];
        assert list[0] !in list[1..];
      }
    }
  }

  /** How many chunks a server holds a replica of. */
  function Load(r: ReplicaMap, s: ServerId): nat {
    |set h | h in r && s in Servers(r[h])|
  }

  /** The servers that a chunk can be copied to: live, alive, reachable and without a replica. */
  function Fresh(r: ReplicaMap, servers: Fleet, h: Handle, v: Situation): set<ServerId> {
    set s | s in v.live && s != 0 && s in v.alive && s in servers && s !in ServersAt(r, h)
  }

  /** The replicas that a recovery added. */
  function Added(before: ReplicaMap, after: ReplicaMap, h: Handle): set<ServerId> {
    Elements(ServersAt(after, h)) - Elements(ServersAt(before, h))
  }

  /** What a recovery may do to the replicas of the chunk, if a healthy one is left: exactly the
      originals that are alive and not stale stay, the primary stays if it is healthy and otherwise
      the first healthy original takes over, and at most as many live servers as are missing are added, each with the bytes of a healthy original. */
  ghost predicate Recovered(before: ReplicaMap, after: ReplicaMap, data: Fleet, servers: Fleet, h: Handle, v: Situation, source: ServerId) {
    var healthy := Only(ServersAt(before, h), Good(data, h, v));
    && KeepsCurrent(before, after, h, v)
    && HealthyPrimary(before, after, Good(data, h, v), h)
    && (forall s :: s in Added(before, after, h) ==> Copied(data, servers, h, v, s, source) && source in healthy)
    && |healthy| + |Added(before, after, h)| <= (if v.desired < |healthy| then |healthy| else v.desired)
  }

  /** Which servers a recovery adds.  If fewer are fresh than replicas are missing, none is chosen and
      nothing is copied; otherwise as many are chosen as are missing, and all of them are added to
      which the transfer works. */
  ghost predicate Refilled(before: ReplicaMap, after: ReplicaMap, data: Fleet, h: Handle, v: Situation, source: ServerId,
                           destinations: seq<ServerId>, missing: nat)
  {
    && Chosen(before, data, h, v, destinations, missing)
    && forall s :: s in Added(before, after, h) <==> s in destinations && s !in v.broken && Transferable(data, source, s, h)
  }

  ghost predicate Chosen(before: ReplicaMap, data: Fleet, h: Handle, v: Situation, destinations: seq<ServerId>, missing: nat) {
    && |destinations| == (if missing <= |Fresh(before, data, h, v)| then missing else 0)
    && NoDuplicates(destinations)
    && forall s :: s in destinations ==> s in Fresh(before, data, h, v)
  }

  /** How many healthy replicas are missing. */
  function Missing(healthy: nat, desired: nat): nat {
    if healthy < desired then desired - healthy else 0
  }

  ghost predicate KeepsCurrent(before: ReplicaMap, after: ReplicaMap, h: Handle, v: Situation) {
    forall s :: s in ServersAt(before, h) ==> (s in ServersAt(after, h) <==> s in v.alive && s !in v.stale)
  }

  /** A healthy primary stays; otherwise the first healthy replica becomes primary. */
  ghost predicate HealthyPrimary(before: ReplicaMap, after: ReplicaMap, good: set<ServerId>, h: Handle) {
    var primary, healthy := PrimaryAt(before, h), Only(ServersAt(before, h), good);
    healthy != [] && PrimaryAt(after, h) == if primary != None && primary.value in good then primary else Some(healthy[0])
  }

  lemma PrimaryIsHealthy(before: ReplicaMap, after: ReplicaMap, good: set<ServerId>, h: Handle)
    requires HealthyPrimary(before, after, good, h)
    ensures PrimaryAt(after, h) != None && PrimaryAt(after, h).value in Only(ServersAt(before, h), good)
    ensures PrimaryAt(after, h).value in ServersAt(before, h) && PrimaryAt(after, h).value in good
  {
    OnlyMeans(ServersAt(before, h), good);
    PrimaryIsListed(before, h);
    hide Servers, ListAt, PrimaryOf, Only;
  }

  ghost predicate Copied(data: Fleet, servers: Fleet, h: Handle, v: Situation, s: ServerId, source: ServerId) {
    && s in v.live && s in v.alive
    && s in servers && h in servers[s] && source in data && h in data[source] && servers[s][h] == data[source][h]
  }

  /** Other chunks keep their replicas; no server loses bytes of other chunks, and none that held a
      replica loses anything. */
  ghost predicate OnlyThisChunk(before: ReplicaMap, after: ReplicaMap, data: Fleet, servers: Fleet, h: Handle) {
    && (forall k :: k != h ==> ListAt(after, k) == ListAt(before, k))
    && FleetKept(before, data, servers, h)
  }

  ghost predicate FleetKept(before: ReplicaMap, data: Fleet, servers: Fleet, h: Handle) {
    && servers.Keys == data.Keys
    && forall s :: s in data ==>
         && (s in ServersAt(before, h) ==> servers[s] == data[s])
         && servers[s] - {h} == data[s] - {h}
  }

  /** After the dead replicas have gone: the others are there, and a healthy one is primary. */
  ghost predicate Trimmed(before: ReplicaMap, now: ReplicaMap, good: set<ServerId>, h: Handle, v: Situation) {
    && (forall s :: s in ServersAt(now, h) <==> s in ServersAt(before, h) && s in v.alive)
    && HealthyPrimary(before, now, good, h)
    && forall k :: k != h ==> ListAt(now, k) == ListAt(before, k)
  }

  /** During the copying: what has been added so far. */
  ghost predicate Refilling(before: ReplicaMap, now: ReplicaMap, data: Fleet, servers: Fleet, h: Handle, v: Situation,
                            source: ServerId, destinations: seq<ServerId>, i: nat)
    requires i <= |destinations|
  {
    && (forall s :: s in ServersAt(now, h) ==>
          (s in ServersAt(before, h) && s in v.alive && s !in v.stale) || (s in destinations[..i] && s !in ServersAt(before, h) && Copied(data, servers, h, v, s, source)))
    && (forall s :: s in ServersAt(before, h) && s in v.alive && s !in v.stale ==> s in ServersAt(now, h))
    && HealthyPrimary(before, now, Good(data, h, v), h)
    && OnlyThisChunk(before, now, data, servers, h)
  }

  ghost predicate FirstOrNone(r: ReplicaMap, h: Handle) {
    PrimaryAt(r, h) != None ==> ServersAt(r, h) != [] && PrimaryAt(r, h) == Some(ServersAt(r, h)[0])
  }

  /** While servers are removed the primary stays, unless it is one of them; then, or if there was
      none, there is none or the first of the list is primary. */
  ghost predicate PrimaryPassed(before: ReplicaMap, now: ReplicaMap, h: Handle, gone: set<ServerId>) {
    var primary := PrimaryAt(before, h);
    if primary != None && primary.value !in gone then PrimaryAt(now, h) == primary
    else FirstOrNone(now, h)
  }

  /** The replicas after some servers have been removed. */
  ghost predicate Left(before: ReplicaMap, now: ReplicaMap, h: Handle, gone: set<ServerId>, kept: set<ServerId>) {
    && (forall s :: s in ServersAt(now, h) <==> s in ServersAt(before, h) && s !in gone)
    && Only(ServersAt(now, h), kept) == Only(ServersAt(before, h), kept)
    && (forall k :: k != h ==> ListAt(now, k) == ListAt(before, k))
    && PrimaryPassed(before, now, h, gone)
  }

  lemma NobodyLeft(r: ReplicaMap, h: Handle, kept: set<ServerId>)
    ensures Left(r, r, h, {}, kept)
  {
    hide Servers, ListAt, PrimaryOf;
  }

  lemma NoneOf(unwanted: set<ServerId>)
    ensures Elements([]) * unwanted == {}
  {}

  lemma ElementsOfMore(list: seq<ServerId>, s: ServerId, unwanted: set<ServerId>)
    ensures Elements(list + [s]) * unwanted == Elements(list) * unwanted + if s in unwanted then {s} else {}
  {}

  lemma WhoIsLeft(before: ReplicaMap, now: ReplicaMap, h: Handle, list: seq<ServerId>, unwanted: set<ServerId>, kept: set<ServerId>)
    requires Left(before, now, h, Elements(list) * unwanted, kept)
    ensures forall s :: s in ServersAt(now, h) <==> s in ServersAt(before, h) && !(s in list && s in unwanted)
    ensures Only(ServersAt(now, h), kept) == Only(ServersAt(before, h), kept)
    ensures forall k :: k != h ==> ListAt(now, k) == ListAt(before, k)
    ensures PrimaryPassed(before, now, h, Elements(list) * unwanted)
  {
    hide Servers, ListAt, PrimaryOf, Only, PrimaryPassed;
  }

  /** One more server is removed. */
  lemma RemovalStep(before: ReplicaMap, now: ReplicaMap, h: Handle, s: ServerId, gone: set<ServerId>, kept: set<ServerId>)
    requires ValidReplicas(now) && Left(before, now, h, gone, kept) && s !in kept
    ensures Left(before, Remove(now, h, s).state, h, gone + {s}, kept)
  {
    hide *;
    RemovalKeepsOrder(now, h, s, kept);
    PrimaryMoves(now, h, s);
    StillLeft(before, now, Remove(now, h, s).state, h, s, gone, kept);
  }

  lemma StillLeft(before: ReplicaMap, now: ReplicaMap, next: ReplicaMap, h: Handle, s: ServerId, gone: set<ServerId>, kept: set<ServerId>)
    requires Left(before, now, h, gone, kept)
    requires forall x :: x in ServersAt(next, h) <==> x in ServersAt(now, h) && x != s
    requires Only(ServersAt(next, h), kept) == Only(ServersAt(now, h), kept)
    requires forall k :: k != h ==> ListAt(next, k) == ListAt(now, k)
    requires PrimaryPassed(now, next, h, {s})
    requires ServersAt(now, h) != [] && PrimaryAt(now, h) == Some(ServersAt(now, h)[0]) ==> FirstOrNone(next, h)
    ensures Left(before, next, h, gone + {s}, kept)
  {
    hide Servers, ListAt, PrimaryOf, Only;
  }

  lemma RemovalKeepsOrder(now: ReplicaMap, h: Handle, s: ServerId, kept: set<ServerId>)
    requires ValidReplicas(now) && s !in kept
    ensures var next := Remove(now, h, s).state;
            && (forall x :: x in ServersAt(next, h) <==> x in ServersAt(now, h) && x != s)
            && Only(ServersAt(next, h), kept) == Only(ServersAt(now, h), kept)
            && forall k :: k != h ==> ListAt(next, k) == ListAt(now, k)
  {
    RemoveKeepsValid(now, h, s);
    hide ListAt, Servers, PrimaryOf, Remove, ValidReplicas, Only;
    var list := ServersAt(now, h);
    if s in list {
      var i :| 0 <= i < |list| && list[i] == s;
      OnlyOfErased(list, i, kept);
    }
  }

  /** Removing a server moves the primary at most to the first of the list, and leaves it there. */
  lemma PrimaryMoves(now: ReplicaMap, h: Handle, s: ServerId)
    requires ValidReplicas(now)
    ensures var next := Remove(now, h, s).state;
            && PrimaryPassed(now, next, h, {s})
            && (ServersAt(now, h) != [] && PrimaryAt(now, h) == Some(ServersAt(now, h)[0]) ==> FirstOrNone(next, h))
  {
    RemoveKeepsValid(now, h, s);
    PrimaryIsListed(now, h);
    PrimaryIsListed(Remove(now, h, s).state, h);
    hide ListAt, Servers, PrimaryOf, Remove, ValidReplicas;
    var list, after := ServersAt(now, h), ServersAt(Remove(now, h, s).state, h);
    if s in list {
      var i :| 0 <= i < |list| && list[i] == s;
      assert after == list[..i] + list[i + 1..];
    }
  }

  lemma {:induction false} OnlyOfErased(list: seq<ServerId>, i: nat, kept: set<ServerId>)
    requires i < |list| && list[i] !in kept
    ensures Only(list[..i] + list[i + 1..], kept) == Only(list, kept)
  {
    if i == 0 {
      assert list[..0] + list[1..] == list[1..];
    } else {
      OnlyOfErased(list[1..], i - 1, kept);
      var erased := list[..i] + list[i + 1..];
      assert erased[0] == list[0] && erased[1..] == list[1..][..i - 1] + list[1..][i..];
    }
  }

  lemma PrimaryIsListed(r: ReplicaMap, h: Handle)
    ensures PrimaryAt(r, h) != None ==> PrimaryAt(r, h).value in ServersAt(r, h)
  {
    var list := ListAt(r, h);
    if PrimaryOf(list) != None {
      var i :| 0 <= i < |list| && list[i] == Replica(PrimaryOf(list).value, true);
      assert Servers(list)[i] == list[i].server;
    }
  }

  lemma GoodMeans(data: Fleet, h: Handle, v: Situation)
    ensures forall s :: s in Good(data, h, v) ==> s in v.alive && s !in v.stale && s in data && h in data[s] && s != 0
  {}

  lemma ListIsDistinct(r: ReplicaMap, h: Handle)
    requires ValidReplicas(r)
    ensures NoDuplicates(ServersAt(r, h))
  {
    assert h in r ==> ValidList(r[h]);
  }

  /** Transferring to a server that held no replica changes nobody else's health. */
  lemma SameGood(data: Fleet, servers: Fleet, before: ReplicaMap, h: Handle, v: Situation)
    requires FleetKept(before, data, servers, h)
    ensures forall s :: s in ServersAt(before, h) ==> (s in Good(servers, h, v) <==> s in Good(data, h, v))
  {
    hide Servers, ListAt;
  }

  lemma NothingLost(r: ReplicaMap, data: Fleet, h: Handle)
    ensures FleetKept(r, data, data, h) && OnlyThisChunk(r, r, data, data, h)
  {
    hide Servers;
  }

  /** Removing the stale replicas starts the copying. */
  lemma StaleRemoved(before: ReplicaMap, trimmed: ReplicaMap, now: ReplicaMap, data: Fleet, h: Handle, v: Situation,
                     source: ServerId, destinations: seq<ServerId>)
    requires Trimmed(before, trimmed, Good(data, h, v), h, v)
    requires forall s :: s in ServersAt(now, h) <==> s in ServersAt(trimmed, h) && !(s in ServersAt(before, h) && s in v.stale)
    requires forall k :: k != h ==> ListAt(now, k) == ListAt(trimmed, k)
    requires PrimaryPassed(trimmed, now, h, Elements(ServersAt(before, h)) * v.stale)
    ensures Refilling(before, now, data, data, h, v, source, destinations, 0)
    ensures Added(before, now, h) == {}
  {
    GoodMeans(data, h, v);
    PrimaryIsHealthy(before, trimmed, Good(data, h, v), h);
    hide Servers, ListAt, PrimaryOf, Good, Only;
  }

  lemma AddedGrows(before: ReplicaMap, now: ReplicaMap, next: ReplicaMap, h: Handle, d: ServerId)
    requires ServersAt(next, h) == ServersAt(now, h) + [d] && d !in ServersAt(before, h)
    ensures Added(before, next, h) != {}
  {
    hide Servers, ListAt;
    assert d in ServersAt(next, h);
    assert d in Added(before, next, h);
  }

  lemma TrimmedFacts(before: ReplicaMap, now: ReplicaMap, data: Fleet, h: Handle, v: Situation)
    requires Trimmed(before, now, Good(data, h, v), h, v)
    ensures forall s :: s in Only(ServersAt(now, h), Good(data, h, v)) <==> s in Only(ServersAt(before, h), Good(data, h, v))
    ensures forall s :: s in ServersAt(now, h) && s in Good(data, h, v) ==>
              s in Only(ServersAt(before, h), Good(data, h, v)) && s in ServersAt(before, h) && s in data && h in data[s]
  {
    OnlyMeans(ServersAt(now, h), Good(data, h, v));
    OnlyMeans(ServersAt(before, h), Good(data, h, v));
    GoodMeans(data, h, v);
    hide Servers, ListAt, PrimaryOf, Good, Only;
  }

  lemma SamePrimary(before: ReplicaMap, now: ReplicaMap, next: ReplicaMap, good: set<ServerId>, h: Handle)
    requires HealthyPrimary(before, now, good, h) && PrimaryAt(next, h) == PrimaryAt(now, h)
    ensures HealthyPrimary(before, next, good, h)
  {
    hide Servers, ListAt, PrimaryOf, Only;
  }

  /** One more copy. */
  lemma OneMoreCopy(before: ReplicaMap, now: ReplicaMap, next: ReplicaMap, data: Fleet, servers: Fleet, h: Handle, v: Situation,
                    source: ServerId, destinations: seq<ServerId>, i: nat)
    requires i < |destinations| && Refilling(before, now, data, servers, h, v, source, destinations, i)
    requires var d := destinations[i];
             && d in v.live && d in v.alive && d in servers && d !in ServersAt(before, h)
             && source in servers && h in servers[source] && source in ServersAt(before, h) && source != d
             && ServersAt(next, h) == ServersAt(now, h) + [d]
             && PrimaryAt(next, h) == PrimaryAt(now, h)
             && forall k :: k != h ==> ListAt(next, k) == ListAt(now, k)
    ensures var d := destinations[i];
            Refilling(before, next, data, Transferred(servers, source, d, h), h, v, source, destinations, i + 1)
  {
    var d := destinations[i];
    var servers' := Transferred(servers, source, d, h);
    hide Servers, ListAt, PrimaryOf, Good, Only, HealthyPrimary;
    SamePrimary(before, now, next, Good(data, h, v), h);
    assert destinations[..i + 1] == destinations[..i] + [d];
    assert servers'[d] - {h} == servers[d] - {h};
    assert servers[source] == data[source];
    forall s | s in ServersAt(next, h)
      ensures (s in ServersAt(before, h) && s in v.alive && s !in v.stale)
           || (s in destinations[..i + 1] && s !in ServersAt(before, h) && Copied(data, servers', h, v, s, source))
    {}
  }

  lemma OneSkipped(before: ReplicaMap, now: ReplicaMap, data: Fleet, servers: Fleet, h: Handle, v: Situation,
                   source: ServerId, destinations: seq<ServerId>, i: nat, j: nat)
    requires i <= j <= |destinations| && Refilling(before, now, data, servers, h, v, source, destinations, i)
    ensures Refilling(before, now, data, servers, h, v, source, destinations, j)
  {
    hide Servers, ListAt, PrimaryOf, Good, Copied, OnlyThisChunk, HealthyPrimary;
    assert destinations[..j] == destinations[..i] + destinations[i..j];
  }

  /** When the copying stops, the recovery is as it should be. */
  lemma RefillDone(before: ReplicaMap, now: ReplicaMap, data: Fleet, servers: Fleet, h: Handle, v: Situation,
                   source: ServerId, destinations: seq<ServerId>, missing: nat)
    requires Refilling(before, now, data, servers, h, v, source, destinations, |destinations|)
    requires ValidReplicas(before) && ValidReplicas(now)
    requires var healthy := Only(ServersAt(before, h), Good(data, h, v));
             source in healthy && |destinations| <= missing && |healthy| + missing <= (if v.desired < |healthy| then |healthy| else v.desired)
    ensures Recovered(before, now, data, servers, h, v, source)
    ensures Added(before, now, h) == {} ==>
              |Only(ServersAt(now, h), Good(servers, h, v))| == |Only(ServersAt(before, h), Good(data, h, v))|
  {
    hide *;
    RefilledLists(before, now, data, servers, h, v, source, destinations);
    if Added(before, now, h) == {} {
      NoneAddedNoneHealed(before, now, data, servers, h, v, source, destinations);
    }
    IsRecovered(before, now, data, servers, h, v, source);
  }

  lemma IsRecovered(before: ReplicaMap, now: ReplicaMap, data: Fleet, servers: Fleet, h: Handle, v: Situation, source: ServerId)
    requires KeepsCurrent(before, now, h, v) && HealthyPrimary(before, now, Good(data, h, v), h)
    requires var healthy := Only(ServersAt(before, h), Good(data, h, v));
             && (forall s :: s in Added(before, now, h) ==> Copied(data, servers, h, v, s, source)) && source in healthy
             && |healthy| + |Added(before, now, h)| <= (if v.desired < |healthy| then |healthy| else v.desired)
    ensures Recovered(before, now, data, servers, h, v, source)
  {
    hide Servers, ListAt, PrimaryOf, Good, Only, KeepsCurrent, HealthyPrimary, Copied, Added;
  }

  lemma RefilledLists(before: ReplicaMap, now: ReplicaMap, data: Fleet, servers: Fleet, h: Handle, v: Situation,
                      source: ServerId, destinations: seq<ServerId>)
    requires Refilling(before, now, data, servers, h, v, source, destinations, |destinations|)
    ensures KeepsCurrent(before, now, h, v) && HealthyPrimary(before, now, Good(data, h, v), h)
    ensures |Added(before, now, h)| <= |destinations|
    ensures forall s :: s in Added(before, now, h) ==> Copied(data, servers, h, v, s, source)
  {
    hide Servers, ListAt, PrimaryOf, Good, HealthyPrimary, Copied, OnlyThisChunk;
    assert destinations[..|destinations|] == destinations;
    forall s | s in Added(before, now, h)
      ensures s in Elements(destinations) && Copied(data, servers, h, v, s, source)
    {
      assert s in ServersAt(now, h) && s !in ServersAt(before, h);
    }
    ElementsCount(destinations);
    SubsetSize(Added(before, now, h), Elements(destinations));
  }

  lemma NoneAddedNoneHealed(before: ReplicaMap, now: ReplicaMap, data: Fleet, servers: Fleet, h: Handle, v: Situation,
                            source: ServerId, destinations: seq<ServerId>)
    requires Refilling(before, now, data, servers, h, v, source, destinations, |destinations|)
    requires ValidReplicas(before) && ValidReplicas(now) && Added(before, now, h) == {}
    ensures |Only(ServersAt(now, h), Good(servers, h, v))| == |Only(ServersAt(before, h), Good(data, h, v))|
  {
    GoodMeans(data, h, v);
    GoodMeans(servers, h, v);
    ListIsDistinct(before, h);
    ListIsDistinct(now, h);
    SameGood(data, servers, before, h, v);
    hide Servers, ListAt, PrimaryOf, Good, ValidReplicas, Only, Copied, HealthyPrimary;
    forall s | s in ServersAt(now, h)
      ensures s in ServersAt(before, h)
    {
      assert s in Elements(ServersAt(now, h));
      assert s !in Added(before, now, h);
    }
    SameCountGood(ServersAt(now, h), ServersAt(before, h), Good(servers, h, v), Good(data, h, v));
  }

  lemma {:induction false} ElementsCount<T>(s: seq<T>)
    ensures |Elements(s)| <= |s|
  {
    if s != [] {
      ElementsCount(s[1..]);
      assert s == [s[0]] + s[1..];
      assert Elements(s) == {s[0]} + Elements(s[1..]);
    }
  }

  lemma SameCountGood(a: seq<ServerId>, b: seq<ServerId>, good: set<ServerId>, good': set<ServerId>)
    requires NoDuplicates(a) && NoDuplicates(b)
    requires forall s :: s in a && s in good <==> s in b && s in good'
    ensures |Only(a, good)| == |Only(b, good')|
  {
    OnlyMeans(a, good);
    OnlyMeans(b, good');
    DistinctCount(Only(a, good));
    DistinctCount(Only(b, good'));
    assert Elements(Only(a, good)) == Elements(Only(b, good'));
  }

  // ----- which servers are added -----

  predicate IsCandidate(candidates: seq<Candidate>, s: ServerId) {
    exists c :: c in candidates && c.server == s
  }

  lemma NextCandidate(candidates: seq<Candidate>, c: Candidate)
    ensures forall s :: IsCandidate(candidates + [c], s) <==> IsCandidate(candidates, s) || s == c.server
  {
    forall s
      ensures IsCandidate(candidates + [c], s) <==> IsCandidate(candidates, s) || s == c.server
    {
      if IsCandidate(candidates, s) {
        var d :| d in candidates && d.server == s;
        assert d in candidates + [c];
      }
      assert c in candidates + [c];
    }
  }

  lemma EligibleAre(candidates: seq<Candidate>, all: set<ServerId>)
    requires forall s :: IsCandidate(candidates, s) <==> s in all
    requires 0 !in all
    ensures Eligible(candidates) == all
  {
    forall s
      ensures s in Eligible(candidates) <==> s in all
    {
      assert IsCandidate(candidates, s) <==> s in all;
      if s in all {
        var c :| c in candidates && c.server == s;
      }
    }
  }

  lemma LightestAre(r: ReplicaMap, candidates: seq<Candidate>, chosen: seq<ServerId>)
    requires LeastLoaded(candidates, chosen) && forall c :: c in candidates ==> c.count == Load(r, c.server)
    ensures forall s, t :: s in chosen && t != 0 && IsCandidate(candidates, t) && t !in chosen ==>
              Load(r, s) < Load(r, t) || (Load(r, s) == Load(r, t) && s <= t)
  {
    hide Load;
    forall s, t | s in chosen && t != 0 && IsCandidate(candidates, t) && t !in chosen
      ensures Load(r, s) < Load(r, t) || (Load(r, s) == Load(r, t) && s <= t)
    {
      var c :| c in candidates && c.server == t;
      assert HasLighter(candidates, s, c);
    }
  }

  /** The dead replicas that have gone before the choice would not have been chosen anyway. */
  lemma SameFresh(before: ReplicaMap, trimmed: ReplicaMap, data: Fleet, h: Handle, v: Situation, destinations: seq<ServerId>, missing: nat)
    requires Trimmed(before, trimmed, Good(data, h, v), h, v)
    requires Chosen(trimmed, data, h, v, destinations, missing)
    ensures Chosen(before, data, h, v, destinations, missing)
    ensures |destinations| <= missing && NoDuplicates(destinations) && forall s :: s in destinations ==> s in Fresh(before, data, h, v)
  {
    hide ListAt, Servers, Good, PrimaryOf;
    assert Fresh(trimmed, data, h, v) == Fresh(before, data, h, v);
  }

  ghost predicate AddedSoFar(before: ReplicaMap, now: ReplicaMap, data: Fleet, h: Handle, v: Situation,
                             source: ServerId, destinations: seq<ServerId>, i: nat)
    requires i <= |destinations|
  {
    forall s :: s in Added(before, now, h) <==> s in destinations[..i] && s !in v.broken && Transferable(data, source, s, h)
  }

  lemma NoneAdded(before: ReplicaMap, now: ReplicaMap, data: Fleet, h: Handle, v: Situation, source: ServerId, destinations: seq<ServerId>)
    requires Added(before, now, h) == {}
    ensures AddedSoFar(before, now, data, h, v, source, destinations, 0)
  {
    hide ListAt, Servers;
  }

  /** No destination has a replica before its turn. */
  lemma NotYetThere(before: ReplicaMap, now: ReplicaMap, data: Fleet, servers: Fleet, h: Handle, v: Situation,
                    source: ServerId, destinations: seq<ServerId>, i: nat)
    requires i < |destinations| && Refilling(before, now, data, servers, h, v, source, destinations, i)
    requires NoDuplicates(destinations) && forall s :: s in destinations ==> s in Fresh(before, data, h, v)
    requires source in ServersAt(before, h) && source in data && h in data[source] && h != 0 && source != 0
    ensures var d := destinations[i];
            && d != 0 && d in v.live && d in v.alive && d in servers && d !in ServersAt(before, h) && d !in ServersAt(now, h) && d != source
            && (Transferable(servers, source, d, h) <==> Transferable(data, source, d, h))
  {
    hide ListAt, Servers, Good, PrimaryOf, Copied, HealthyPrimary;
    var d := destinations[i];
    assert d in destinations;
    assert d !in destinations[..i];
    assert servers[source] == data[source];
  }

  lemma AddedOne(before: ReplicaMap, now: ReplicaMap, next: ReplicaMap, data: Fleet, h: Handle, v: Situation,
                 source: ServerId, destinations: seq<ServerId>, i: nat)
    requires i < |destinations| && AddedSoFar(before, now, data, h, v, source, destinations, i)
    requires var d := destinations[i];
             && ServersAt(next, h) == ServersAt(now, h) + [d] && d !in ServersAt(before, h)
             && d !in v.broken && Transferable(data, source, d, h)
    ensures AddedSoFar(before, next, data, h, v, source, destinations, i + 1)
  {
    hide ListAt, Servers, Transferable;
    var d := destinations[i];
    assert destinations[..i + 1] == destinations[..i] + [d];
    assert Added(before, next, h) == Added(before, now, h) + {d};
  }

  lemma AddedNone(before: ReplicaMap, now: ReplicaMap, data: Fleet, h: Handle, v: Situation,
                  source: ServerId, destinations: seq<ServerId>, i: nat)
    requires i < |destinations| && AddedSoFar(before, now, data, h, v, source, destinations, i)
    requires var d := destinations[i]; d in v.broken || !Transferable(data, source, d, h)
    ensures AddedSoFar(before, now, data, h, v, source, destinations, i + 1)
  {
    hide ListAt, Servers, Transferable;
    assert destinations[..i + 1] == destinations[..i] + [destinations[i]];
  }

  /** After i turns at most i replicas more are healthy than at the start. */
  lemma HealthyBound(before: ReplicaMap, now: ReplicaMap, data: Fleet, servers: Fleet, h: Handle, v: Situation,
                     source: ServerId, destinations: seq<ServerId>, i: nat)
    requires i <= |destinations| && Refilling(before, now, data, servers, h, v, source, destinations, i)
    requires ValidReplicas(before) && ValidReplicas(now)
    ensures |Only(ServersAt(now, h), Good(servers, h, v))| <= |Only(ServersAt(before, h), Good(data, h, v))| + i
  {
    SameGood(data, servers, before, h, v);
    ListIsDistinct(before, h);
    ListIsDistinct(now, h);
    var a, b := ServersAt(before, h), ServersAt(now, h);
    OnlyMeans(a, Good(data, h, v));
    OnlyMeans(b, Good(servers, h, v));
    hide ListAt, Servers, Good, PrimaryOf, Only, Copied, HealthyPrimary, ValidReplicas;
    var old_, new_ := Only(a, Good(data, h, v)), Only(b, Good(servers, h, v));
    assert Elements(new_) <= Elements(old_) + Elements(destinations[..i]);
    SubsetSize(Elements(new_), Elements(old_) + Elements(destinations[..i]));
    ElementsCount(destinations[..i]);
    DistinctCount(old_);
    DistinctCount(new_);
    UnionSize(Elements(old_), Elements(destinations[..i]));
  }

  lemma UnionSize<T>(a: set<T>, b: set<T>)
    ensures |a + b| <= |a| + |b|
  {}

  lemma NothingMissing(before: ReplicaMap, now: ReplicaMap, data: Fleet, h: Handle, v: Situation, source: ServerId, healthy: nat)
    requires healthy >= v.desired && Added(before, now, h) == {}
    ensures Refilled(before, now, data, h, v, source, [], Missing(healthy, v.desired))
  {
    hide ListAt, Servers;
  }

  lemma NothingChosen(before: ReplicaMap, now: ReplicaMap, data: Fleet, h: Handle, v: Situation, source: ServerId, healthy: nat,
                      destinations: seq<ServerId>)
    requires healthy < v.desired && Added(before, now, h) == {} && destinations == []
    requires Chosen(before, data, h, v, destinations, v.desired - healthy)
    ensures Refilled(before, now, data, h, v, source, destinations, Missing(healthy, v.desired))
  {
    hide ListAt, Servers, Chosen;
  }

  lemma AllChosenAdded(before: ReplicaMap, now: ReplicaMap, data: Fleet, h: Handle, v: Situation, source: ServerId, healthy: nat,
                       destinations: seq<ServerId>)
    requires healthy < v.desired && AddedSoFar(before, now, data, h, v, source, destinations, |destinations|)
    requires Chosen(before, data, h, v, destinations, v.desired - healthy)
    ensures Refilled(before, now, data, h, v, source, destinations, Missing(healthy, v.desired))
  {
    hide ListAt, Servers, Chosen, Transferable;
    assert destinations[..|destinations|] == destinations;
  }

  /** What a recovery with at least one copy to make has done when it ends. */
  lemma CopyingEnds(before: ReplicaMap, now: ReplicaMap, data: Fleet, servers: Fleet, h: Handle, v: Situation, source: ServerId,
                    destinations: seq<ServerId>, healthy: nat)
    requires Refilling(before, now, data, servers, h, v, source, destinations, |destinations|)
    requires AddedSoFar(before, now, data, h, v, source, destinations, |destinations|)
    requires ValidReplicas(before) && ValidReplicas(now)
    requires healthy == |Only(ServersAt(before, h), Good(data, h, v))| < v.desired
    requires Chosen(before, data, h, v, destinations, v.desired - healthy) && |destinations| <= v.desired - healthy
    requires source in Only(ServersAt(before, h), Good(data, h, v))
    ensures Recovered(before, now, data, servers, h, v, source) && OnlyThisChunk(before, now, data, servers, h)
    ensures Refilled(before, now, data, h, v, source, destinations, Missing(healthy, v.desired))
    ensures Added(before, now, h) == {} ==> |Only(ServersAt(now, h), Good(servers, h, v))| < v.desired
  {
    hide *;
    RefillDone(before, now, data, servers, h, v, source, destinations, v.desired - healthy);
    RecoveredOnlyThis(before, now, data, servers, h, v, source, destinations);
    AllChosenAdded(before, now, data, h, v, source, healthy, destinations);
  }

  lemma NothingToCopy(before: ReplicaMap, now: ReplicaMap, data: Fleet, h: Handle, v: Situation, source: ServerId, healthy: nat)
    requires Refilling(before, now, data, data, h, v, source, [], 0) && Added(before, now, h) == {}
    requires ValidReplicas(before) && ValidReplicas(now)
    requires healthy == |Only(ServersAt(before, h), Good(data, h, v))| < v.desired
    requires Chosen(before, data, h, v, [], v.desired - healthy)
    requires source in Only(ServersAt(before, h), Good(data, h, v))
    ensures Recovered(before, now, data, data, h, v, source) && OnlyThisChunk(before, now, data, data, h)
    ensures Refilled(before, now, data, h, v, source, [], Missing(healthy, v.desired))
  {
    hide *;
    RefillDone(before, now, data, data, h, v, source, [], v.desired - healthy);
    RecoveredOnlyThis(before, now, data, data, h, v, source, []);
    NothingChosen(before, now, data, h, v, source, healthy, []);
  }

  /** All or nothing: with fewer fresh servers than missing replicas not one copy is made.  With
      enough of them, all reachable, the chunk gets back exactly its factor. */
  lemma FactorReachedIff(before: ReplicaMap, now: ReplicaMap, data: Fleet, h: Handle, v: Situation, source: ServerId,
                         destinations: seq<ServerId>)
    requires var healthy := |Only(ServersAt(before, h), Good(data, h, v))|;
             healthy < v.desired && Refilled(before, now, data, h, v, source, destinations, Missing(healthy, v.desired))
    requires source in ServersAt(before, h) && source != 0 && h != 0 && source in data && h in data[source] && |data[source][h]| <= CHUNK_SIZE
    requires v.broken !! Fresh(before, data, h, v)
    ensures var healthy, available := |Only(ServersAt(before, h), Good(data, h, v))|, |Fresh(before, data, h, v)|;
            && (healthy + |Added(before, now, h)| == v.desired <==> v.desired - healthy <= available)
            && (v.desired - healthy > available ==> Added(before, now, h) == {})
  {
    hide ListAt, Servers, Added, Only, Good;
    assert forall s :: s in destinations ==> s in Fresh(before, data, h, v) && s != source && Transferable(data, source, s, h);
    assert Added(before, now, h) == Elements(destinations);
    DistinctCount(destinations);
  }

  class ReReplicationManager {
    const manager: Manager.ReplicaManager
    var servers: Fleet

    constructor (manager: Manager.ReplicaManager, servers: Fleet)
      ensures this.manager == manager && this.servers == servers
    {
      this.manager, this.servers := manager, servers;
    }

    method IsHealthyCurrentReplica(h: Handle, s: ServerId, v: Situation) returns (healthy: bool)
      requires h != 0
      ensures healthy <==> s in Good(servers, h, v)
    {
      if s == 0 || s !in v.alive || s in v.stale || s !in servers {
        return false;
      }
      healthy := h in servers[s];
    }

    method GetHealthyCurrentReplicas(h: Handle, v: Situation) returns (healthy: seq<ServerId>)
      requires h != 0
      ensures healthy == Only(ServersAt(manager.replicas, h), Good(servers, h, v))
    {
      var list := ServersAt(manager.replicas, h);
      healthy := [];
      assert list[0..] == list;
      hide Good, Servers, ListAt;
      for i := 0 to |list|
        invariant Only(list, Good(servers, h, v)) == healthy + Only(list[i..], Good(servers, h, v))
      {
        assert list[i..][1..] == list[i + 1..];
        var good := IsHealthyCurrentReplica(h, list[i], v);
        if good {
          healthy := healthy + [list[i]];
        }
      }
      assert list[|list|..] == [];
      assert healthy + [] == healthy;
    }

    /** Removes the listed servers that are unwanted; whoever is to be kept stays in order. */
    method RemoveEach(h: Handle, list: seq<ServerId>, unwanted: set<ServerId>, ghost kept: set<ServerId>)
      requires manager.Valid() && kept !! unwanted
      modifies manager
      ensures manager.Valid()
      ensures forall s :: s in ServersAt(manager.replicas, h) <==>
                s in ServersAt(old(manager.replicas), h) && !(s in list && s in unwanted)
      ensures Only(ServersAt(manager.replicas, h), kept) == Only(ServersAt(old(manager.replicas), h), kept)
      ensures forall k :: k != h ==> ListAt(manager.replicas, k) == ListAt(old(manager.replicas), k)
      ensures PrimaryPassed(old(manager.replicas), manager.replicas, h, Elements(list) * unwanted)
    {
      ghost var before := manager.replicas;
      hide *;
      NobodyLeft(before, h, kept);
      NoneOf(unwanted);
      for i := 0 to |list|
        invariant manager.Valid()
        invariant Left(before, manager.replicas, h, Elements(list[..i]) * unwanted, kept)
      {
        assert list[..i + 1] == list[..i] + [list[i]];
        ElementsOfMore(list[..i], list[i], unwanted);
        if list[i] in unwanted {
          ValidIs();
          RemovalStep(before, manager.replicas, h, list[i], Elements(list[..i]) * unwanted, kept);
          var _ := manager.RemoveReplica(h, list[i]);
        }
      }
      assert list[..|list|] == list;
      WhoIsLeft(before, manager.replicas, h, list, unwanted, kept);
    }

    method FindRecoverySource(h: Handle, v: Situation) returns (source: Option<ServerId>)
      requires manager.Valid() && h != 0
      ensures var healthy, primary := Only(ServersAt(manager.replicas, h), Good(servers, h, v)), PrimaryAt(manager.replicas, h);
              source == if primary != None && primary.value in Good(servers, h, v) then primary
                        else if healthy == [] then None else Some(healthy[0])
      ensures source == None <==> Only(ServersAt(manager.replicas, h), Good(servers, h, v)) == []
      ensures source != None ==> source.value in ServersAt(manager.replicas, h) && source.value in Good(servers, h, v)
    {
      var healthy := GetHealthyCurrentReplicas(h, v);
      OnlyMeans(ServersAt(manager.replicas, h), Good(servers, h, v));
      PrimaryIsListed(manager.replicas, h);
      var primary := manager.GetPrimary(h);
      hide Good, Servers, ListAt, PrimaryOf, Only;
      if primary != None {
        var good := IsHealthyCurrentReplica(h, primary.value, v);
        if good {
          return primary;
        }
      }
      if healthy == [] {
        return None;
      }
      assert healthy[0] in healthy;
      return Some(healthy[0]);
    }

    /** The servers to copy to: live, reachable, without a replica, the least loaded first, and as
        many as are missing - or none. */
    method GetRecoveryDestinations(h: Handle, v: Situation, needed: nat) returns (destinations: seq<ServerId>)
      requires needed > 0
      ensures Chosen(manager.replicas, servers, h, v, destinations, needed)
      ensures forall s, t :: s in destinations && t in Fresh(manager.replicas, servers, h, v) && t !in destinations ==>
                Load(manager.replicas, s) < Load(manager.replicas, t) || (Load(manager.replicas, s) == Load(manager.replicas, t) && s <= t)
    {
      var excluded := ServersAt(manager.replicas, h);
      var candidates: seq<Candidate> := [];
      hide Servers, ListAt, Load, LeastLoaded, Eligible;
      for i := 0 to |v.live|
        invariant forall c :: c in candidates ==> c.server in v.live && c.count == Load(manager.replicas, c.server)
        invariant forall s :: IsCandidate(candidates, s) <==> s in v.live[..i] && s != 0 && s in v.alive && s in servers && s !in excluded
      {
        var s := v.live[i];
        assert v.live[..i + 1] == v.live[..i] + [s];
        if s != 0 && s !in excluded && s in v.alive && s in servers {
          NextCandidate(candidates, Candidate(s, Load(manager.replicas, s)));
          candidates := candidates + [Candidate(s, Load(manager.replicas, s))];
        }
      }
      assert v.live[..|v.live|] == v.live;
      EligibleAre(candidates, Fresh(manager.replicas, servers, h, v));
      destinations := SelectReplicas(candidates, needed, 0);
      LightestAre(manager.replicas, candidates, destinations);
    }

    /** Copies the chunk's bytes; whatever the destination had for the handle is replaced. */
    method TransferReplica(h: Handle, source: ServerId, destination: ServerId, works: bool) returns (ok: bool)
      modifies this`servers
      ensures ok <==> works && Transferable(old(servers), source, destination, h)
      ensures ok ==> servers == Transferred(old(servers), source, destination, h)
      ensures !ok ==> servers == old(servers)
    {
      if h == 0 || source == 0 || destination == 0 || source == destination || source !in servers || destination !in servers {
        return false;
      }
      if h !in servers[source] || !works || |servers[source][h]| > CHUNK_SIZE {
        return false;
      }
      servers := Transferred(servers, source, destination, h);
      ok := true;
    }

    /** From the state without dead replicas on: drop the stale ones and copy to new servers. */
    method Refill(h: Handle, v: Situation, original: seq<ServerId>, healthy: seq<ServerId>, ghost before: ReplicaMap, ghost data: Fleet)
      returns (ok: bool, ghost source: ServerId, ghost destinations: seq<ServerId>)
      requires manager.Valid() && h != 0 && ValidReplicas(before) && original == ServersAt(before, h)
      requires data == servers && Trimmed(before, manager.replicas, Good(data, h, v), h, v)
      requires healthy == Only(ServersAt(manager.replicas, h), Good(servers, h, v)) && healthy != []
      requires |healthy| == |Only(original, Good(data, h, v))|
      modifies this`servers, manager
      ensures manager.Valid()
      ensures Recovered(before, manager.replicas, data, servers, h, v, source)
      ensures OnlyThisChunk(before, manager.replicas, data, servers, h)
      ensures Refilled(before, manager.replicas, data, h, v, source, destinations, Missing(|healthy|, v.desired))
      ensures ok <==> |healthy| >= v.desired || Added(before, manager.replicas, h) != {}
    {
      ghost var trimmed := manager.replicas;
      hide *;
      ValidIs();
      TrimmedFacts(before, trimmed, data, h, v);
      assert healthy[0] in healthy;
      source := healthy[0];
      OnlyMeans(ServersAt(trimmed, h), Good(data, h, v));
      destinations := [];
      if |healthy| >= v.desired {
        RemoveEach(h, original, v.stale, Good(data, h, v));
        ValidIs();
        StaleRemoved(before, trimmed, manager.replicas, data, h, v, source, []);
        RefillDone(before, manager.replicas, data, servers, h, v, source, [], 0);
        RecoveredOnlyThis(before, manager.replicas, data, servers, h, v, source, []);
        NothingMissing(before, manager.replicas, data, h, v, source, |healthy|);
        return true, source, destinations;
      }
      ok, source, destinations := Replenish(h, v, original, healthy, before, data);
    }

    /** Too few replicas are healthy: choose destinations, drop the stale replicas and copy. */
    method Replenish(h: Handle, v: Situation, original: seq<ServerId>, healthy: seq<ServerId>, ghost before: ReplicaMap, ghost data: Fleet)
      returns (ok: bool, ghost source: ServerId, ghost destinations: seq<ServerId>)
      requires manager.Valid() && h != 0 && ValidReplicas(before) && original == ServersAt(before, h)
      requires data == servers && Trimmed(before, manager.replicas, Good(data, h, v), h, v)
      requires healthy == Only(ServersAt(manager.replicas, h), Good(servers, h, v)) && healthy != []
      requires |healthy| == |Only(original, Good(data, h, v))| < v.desired
      modifies this`servers, manager
      ensures manager.Valid()
      ensures Recovered(before, manager.replicas, data, servers, h, v, source)
      ensures OnlyThisChunk(before, manager.replicas, data, servers, h)
      ensures Refilled(before, manager.replicas, data, h, v, source, destinations, Missing(|healthy|, v.desired))
      ensures ok <==> Added(before, manager.replicas, h) != {}
    {
      hide *;
      ghost var trimmed := manager.replicas;
      TrimmedFacts(before, trimmed, data, h, v);
      GoodMeans(data, h, v);
      source, destinations := 0, [];
      var from := FindRecoverySource(h, v);
      if from == None {
        assert false;
        return false, source, destinations;
      }
      source := from.value;
      var needed := v.desired - |healthy|;
      var chosen := GetRecoveryDestinations(h, v, needed);
      destinations := chosen;
      SameFresh(before, trimmed, data, h, v, chosen, needed);
      RemoveEach(h, original, v.stale, Good(data, h, v));
      ValidIs();
      StaleRemoved(before, trimmed, manager.replicas, data, h, v, source, chosen);
      if chosen == [] {
        NothingToCopy(before, manager.replicas, data, h, v, source, |healthy|);
        return false, source, destinations;
      }
      var recovered := CopyAll(h, v, chosen, before, data, from.value);
      ValidIs();
      CopyingEnds(before, manager.replicas, data, servers, h, v, source, chosen, |healthy|);
      var now := GetHealthyCurrentReplicas(h, v);
      ok := recovered || |now| >= v.desired;
    }

    lemma ValidIs()
      ensures manager.Valid() <==> ValidReplicas(manager.replicas)
    {
      hide ValidReplicas;
    }

    /** Copies to one destination after the other until enough replicas are healthy - which is not
        before the last, because no more were chosen than are missing. */
    method CopyAll(h: Handle, v: Situation, destinations: seq<ServerId>, ghost before: ReplicaMap, ghost data: Fleet, source: ServerId)
      returns (recovered: bool)
      requires manager.Valid() && h != 0 && ValidReplicas(before)
      requires Refilling(before, manager.replicas, data, servers, h, v, source, destinations, 0) && Added(before, manager.replicas, h) == {}
      requires source in ServersAt(before, h) && source in data && h in data[source] && source != 0
      requires NoDuplicates(destinations) && forall s :: s in destinations ==> s in Fresh(before, data, h, v)
      requires |Only(ServersAt(before, h), Good(data, h, v))| + |destinations| <= v.desired
      modifies this`servers, manager
      ensures manager.Valid()
      ensures Refilling(before, manager.replicas, data, servers, h, v, source, destinations, |destinations|)
      ensures recovered <==> Added(before, manager.replicas, h) != {}
      ensures AddedSoFar(before, manager.replicas, data, h, v, source, destinations, |destinations|)
    {
      hide *;
      recovered := false;
      var i := 0;
      NoneAdded(before, manager.replicas, data, h, v, source, destinations);
      while i < |destinations|
        invariant i <= |destinations| && manager.Valid()
        invariant Refilling(before, manager.replicas, data, servers, h, v, source, destinations, i)
        invariant AddedSoFar(before, manager.replicas, data, h, v, source, destinations, i)
        invariant recovered <==> Added(before, manager.replicas, h) != {}
      {
        ValidIs();
        HealthyBound(before, manager.replicas, data, servers, h, v, source, destinations, i);
        var current := GetHealthyCurrentReplicas(h, v);
        if |current| >= v.desired {
          assert false;
          return;
        }
        var d := destinations[i];
        RefillingFleet(before, manager.replicas, data, servers, h, v, source, destinations, i);
        NotYetThere(before, manager.replicas, data, servers, h, v, source, destinations, i);
        if d in ServersAt(manager.replicas, h) {
          assert false;
          return;
        }
        ghost var now, fleet := manager.replicas, servers;
        var copied := TransferReplica(h, source, d, d !in v.broken);
        if copied {
          RegisterKeepsValid(now, h, d, false);
          var registered := manager.RegisterReplica(h, d, false);
          if registered {
            recovered := true;
          }
          AddedGrows(before, now, manager.replicas, h, d);
          OneMoreCopy(before, now, manager.replicas, data, fleet, h, v, source, destinations, i);
          AddedOne(before, now, manager.replicas, data, h, v, source, destinations, i);
        } else {
          OneSkipped(before, manager.replicas, data, servers, h, v, source, destinations, i, i + 1);
          AddedNone(before, now, data, h, v, source, destinations, i);
        }
        i := i + 1;
      }
    }

    /** Removes dead replicas, moves the primary to a healthy one, removes stale replicas, and copies
        the chunk to new servers until enough are healthy. */
    method RecoverChunk(h: Handle, known: bool, v: Situation)
      returns (ok: bool, ghost source: ServerId, ghost destinations: seq<ServerId>)
      requires manager.Valid()
      modifies this`servers, manager
      ensures h == 0 || !known ==> !ok && manager.replicas == old(manager.replicas) && servers == old(servers)
      ensures h != 0 && known ==>
                var healthy := Only(ServersAt(old(manager.replicas), h), Good(old(servers), h, v));
                if healthy == [] then
                  !ok && servers == old(servers)
                  && forall s :: s in ServersAt(manager.replicas, h) <==> s in ServersAt(old(manager.replicas), h) && s in v.alive && s !in v.stale
                else
                  Recovered(old(manager.replicas), manager.replicas, old(servers), servers, h, v, source)
                  && Refilled(old(manager.replicas), manager.replicas, old(servers), h, v, source, destinations, Missing(|healthy|, v.desired))
                  && (ok <==> |healthy| >= v.desired || Added(old(manager.replicas), manager.replicas, h) != {})
      ensures OnlyThisChunk(old(manager.replicas), manager.replicas, old(servers), servers, h)
      ensures manager.Valid()
    {
      hide *;
      ghost var before, data := manager.replicas, servers;
      NothingLost(before, data, h);
      source, destinations := 0, [];
      if h == 0 || !known {
        return false, source, destinations;
      }
      ValidIs();
      var original := ServersAt(manager.replicas, h);
      var dead := set s | s in original && s !in v.alive;
      GoodMeans(data, h, v);
      DeadAre(original, v.alive);
      RemoveEach(h, original, dead, Good(data, h, v));
      ValidIs();
      DeadRemoved(before, manager.replicas, data, h, v);
      var healthy := GetHealthyCurrentReplicas(h, v);
      if healthy == [] {
        RemoveEach(h, original, v.stale, {});
        OnlyLists(before, manager.replicas, data, h);
        return false, source, destinations;
      }
      assert healthy[0] in healthy;
      FixPrimary(h, v, healthy, before);
      ok, source, destinations := Refill(h, v, original, healthy, before, data);
    }

    /** Makes the first healthy replica primary, unless the primary is healthy already. */
    method FixPrimary(h: Handle, v: Situation, healthy: seq<ServerId>, ghost before: ReplicaMap)
      requires manager.Valid() && h != 0
      requires healthy == Only(ServersAt(manager.replicas, h), Good(servers, h, v)) && healthy != []
      requires forall s :: s in ServersAt(manager.replicas, h) <==> s in ServersAt(before, h) && s in v.alive
      requires forall k :: k != h ==> ListAt(manager.replicas, k) == ListAt(before, k)
      requires healthy == Only(ServersAt(before, h), Good(servers, h, v))
      requires PrimaryPassed(before, manager.replicas, h, set s | s in ServersAt(before, h) && s !in v.alive)
      modifies manager
      ensures ServersAt(manager.replicas, h) == ServersAt(old(manager.replicas), h)
      ensures Trimmed(before, manager.replicas, Good(servers, h, v), h, v)
      ensures manager.Valid()
    {
      hide *;
      ValidIs();
      ghost var now, good := manager.replicas, Good(servers, h, v);
      OnlyMeans(ServersAt(now, h), good);
      assert healthy[0] in healthy;
      SetPrimaryKeepsValid(now, h, healthy[0]);
      NewPrimary(before, now, servers, h, v);
      var primary := manager.GetPrimary(h);
      if primary != None {
        var fine := IsHealthyCurrentReplica(h, primary.value, v);
        if fine {
          IsTrimmed(before, manager.replicas, good, h, v);
          return;
        }
      }
      var _ := manager.SetPrimary(h, healthy[0]);
      FirstIsPrimary(before, manager.replicas, good, h);
      IsTrimmed(before, manager.replicas, good, h, v);
    }
  }

  lemma FirstIsPrimary(before: ReplicaMap, now: ReplicaMap, good: set<ServerId>, h: Handle)
    requires Only(ServersAt(before, h), good) != [] && PrimaryAt(now, h) == Some(Only(ServersAt(before, h), good)[0])
    requires PrimaryAt(before, h) == None || PrimaryAt(before, h).value !in good
    ensures HealthyPrimary(before, now, good, h)
  {}

  lemma DeadAre(list: seq<ServerId>, alive: set<ServerId>)
    ensures var dead := set s | s in list && s !in alive; Elements(list) * dead == dead
  {}

  /** After the dead replicas have gone: if the primary is healthy it is the old one or the first
      healthy replica; if not, the old one was not healthy. */
  lemma NewPrimary(before: ReplicaMap, now: ReplicaMap, data: Fleet, h: Handle, v: Situation)
    requires var good := Good(data, h, v);
             && Only(ServersAt(now, h), good) == Only(ServersAt(before, h), good) != []
             && PrimaryPassed(before, now, h, set s | s in ServersAt(before, h) && s !in v.alive)
    ensures var good, p := Good(data, h, v), PrimaryAt(now, h);
            if p != None && p.value in good then HealthyPrimary(before, now, good, h)
            else PrimaryAt(before, h) == None || PrimaryAt(before, h).value !in good
  {
    GoodMeans(data, h, v);
    hide Good, ListAt, Servers, PrimaryOf;
  }

  lemma IsTrimmed(before: ReplicaMap, now: ReplicaMap, good: set<ServerId>, h: Handle, v: Situation)
    requires forall s :: s in ServersAt(now, h) <==> s in ServersAt(before, h) && s in v.alive
    requires forall k :: k != h ==> ListAt(now, k) == ListAt(before, k)
    requires HealthyPrimary(before, now, good, h)
    ensures Trimmed(before, now, good, h, v)
  {
    hide Servers, ListAt, HealthyPrimary;
  }

  lemma DeadRemoved(before: ReplicaMap, now: ReplicaMap, data: Fleet, h: Handle, v: Situation)
    requires ValidReplicas(before) && ValidReplicas(now)
    requires forall s :: s in ServersAt(now, h) <==>
               s in ServersAt(before, h) && !(s in ServersAt(before, h) && s in set x | x in ServersAt(before, h) && x !in v.alive)
    ensures forall s :: s in ServersAt(now, h) <==> s in ServersAt(before, h) && s in v.alive
    ensures var good := Good(data, h, v);
            |Only(ServersAt(now, h), good)| == |Only(ServersAt(before, h), good)|
  {
    GoodMeans(data, h, v);
    ListIsDistinct(before, h);
    ListIsDistinct(now, h);
    hide Servers, ListAt, Good, ValidReplicas, Only;
    SameCountGood(ServersAt(now, h), ServersAt(before, h), Good(data, h, v), Good(data, h, v));
  }

  lemma OnlyLists(before: ReplicaMap, now: ReplicaMap, data: Fleet, h: Handle)
    requires forall k :: k != h ==> ListAt(now, k) == ListAt(before, k)
    ensures OnlyThisChunk(before, now, data, data, h)
  {
    hide Servers, ListAt;
  }

  lemma RecoveredOnlyThis(before: ReplicaMap, now: ReplicaMap, data: Fleet, servers: Fleet, h: Handle, v: Situation,
                          source: ServerId, destinations: seq<ServerId>)
    requires Refilling(before, now, data, servers, h, v, source, destinations, |destinations|)
    ensures OnlyThisChunk(before, now, data, servers, h)
  {
    hide OnlyThisChunk, HealthyPrimary, Copied;
  }

  lemma RefillingFleet(before: ReplicaMap, now: ReplicaMap, data: Fleet, servers: Fleet, h: Handle, v: Situation,
                       source: ServerId, destinations: seq<ServerId>, i: nat)
    requires i <= |destinations| && Refilling(before, now, data, servers, h, v, source, destinations, i)
    requires source in ServersAt(before, h) && source in data && h in data[source]
    ensures servers.Keys == data.Keys && source in servers && h in servers[source]
  {
    hide Servers, ListAt, HealthyPrimary, Copied;
  }
}
