// Moving replicas from the fullest to the emptiest server.

module Rebalancer {
  // The plan is computed from counts that do not change while it is made, so source and destination
  // stay the same in every round.

  import opened Bytes
  import opened Sorting
  import opened ChunkTables
  import opened Replicas
  import opened Placement
  import opened ReReplication

  datatype Move = Move(handle: Handle, source: ServerId, destination: ServerId)

  /** What the master knows: the live servers, those alive now, those it can reach, and the stale
      replicas. */
  datatype Cluster = Cluster(live: seq<ServerId>, alive: set<ServerId>, reachable: set<ServerId>, stale: set<(Handle, ServerId)>)

  predicate EligibleSource(r: ReplicaMap, c: Cluster, h: Handle, s: ServerId) {
    h != 0 && s != 0 && s in c.alive && s in ServersAt(r, h) && (h, s) !in c.stale && s in c.reachable
  }

  predicate EligibleDestination(r: ReplicaMap, c: Cluster, h: Handle, s: ServerId) {
    h != 0 && s != 0 && s in c.alive && s in c.reachable && s !in ServersAt(r, h)
  }

  /** A primary is moved only if it is the chunk's only replica. */
  predicate Movable(r: ReplicaMap, c: Cluster, m: Move) {
    && EligibleSource(r, c, m.handle, m.source)
    && EligibleDestination(r, c, m.handle, m.destination)
    && !(PrimaryAt(r, m.handle) == Some(m.source) && |ListAt(r, m.handle)| > 1)
  }

  function ChunksOn(r: ReplicaMap, s: ServerId): set<Handle> {
    set h | h in r && s in Servers(r[h])
  }

  predicate Ascending(a: Handle, b: Handle) {
    a <= b
  }

  ghost predicate StrictlyAscending(handles: seq<Handle>) {
    forall i, j :: 0 <= i < j < |handles| ==> handles[i] < handles[j]
  }

  function Handles(moves: seq<Move>): (r: seq<Handle>)
    ensures |r| == |moves|
  {
    seq(|moves|, i requires 0 <= i < |moves| => moves[i].handle)
  }

  // ----- the plan -----

  /** The heaviest of the servers, the smallest number first; and the lightest likewise. */
  ghost predicate Heaviest(r: ReplicaMap, servers: seq<ServerId>, s: ServerId) {
    s in servers && forall x :: x in servers ==> Load(r, x) < Load(r, s) || (Load(r, x) == Load(r, s) && s <= x)
  }

  ghost predicate Lightest(r: ReplicaMap, servers: seq<ServerId>, s: ServerId) {
    s in servers && forall x :: x in servers ==> Load(r, s) < Load(r, x) || (Load(r, x) == Load(r, s) && s <= x)
  }

  /** A plan: if the heaviest server has at least two chunks more than the lightest, every chunk that
      can be moved from the one to the other, each once, in ascending order; else nothing. */
  ghost predicate IsPlan(r: ReplicaMap, c: Cluster, servers: seq<ServerId>, moves: seq<Move>, source: ServerId, destination: ServerId) {
    && Heaviest(r, servers, source) && Lightest(r, servers, destination)
    && (forall m :: m in moves ==> m.source == source && m.destination == destination && Movable(r, c, m))
    && StrictlyAscending(Handles(moves))
    && if source != destination && Load(r, source) > Load(r, destination) + 1
       then forall h :: h in ChunksOn(r, source) && Movable(r, c, Move(h, source, destination)) ==> h in Handles(moves)
       else moves == []
  }

  ghost predicate Candidates(c: Cluster, servers: seq<ServerId>) {
    forall s :: s in servers <==> s != 0 && s in c.live && s in c.reachable && s in c.alive
  }

  /** With fewer than two candidates nothing is planned. */
  ghost predicate Plans(r: ReplicaMap, c: Cluster, servers: seq<ServerId>, moves: seq<Move>, source: ServerId, destination: ServerId) {
    if |servers| < 2 then moves == [] else IsPlan(r, c, servers, moves, source, destination)
  }

  lemma AscendingIsTotal()
    ensures TotalPreorder(Ascending)
  {}

  method GetChunksForServer(r: ReplicaMap, s: ServerId) returns (handles: seq<Handle>)
    ensures StrictlyAscending(handles) && Elements(handles) == ChunksOn(r, s) && |handles| == Load(r, s)
  {
    hide Servers;
    handles := [];
    var rest := ChunksOn(r, s);
    while rest != {}
      invariant rest <= ChunksOn(r, s)
      invariant NoDuplicates(handles) && Elements(handles) == ChunksOn(r, s) - rest
      decreases rest
    {
      var h :| h in rest;
      assert h !in Elements(handles);
      NoDuplicatesSnoc(handles, h);
      assert Elements(handles + [h]) == Elements(handles) + {h};
      handles := handles + [h];
      rest := rest - {h};
    }
    AscendingIsTotal();
    var sorted := Sort(handles, Ascending);
    SortedDistinct(handles, sorted);
    handles := sorted;
    DistinctCount(handles);
    LoadIs(r, s);
  }

  lemma LoadIs(r: ReplicaMap, s: ServerId)
    ensures Load(r, s) == |ChunksOn(r, s)|
  {
    assert ChunksOn(r, s) == set h | h in r && s in Servers(r[h]);
  }

  lemma SortedDistinct(s: seq<Handle>, t: seq<Handle>)
    requires multiset(s) == multiset(t) && NoDuplicates(s) && Sorted(t, Ascending)
    ensures StrictlyAscending(t) && NoDuplicates(t) && Elements(t) == Elements(s)
  {
    forall x
      ensures x in s <==> x in t
    {
      assert x in multiset(s) <==> x in multiset(t);
    }
    DistinctCount(s);
    assert Elements(t) == Elements(s);
    assert |multiset(s)| == |s| && |multiset(t)| == |t|;
    forall i, j | 0 <= i < j < |t|
      ensures t[i] < t[j]
    {
      assert Ascending(t[i], t[j]);
      if t[i] == t[j] {
        RepeatedIsSmaller(t, i, j);
        assert false;
      }
    }
  }

  /** A list with a repetition has fewer elements than places. */
  lemma RepeatedIsSmaller(t: seq<Handle>, i: nat, j: nat)
    requires i < j < |t| && t[i] == t[j]
    ensures |Elements(t)| < |t|
  {
    var u := t[..j] + t[j + 1..];
    forall x | x in t
      ensures x in u
    {
      var k :| 0 <= k < |t| && t[k] == x;
      if k == j {
        assert u[i] == x;
      } else {
        assert u[if k < j then k else k - 1] == x;
      }
    }
    assert forall x :: x in u ==> x in t;
    assert Elements(t) == Elements(u);
    ElementsCount(u);
  }

  /** One scan over the servers for the heaviest and the lightest. */
  method Extremes(r: ReplicaMap, servers: seq<ServerId>) returns (source: ServerId, destination: ServerId, most: nat, least: nat)
    requires |servers| >= 2 && 0 !in servers
    ensures Heaviest(r, servers, source) && Lightest(r, servers, destination)
    ensures most == Load(r, source) && least == Load(r, destination)
  {
    hide Load;
    source, destination, most, least := 0, 0, 0, 0;
    for i := 0 to |servers|
      invariant i == 0 ==> source == 0 && destination == 0 && most == 0
      invariant i > 0 ==> source in servers && destination in servers && source != 0 && destination != 0
      invariant i > 0 ==> most == Load(r, source) && least == Load(r, destination)
      invariant forall k :: 0 <= k < i ==> Load(r, servers[k]) < most || (Load(r, servers[k]) == most && source <= servers[k])
      invariant forall k :: 0 <= k < i ==> least < Load(r, servers[k]) || (Load(r, servers[k]) == least && destination <= servers[k])
    {
      var s := servers[i];
      var chunks := GetChunksForServer(r, s);
      var count := |chunks|;
      if count > most || (count == most && (source == 0 || s < source)) {
        source, most := s, count;
      }
      if destination == 0 || count < least || (count == least && s < destination) {
        destination, least := s, count;
      }
    }
  }

  lemma SameExtremes(r: ReplicaMap, servers: seq<ServerId>, s: ServerId, s': ServerId, d: ServerId, d': ServerId)
    requires Heaviest(r, servers, s) && Heaviest(r, servers, s') && Lightest(r, servers, d) && Lightest(r, servers, d')
    ensures s == s' && d == d'
  {
    hide Load;
  }

  method CanMove(r: ReplicaMap, c: Cluster, m: Move) returns (can: bool)
    requires ValidReplicas(r)
    ensures can <==> Movable(r, c, m)
  {
    if m.handle == 0 || m.source == 0 || m.source !in c.alive || m.source !in ServersAt(r, m.handle)
       || (m.handle, m.source) in c.stale || m.source !in c.reachable {
      return false;
    }
    if m.destination == 0 || m.destination !in c.alive || m.destination !in c.reachable || m.destination in ServersAt(r, m.handle) {
      return false;
    }
    var primary := PrimaryAt(r, m.handle);
    can := !(primary != None && primary.value == m.source && |ListAt(r, m.handle)| > 1);
  }

  /** The first chunk of an ascending list that has not been moved and can be. */
  method FirstMovable(r: ReplicaMap, c: Cluster, handles: seq<Handle>, moved: set<Handle>, source: ServerId, destination: ServerId)
    returns (next: Option<Handle>)
    requires ValidReplicas(r) && StrictlyAscending(handles)
    ensures next == None ==> forall g :: g in handles && g !in moved ==> !Movable(r, c, Move(g, source, destination))
    ensures next != None ==>
              && next.value in handles && next.value !in moved && Movable(r, c, Move(next.value, source, destination))
              && forall g :: g in handles && g !in moved && Movable(r, c, Move(g, source, destination)) ==> next.value <= g
  {
    hide Movable, ValidReplicas;
    for i := 0 to |handles|
      invariant forall k :: 0 <= k < i && handles[k] !in moved ==> !Movable(r, c, Move(handles[k], source, destination))
    {
      if handles[i] !in moved {
        var can := CanMove(r, c, Move(handles[i], source, destination));
        if can {
          return Some(handles[i]);
        }
      }
    }
    next := None;
  }

  /** The plan loop.  The counts are taken again in every round and come out the same, so the loop
      ends only when nothing movable is left on the source. */
  method Plan(r: ReplicaMap, c: Cluster) returns (moves: seq<Move>)
    requires ValidReplicas(r)
    ensures IsSomePlan(r, c, moves)
  {
    hide Movable, Load, Servers, ValidReplicas, ChunksOn, IsPlan;
    var healthy: seq<ServerId> := [];
    for i := 0 to |c.live|
      invariant forall s :: s in healthy <==> s != 0 && s in c.live[..i] && s in c.reachable && s in c.alive
    {
      assert c.live[..i + 1] == c.live[..i] + [c.live[i]];
      if c.live[i] != 0 && c.live[i] in c.reachable && c.live[i] in c.alive {
        healthy := healthy + [c.live[i]];
      }
    }
    assert c.live[..|c.live|] == c.live;
    assert Candidates(c, healthy);
    moves := [];
    if |healthy| < 2 {
      assert Plans(r, c, healthy, moves, 0, 0);
      return;
    }
    var from, to, most, least := Extremes(r, healthy);
    moves := PlanRounds(r, c, healthy, from, to);
    assert Plans(r, c, healthy, moves, from, to);
  }

  method PlanRounds(r: ReplicaMap, c: Cluster, servers: seq<ServerId>, ghost source: ServerId, ghost destination: ServerId)
    returns (moves: seq<Move>)
    requires ValidReplicas(r) && |servers| >= 2 && 0 !in servers
    requires Heaviest(r, servers, source) && Lightest(r, servers, destination)
    ensures IsPlan(r, c, servers, moves, source, destination)
  {
    hide Movable, Load, Servers, ValidReplicas, ChunksOn, Heaviest, Lightest, StrictlyAscending;
    moves := [];
    var moved: set<Handle> := {};
    NoMoves();
    while true
      invariant moved == Elements(Handles(moves)) && moved <= ChunksOn(r, source)
      invariant forall m :: m in moves ==> m.source == source && m.destination == destination && Movable(r, c, m)
      invariant StrictlyAscending(Handles(moves))
      invariant forall h, g :: h in moved && g in ChunksOn(r, source) && g !in moved && Movable(r, c, Move(g, source, destination)) ==> h < g
      invariant moves != [] ==> source != destination && Load(r, source) > Load(r, destination) + 1
      decreases ChunksOn(r, source) - moved
    {
      var from, to, most, least := Extremes(r, servers);
      SameExtremes(r, servers, source, from, destination, to);
      if from == to || most <= least + 1 {
        return;
      }
      var handles := GetChunksForServer(r, from);
      ElementsAre(handles);
      ElementsAre(Handles(moves));
      var next := FirstMovable(r, c, handles, moved, from, to);
      if next == None {
        return;
      }
      NextMove(moves, Move(next.value, from, to));
      moves := moves + [Move(next.value, from, to)];
      moved := moved + {next.value};
    }
  }

  lemma NoMoves()
    ensures StrictlyAscending(Handles([])) && Elements(Handles([])) == {}
  {}

  lemma ElementsAre(s: seq<Handle>)
    ensures forall x :: x in s <==> x in Elements(s)
  {}

  lemma NextMove(moves: seq<Move>, m: Move)
    requires StrictlyAscending(Handles(moves)) && forall h :: h in Handles(moves) ==> h < m.handle
    ensures StrictlyAscending(Handles(moves + [m]))
    ensures Elements(Handles(moves + [m])) == Elements(Handles(moves)) + {m.handle}
  {
    assert Handles(moves + [m]) == Handles(moves) + [m.handle];
    forall i | 0 <= i < |moves|
      ensures Handles(moves)[i] < m.handle
    {
      assert Handles(moves)[i] in Handles(moves);
    }
  }

  // ----- executing moves -----

  /** The lists after a move: the destination registered first, then the source removed, so that the
      chunk is never without a replica. */
  function Moved(r: ReplicaMap, m: Move): ReplicaMap {
    var primary := PrimaryAt(r, m.handle) == Some(m.source);
    var a := Remove(Register(r, m.handle, m.destination, primary).state, m.handle, m.source).state;
    if primary then SetPrimary(a, m.handle, m.destination).state else a
  }

  /** Each step of a move succeeds and leaves a replica; the whole keeps their number, exchanges the
      two servers, keeps the primary unless it was moved, and touches no other chunk. */
  lemma MoveConserves(r: ReplicaMap, c: Cluster, m: Move)
    requires ValidReplicas(r) && Movable(r, c, m)
    ensures var primary := PrimaryAt(r, m.handle) == Some(m.source);
            var a := Register(r, m.handle, m.destination, primary);
            var b := Remove(a.state, m.handle, m.source);
            && a.ok && b.ok && ValidReplicas(a.state) && ValidReplicas(b.state)
            && |ServersAt(a.state, m.handle)| == |ServersAt(r, m.handle)| + 1
            && |ServersAt(b.state, m.handle)| == |ServersAt(r, m.handle)| > 0
            && (primary ==> SetPrimary(b.state, m.handle, m.destination).ok)
    ensures var after := Moved(r, m);
            && ValidReplicas(after)
            && |ServersAt(after, m.handle)| == |ServersAt(r, m.handle)|
            && (forall s :: s in ServersAt(after, m.handle) <==> (s in ServersAt(r, m.handle) && s != m.source) || s == m.destination)
            && (forall k :: k != m.handle ==> ListAt(after, k) == ListAt(r, k))
            && (PrimaryAt(r, m.handle) == Some(m.source) ==> PrimaryAt(after, m.handle) == Some(m.destination))
            && (PrimaryAt(r, m.handle) != None && PrimaryAt(r, m.handle) != Some(m.source) ==> PrimaryAt(after, m.handle) == PrimaryAt(r, m.handle))
  {
    hide Servers, ListAt, PrimaryOf, Register, Remove, SetPrimary, ValidReplicas;
    var primary := PrimaryAt(r, m.handle) == Some(m.source);
    RegisterKeepsValid(r, m.handle, m.destination, primary);
    var a := Register(r, m.handle, m.destination, primary).state;
    RemoveKeepsValid(a, m.handle, m.source);
    var b := Remove(a, m.handle, m.source).state;
    SetPrimaryKeepsValid(b, m.handle, m.destination);
    ServersCount(r, m.handle);
  }

  lemma MovableIff(r: ReplicaMap, c: Cluster, m: Move)
    ensures Movable(r, c, m) <==>
              && m.handle != 0 && m.source != 0 && m.destination != 0
              && m.source in ServersAt(r, m.handle) && m.destination !in ServersAt(r, m.handle)
              && m.source in c.alive && m.destination in c.alive && m.source in c.reachable && m.destination in c.reachable
              && (m.handle, m.source) !in c.stale
              && (PrimaryAt(r, m.handle) == Some(m.source) ==> |ServersAt(r, m.handle)| == 1)
  {
    ServersCount(r, m.handle);
    hide PrimaryOf;
  }

  lemma TransferableMeans(servers: Fleet, m: Move)
    ensures CanTransfer(servers, m) <==> Transferable(servers, m.source, m.destination, m.handle)
    ensures CanTransfer(servers, m) ==> m.handle != 0 && m.source != 0 && m.destination != 0
  {}

  lemma ServersCount(r: ReplicaMap, h: Handle)
    ensures forall s :: s in ServersAt(r, h) ==> |ServersAt(r, h)| > 0
  {
    hide Servers, ListAt;
  }

  // ----- executing a plan -----

  predicate CanTransfer(servers: Fleet, m: Move) {
    Transferable(servers, m.source, m.destination, m.handle)
  }

  function CopyMade(servers: Fleet, m: Move): Fleet {
    if CanTransfer(servers, m) then Transferred(servers, m.source, m.destination, m.handle) else servers
  }

  function MovedAll(r: ReplicaMap, moves: seq<Move>): ReplicaMap {
    if moves == [] then r else Moved(MovedAll(r, moves[..|moves| - 1]), moves[|moves| - 1])
  }

  function CopiesMade(servers: Fleet, moves: seq<Move>): Fleet {
    if moves == [] then servers else CopyMade(CopiesMade(servers, moves[..|moves| - 1]), moves[|moves| - 1])
  }

  /** The moves of a list whose transfer works, in order. */
  function Doable(moves: seq<Move>, servers: Fleet, works: Move -> bool): seq<Move> {
    if moves == [] then []
    else
      var m := moves[|moves| - 1];
      Doable(moves[..|moves| - 1], servers, works) + if works(m) && CanTransfer(servers, m) then [m] else []
  }

  ghost predicate IsSomePlan(r: ReplicaMap, c: Cluster, moves: seq<Move>) {
    exists servers, source, destination :: Candidates(c, servers) && Plans(r, c, servers, moves, source, destination)
  }

  /** Nothing that an earlier move of the plan did matters to a later one. */
  ghost predicate StillAhead(before: ReplicaMap, now: ReplicaMap, fleet: Fleet, there: Fleet, c: Cluster, m: Move) {
    && Movable(now, c, m) && ListAt(now, m.handle) == ListAt(before, m.handle)
    && (CanTransfer(there, m) <==> CanTransfer(fleet, m))
  }

  /** A plan moves different chunks from one server to one other. */
  lemma PlannedMoves(r: ReplicaMap, c: Cluster, moves: seq<Move>)
    requires IsSomePlan(r, c, moves)
    ensures forall i, j :: 0 <= i < j < |moves| ==>
              moves[i].handle != moves[j].handle && moves[i].source == moves[j].source && moves[i].destination == moves[j].destination
    ensures forall i, servers :: 0 <= i < |moves| ==> StillAhead(r, r, servers, servers, c, moves[i])
  {
    hide Movable, ListAt, Load, ChunksOn, Heaviest, Lightest, CanTransfer, Candidates;
    var servers, source, destination :| Candidates(c, servers) && Plans(r, c, servers, moves, source, destination);
    forall i | 0 <= i < |moves|
      ensures moves[i].source == source && moves[i].destination == destination && Movable(r, c, moves[i])
    {
      assert moves[i] in moves;
    }
    forall i, j | 0 <= i < j < |moves|
      ensures moves[i].handle != moves[j].handle
    {
      assert Handles(moves)[i] < Handles(moves)[j];
    }
  }

  lemma OthersStayAhead(before: ReplicaMap, now: ReplicaMap, fleet: Fleet, there: Fleet, c: Cluster, m: Move, later: Move)
    requires StillAhead(before, now, fleet, there, c, later) && ValidReplicas(now) && Movable(now, c, m)
    requires m.handle != later.handle && m.source == later.source && m.destination == later.destination
    ensures StillAhead(before, Moved(now, m), fleet, CopyMade(there, m), c, later)
  {
    hide ListAt, Servers, PrimaryOf, Moved, ValidReplicas;
    MoveConserves(now, c, m);
  }

  lemma MayMove(before: ReplicaMap, now: ReplicaMap, fleet: Fleet, there: Fleet, c: Cluster, m: Move)
    requires StillAhead(before, now, fleet, there, c, m)
    ensures Movable(now, c, m) && (CanTransfer(there, m) <==> CanTransfer(fleet, m))
  {
    hide Movable, CanTransfer;
  }

  /** No chunk has gained or lost replicas, or lost its primary. */
  ghost predicate Conserved(before: ReplicaMap, now: ReplicaMap) {
    forall h :: |ServersAt(now, h)| == |ServersAt(before, h)| && (PrimaryAt(before, h) != None ==> PrimaryAt(now, h) != None)
  }

  lemma NothingMoved(r: ReplicaMap)
    ensures Conserved(r, r)
  {
    hide Servers, ListAt, PrimaryOf;
  }

  lemma ConservedMeans(before: ReplicaMap, now: ReplicaMap)
    requires Conserved(before, now)
    ensures forall h :: |ServersAt(now, h)| == |ServersAt(before, h)|
    ensures forall h :: PrimaryAt(before, h) != None ==> PrimaryAt(now, h) != None
  {
    hide Servers, ListAt, PrimaryOf;
  }

  lemma MoveStaysConserved(before: ReplicaMap, now: ReplicaMap, c: Cluster, m: Move)
    requires Conserved(before, now) && ValidReplicas(now) && Movable(now, c, m)
    ensures Conserved(before, Moved(now, m))
  {
    hide Servers, ListAt, PrimaryOf, Moved, Movable, ValidReplicas;
    MoveConserves(now, c, m);
  }

  class Rebalancer {
    const manager: Manager.ReplicaManager
    const transfers: ReReplicationManager

    constructor (manager: Manager.ReplicaManager, transfers: ReReplicationManager)
      ensures this.manager == manager && this.transfers == transfers
    {
      this.manager, this.transfers := manager, transfers;
    }

    /** Either nothing happens, or the move is made in full - exactly if it is allowed and the
        transfer works. */
    method ExecuteMove(m: Move, c: Cluster, works: bool) returns (ok: bool)
      requires manager.Valid()
      modifies manager, transfers`servers
      ensures ok <==> Movable(old(manager.replicas), c, m) && works && CanTransfer(old(transfers.servers), m)
      ensures ok <==>
                && works && Transferable(old(transfers.servers), m.source, m.destination, m.handle)
                && m.source in ServersAt(old(manager.replicas), m.handle) && m.destination !in ServersAt(old(manager.replicas), m.handle)
                && m.source in c.alive && m.destination in c.alive && m.source in c.reachable && m.destination in c.reachable
                && (m.handle, m.source) !in c.stale
                && (PrimaryAt(old(manager.replicas), m.handle) == Some(m.source) ==> |ServersAt(old(manager.replicas), m.handle)| == 1)
      ensures ok ==> manager.replicas == Moved(old(manager.replicas), m) && transfers.servers == CopyMade(old(transfers.servers), m)
      ensures !ok ==> manager.replicas == old(manager.replicas) && transfers.servers == old(transfers.servers)
      ensures manager.Valid()
    {
      hide Movable, Servers, ListAt, PrimaryOf, Register, Remove, SetPrimary, ValidReplicas, Transferred, Transferable;
      MovableIff(manager.replicas, c, m);
      TransferableMeans(transfers.servers, m);
      var can := CanMove(manager.replicas, c, m);
      if !can {
        return false;
      }
      ghost var r := manager.replicas;
      var primary := manager.GetPrimary(m.handle);
      var moving := primary != None && primary.value == m.source;
      ok := transfers.TransferReplica(m.handle, m.source, m.destination, works);
      if !ok {
        return;
      }
      ok := manager.RegisterReplica(m.handle, m.destination, moving);
      if !ok {
        MoveConserves(r, c, m);
        assert false;
        return;
      }
      ok := manager.RemoveReplica(m.handle, m.source);
      if !ok {
        var _ := manager.RemoveReplica(m.handle, m.destination);
        MoveConserves(r, c, m);
        assert false;
        return;
      }
      MoveConserves(r, c, m);
      if moving {
        ok := manager.SetPrimary(m.handle, m.destination);
      }
    }

    /** Plans once and executes the plan.  Exactly those moves are completed whose transfer works; no
        chunk loses or gains replicas, and a chunk that had a primary has one. */
    method Rebalance(c: Cluster, works: Move -> bool) returns (completed: seq<Move>)
      requires manager.Valid()
      modifies manager, transfers`servers
      ensures exists planned :: IsSomePlan(old(manager.replicas), c, planned) && completed == Doable(planned, old(transfers.servers), works)
      ensures manager.replicas == MovedAll(old(manager.replicas), completed)
      ensures transfers.servers == CopiesMade(old(transfers.servers), completed)
      ensures forall h :: |ServersAt(manager.replicas, h)| == |ServersAt(old(manager.replicas), h)|
      ensures forall h :: PrimaryAt(old(manager.replicas), h) != None ==> PrimaryAt(manager.replicas, h) != None
      ensures manager.Valid()
    {
      hide Movable, Servers, ListAt, PrimaryOf, Moved, ValidReplicas, IsSomePlan, CanTransfer, CopyMade, Conserved, StillAhead;
      ghost var before, fleet := manager.replicas, transfers.servers;
      NothingMoved(before);
      var planned := Plan(manager.replicas, c);
      PlannedMoves(before, c, planned);
      completed := [];
      for i := 0 to |planned|
        invariant manager.Valid()
        invariant completed == Doable(planned[..i], fleet, works)
        invariant manager.replicas == MovedAll(before, completed) && transfers.servers == CopiesMade(fleet, completed)
        invariant forall j :: i <= j < |planned| ==> StillAhead(before, manager.replicas, fleet, transfers.servers, c, planned[j])
        invariant Conserved(before, manager.replicas)
      {
        ghost var now, there, m := manager.replicas, transfers.servers, planned[i];
        assert planned[..i + 1][..i] == planned[..i];
        MayMove(before, now, fleet, there, c, m);
        var done := ExecuteMove(planned[i], c, works(planned[i]));
        if done {
          MoveStaysConserved(before, now, c, m);
          forall j | i < j < |planned|
            ensures StillAhead(before, manager.replicas, fleet, transfers.servers, c, planned[j])
          {
            OthersStayAhead(before, now, fleet, there, c, m, planned[j]);
          }
          assert (completed + [m])[..|completed|] == completed;
          completed := completed + [planned[i]];
        }
      }
      assert planned[..|planned|] == planned;
      ConservedMeans(before, manager.replicas);
    }
  }
}
