// The class that keeps the replica lists and edits them in place, each method proved against the
// operation of Replicas.dfy.

module ReplicaManager {
  import opened Bytes
  import opened ChunkTables
  import opened Replicas

  class ReplicaManager {
    var replicas: ReplicaMap

    ghost predicate Valid()
      reads this
    {
      ValidReplicas(replicas)
    }

    constructor ()
      ensures Valid() && replicas == map[]
    {
      replicas := map[];
    }

    method Clear()
      modifies this
      ensures Valid() && replicas == map[]
    {
      replicas := map[];
    }

    method Find(list: seq<Replica>, s: ServerId) returns (i: nat)
      ensures i <= |list|
      ensures i < |list| ==> list[i].server == s
      ensures i == |list| <==> s !in Servers(list)
      ensures i == IndexOf(list, s)
    {
      i := 0;
      while i < |list| && list[i].server != s
        invariant i <= |list|
        invariant forall j :: 0 <= j < i ==> list[j].server != s
      {
        i := i + 1;
      }
      ghost var k := IndexOf(list, s);
      assert !(k < i) && !(i < k);
      if i < |list| {
        assert Servers(list)[i] == s;
      }
    }

    /** Sets every flag of a list: true for the given server, false for the others. */
    method Mark(list: seq<Replica>, s: ServerId) returns (marked: seq<Replica>, found: bool)
      ensures marked == Promoted(list, s)
      ensures found <==> s in Servers(list)
    {
      marked, found := list, false;
      for i := 0 to |list|
        invariant |marked| == |list|
        invariant forall j :: 0 <= j < i ==> marked[j] == Replica(list[j].server, list[j].server == s)
        invariant forall j :: i <= j < |list| ==> marked[j] == list[j]
        invariant found <==> s in Servers(list)[..i]
      {
        marked := marked[i := Replica(list[i].server, list[i].server == s)];
        assert Servers(list)[..i + 1] == Servers(list)[..i] + [list[i].server];
        if list[i].server == s {
          found := true;
        }
      }
      assert Servers(list)[..|list|] == Servers(list);
      assert marked == Promoted(list, s);
    }

    method RegisterReplica(h: Handle, s: ServerId, primary: bool) returns (ok: bool)
      requires Valid()
      modifies this
      ensures Valid()
      ensures Step(replicas, ok) == Register(old(replicas), h, s, primary)
    {
      if h == 0 || s == 0 {
        return false;
      }
      RegisterKeepsValid(replicas, h, s, primary);
      var list := ListAt(replicas, h);
      var i := Find(list, s);
      if i < |list| {
        if primary {
          var marked, _ := Mark(list, s);
          replicas := replicas[h := marked];
        }
        return false;
      }
      if primary {
        var marked, _ := Mark(list, s);
        NotListed(list, s);
        list := marked;
      }
      replicas := replicas[h := list + [Replica(s, primary)]];
      return true;
    }

    lemma NotListed(list: seq<Replica>, s: ServerId)
      requires s !in Servers(list)
      ensures Promoted(list, s) == Demoted(list)
    {
      forall i | 0 <= i < |list|
        ensures list[i].server != s
      {
        assert Servers(list)[i] == list[i].server;
      }
    }

    method RemoveReplica(h: Handle, s: ServerId) returns (ok: bool)
      requires Valid()
      modifies this
      ensures Valid()
      ensures Step(replicas, ok) == Remove(old(replicas), h, s)
    {
      hide Servers, ValidList, PrimaryOf, Repaired, ValidReplicas, IndexOf;
      RemoveKeepsValid(replicas, h, s);
      if h == 0 || s == 0 || h !in replicas {
        NoneListed(h, s);
        return false;
      }
      var list := replicas[h];
      var i := Find(list, s);
      if i == |list| {
        return false;
      }
      list := list[..i] + list[i + 1..];
      if list == [] {
        replicas := replicas - {h};
        return true;
      }
      list := Repair(list);
      replicas := replicas[h := list];
      return true;
    }

    lemma NoneListed(h: Handle, s: ServerId)
      ensures h !in replicas ==> s !in ServersAt(replicas, h)
    {}

    /** If no replica of a list is primary, the first becomes it. */
    method Repair(list: seq<Replica>) returns (repaired: seq<Replica>)
      requires list != []
      ensures repaired == Repaired(list)
    {
      var found := false;
      for j := 0 to |list|
        invariant found <==> exists k :: 0 <= k < j && list[k].primary
      {
        if list[j].primary {
          found := true;
        }
      }
      repaired := if found then list else list[0 := list[0].(primary := true)];
    }

    method SetPrimary(h: Handle, s: ServerId) returns (ok: bool)
      requires Valid()
      modifies this
      ensures Valid()
      ensures Step(replicas, ok) == Replicas.SetPrimary(old(replicas), h, s)
    {
      SetPrimaryKeepsValid(replicas, h, s);
      if h == 0 || s == 0 || h !in replicas {
        return false;
      }
      var marked, found := Mark(replicas[h], s);
      replicas := replicas[h := marked];
      return found;
    }

    method RemoveChunk(h: Handle) returns (ok: bool)
      requires Valid()
      modifies this
      ensures Valid()
      ensures Step(replicas, ok) == Replicas.RemoveChunk(old(replicas), h)
    {
      if h == 0 {
        return false;
      }
      ok := h in replicas;
      replicas := replicas - {h};
    }

    method GetPrimary(h: Handle) returns (p: Option<ServerId>)
      requires Valid()
      ensures p == PrimaryAt(replicas, h)
    {
      var list := ListAt(replicas, h);
      for i := 0 to |list|
        invariant forall j :: 0 <= j < i ==> !list[j].primary
      {
        if list[i].primary {
          PrimaryIsUnique(list);
          return Some(list[i].server);
        }
      }
      return None;
    }
  }
}
