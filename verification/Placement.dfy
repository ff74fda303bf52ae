// Choosing servers for new replicas: the least loaded candidates, all or none.

module Placement {
  import opened Sorting
  import opened ChunkTables
  import opened Replicas

  datatype Candidate = Candidate(server: ServerId, count: nat)

  predicate ByLoad(a: Candidate, b: Candidate) {
    a.count < b.count || (a.count == b.count && a.server <= b.server)
  }

  /** The servers a choice can be made from. */
  function Eligible(candidates: seq<Candidate>): set<ServerId> {
    set c | c in candidates && c.server != 0 :: c.server
  }

  /** A chosen server has an entry that comes before every entry of a server not chosen. */
  ghost predicate LeastLoaded(candidates: seq<Candidate>, chosen: seq<ServerId>) {
    forall s, c :: s in chosen && c in candidates && c.server != 0 && c.server !in chosen ==> HasLighter(candidates, s, c)
  }

  ghost predicate HasLighter(candidates: seq<Candidate>, s: ServerId, c: Candidate) {
    exists d :: d in candidates && d.server == s && ByLoad(d, c)
  }

  method IsValidPlacement(servers: seq<ServerId>, factor: nat) returns (valid: bool)
    ensures valid <==> factor != 0 && |servers| == factor && 0 !in servers && NoDuplicates(servers)
  {
    if factor == 0 || |servers| != factor {
      return false;
    }
    for i := 0 to |servers|
      invariant 0 !in servers[..i] && NoDuplicates(servers[..i])
    {
      assert servers[..i + 1] == servers[..i] + [servers[i]];
      if servers[i] == 0 {
        return false;
      }
      if servers[i] in servers[..i] {
        var j :| 0 <= j < i && servers[j] == servers[i];
        return false;
      }
    }
    assert servers[..|servers|] == servers;
    valid := true;
  }

  function Elements<T>(s: seq<T>): set<T> {
    set x | x in s
  }

  lemma AllChosen(candidates: seq<Candidate>, chosen: seq<ServerId>)
    requires NoDuplicates(chosen) && Elements(chosen) == Eligible(candidates)
    ensures |chosen| == |Eligible(candidates)|
  {
    DistinctCount(chosen);
  }

  lemma {:induction false} DistinctCount<T>(s: seq<T>)
    requires NoDuplicates(s)
    ensures |Elements(s)| == |s|
  {
    if s != [] {
      var t := s[..|s| - 1];
      assert s == t + [s[|s| - 1]];
      assert forall i :: 0 <= i < |t| ==> t[i] == s[i];
      DistinctCount(t);
      assert Elements(s) == Elements(t) + {s[|s| - 1]};
    }
  }

  lemma SubsetCount(chosen: seq<ServerId>, all: set<ServerId>)
    requires NoDuplicates(chosen) && forall s :: s in chosen ==> s in all
    ensures |chosen| <= |all|
  {
    DistinctCount(chosen);
    SubsetSize(Elements(chosen), all);
  }

  lemma {:induction false} SubsetSize<T>(a: set<T>, b: set<T>)
    requires a <= b
    ensures |a| <= |b|
    decreases a
  {
    if a != {} {
      var x :| x in a;
      SubsetSize(a - {x}, b - {x});
    }
  }

  /** Exactly as many servers as asked for, all different, the least loaded first; or none, if there
      are not that many. */
  method SelectReplicas(candidates: seq<Candidate>, requested: nat, default: nat) returns (chosen: seq<ServerId>)
    ensures var factor := if requested == 0 then default else requested;
            && (chosen != [] <==> 0 < factor <= |Eligible(candidates)|)
            && (chosen != [] ==> |chosen| == factor)
    ensures NoDuplicates(chosen) && forall s :: s in chosen ==> s in Eligible(candidates)
    ensures LeastLoaded(candidates, chosen)
  {
    hide LeastLoaded, HasLighter;
    var factor := if requested == 0 then default else requested;
    NoneChosen(candidates);
    if factor == 0 {
      return [];
    }
    var sorted := Sort(candidates, ByLoad);
    chosen := [];
    var i := 0;
    while i < |sorted| && |chosen| < factor
      invariant i <= |sorted| && |chosen| <= factor
      invariant NoDuplicates(chosen) && 0 !in chosen
      invariant forall s :: s in chosen <==> exists j :: 0 <= j < i && sorted[j].server == s && s != 0
      decreases |sorted| - i
    {
      if sorted[i].server != 0 && sorted[i].server !in chosen {
        NoDuplicatesSnoc(chosen, sorted[i].server);
        chosen := chosen + [sorted[i].server];
      }
      i := i + 1;
    }
    ChosenAreEligible(candidates, sorted, i, chosen);
    SubsetCount(chosen, Eligible(candidates));
    if i == |sorted| {
      AllChosen(candidates, chosen);
    }
    var valid := IsValidPlacement(chosen, factor);
    if !valid {
      return [];
    }
    ChosenAreLightest(candidates, sorted, i, chosen);
  }

  lemma NoneChosen(candidates: seq<Candidate>)
    ensures LeastLoaded(candidates, [])
  {}

  lemma ChosenAreEligible(candidates: seq<Candidate>, sorted: seq<Candidate>, i: nat, chosen: seq<ServerId>)
    requires multiset(sorted) == multiset(candidates) && i <= |sorted|
    requires forall s :: s in chosen <==> exists j :: 0 <= j < i && sorted[j].server == s && s != 0
    ensures forall s :: s in chosen ==> s in Eligible(candidates)
    ensures i == |sorted| ==> Elements(chosen) == Eligible(candidates)
  {
    forall c
      ensures c in candidates <==> c in sorted
    {
      assert c in multiset(candidates) <==> c in multiset(sorted);
    }
    forall s | s in chosen
      ensures s in Eligible(candidates)
    {
      var j :| 0 <= j < i && sorted[j].server == s && s != 0;
      assert sorted[j] in sorted;
    }
    if i == |sorted| {
      forall s | s in Eligible(candidates)
        ensures s in chosen
      {
        var c :| c in candidates && c.server != 0 && c.server == s;
        var j :| 0 <= j < |sorted| && sorted[j] == c;
      }
    }
  }

  lemma ChosenAreLightest(candidates: seq<Candidate>, sorted: seq<Candidate>, i: nat, chosen: seq<ServerId>)
    requires multiset(sorted) == multiset(candidates) && Sorted(sorted, ByLoad) && i <= |sorted|
    requires forall s :: s in chosen <==> exists j :: 0 <= j < i && sorted[j].server == s && s != 0
    ensures LeastLoaded(candidates, chosen)
  {
    forall s, c | s in chosen && c in candidates && c.server != 0 && c.server !in chosen
      ensures HasLighter(candidates, s, c)
    {
      var j :| 0 <= j < i && sorted[j].server == s && s != 0;
      assert c in multiset(sorted);
      var k :| 0 <= k < |sorted| && sorted[k] == c;
      assert i <= k;
      assert sorted[j] in multiset(candidates);
      assert ByLoad(sorted[j], c);
    }
  }
}
