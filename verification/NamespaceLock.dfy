// Locks on namespace paths.

module NamespaceLock {
  // A guard looks up the lock node of each of its paths, sorts the nodes by address, drops
  // repetitions and locks them in that order; that order rules out deadlock.

  import opened Bytes
  import opened Sorting
  import opened Paths

  type Address = nat

  ghost predicate Ascending(list: seq<Address>) {
    forall i, j :: 0 <= i < j < |list| ==> list[i] < list[j]
  }

  predicate NotAbove(a: Address, b: Address) {
    a <= b
  }

  // ----- finding the nodes -----

  /** The components from a position on; None if one of them is empty.  One slash may follow the
      last component. */
  function ComponentsFrom(path: str, start: nat): (names: Option<seq<str>>)
    requires start <= |path|
    decreases |path| - start
  {
    if start == |path| then Some([])
    else
      var e := NextSlash(path, start);
      if e == start then None
      else if e == |path| then Some([path[start..e]])
      else
        match ComponentsFrom(path, e + 1)
        case None => None
        case Some(rest) => Some([path[start..e]] + rest)
  }

  /** The place of a path in the lock tree. */
  function Components(path: str): Option<seq<str>> {
    if path == [] || path[0] != SLASH then None else ComponentsFrom(path, 1)
  }

  class NamespaceLock {
    /** The lock tree: the address of the node at each place.  It only grows. */
    var nodes: map<seq<str>, Address>

    ghost predicate Valid()
      reads this
    {
      && [] in nodes
      && (forall p, q :: p in nodes && q in nodes && nodes[p] == nodes[q] ==> p == q)
      && forall p :: p in nodes && p != [] ==> p[..|p| - 1] in nodes
    }

    constructor (root: Address)
      ensures Valid() && nodes == map[[] := root]
    {
      nodes := map[[] := root];
    }

    /** Walks down the tree and adds the nodes that are missing, at addresses nobody else has. */
    method GetOrCreateNode(path: str) returns (node: Option<Address>)
      requires Valid()
      modifies this
      ensures Valid()
      ensures forall p :: p in old(nodes) ==> p in nodes && nodes[p] == old(nodes)[p]
      ensures node == None <==> Components(path) == None
      ensures node != None ==> Components(path).value in nodes && nodes[Components(path).value] == node.value
    {
      if path == [] || path[0] != SLASH {
        return None;
      }
      hide NextSlash, ComponentsFrom;
      BehindNothing(ComponentsFrom(path, 1));
      EndOfComponents(path);
      var current: seq<str> := [];
      var start := 1;
      while start < |path|
        invariant 1 <= start <= |path| && Valid() && current in nodes
        invariant forall p :: p in old(nodes) ==> p in nodes && nodes[p] == old(nodes)[p]
        invariant Components(path) == Behind(current, ComponentsFrom(path, start))
        decreases |path| - start
      {
        var e := FindSlash(path, start);
        NextSlashOf(path, start, e);
        if e == start {
          return None;
        }
        var child := current + [path[start..e]];
        if child !in nodes {
          var address := FreshAddress();
          AddNode(child, address);
        }
        BehindMore(current, path[start..e], if e == |path| then Some([]) else ComponentsFrom(path, e + 1));
        current := child;
        start := if e == |path| then e else e + 1;
      }
      return Some(nodes[current]);
    }

    method AddNode(child: seq<str>, address: Address)
      requires Valid() && child !in nodes && child != [] && child[..|child| - 1] in nodes
      requires forall p :: p in nodes ==> nodes[p] != address
      modifies this
      ensures Valid() && nodes == old(nodes)[child := address]
    {
      nodes := nodes[child := address];
    }

    method FreshAddress() returns (address: Address)
      ensures forall p :: p in nodes ==> nodes[p] != address
    {
      address := 0;
      var rest := nodes.Keys;
      while rest != {}
        invariant rest <= nodes.Keys && forall p :: p in nodes && p !in rest ==> nodes[p] < address
        decreases rest
      {
        var p :| p in rest;
        if nodes[p] >= address {
          address := nodes[p] + 1;
        }
        rest := rest - {p};
      }
    }

    /** The nodes a guard locks, in the order in which it locks them: each once, ascending. */
    method NodesFor(paths: seq<str>) returns (list: seq<Address>)
      requires Valid()
      modifies this
      ensures Valid() && Ascending(list)
      ensures forall a :: a in list <==> exists i :: 0 <= i < |paths| && NodeOf(nodes, paths[i]) == Some(a)
    {
      hide *;
      list := [];
      ghost var found: seq<Option<Address>> := [];
      NothingLookedUp(nodes, paths);
      for i := 0 to |paths|
        invariant Valid() && list == Chosen(found) && LookedUp(nodes, paths, found, i)
      {
        ghost var before := nodes;
        var node := GetOrCreateNode(paths[i]);
        OneMoreLookedUp(before, nodes, paths, found, i, node);
        found := found + [node];
        if node != None {
          list := list + [node.value];
        }
      }
      AllLookedUp(nodes, paths, found);
      ChosenMeans(found);
      FoundMeans(nodes, paths, found);
      list := InOrder(list);
    }
  }

  /** Sorts a list and drops repetitions. */
  method InOrder(list: seq<Address>) returns (sorted: seq<Address>)
    ensures Ascending(sorted) && forall a :: a in sorted <==> a in list
  {
    sorted := Sort(list, NotAbove);
    hide Ascending;
    SameMembers(list, sorted);
    sorted := Unique(sorted);
  }

  function Chosen(found: seq<Option<Address>>): seq<Address> {
    if found == [] then []
    else
      var last := found[|found| - 1];
      Chosen(found[..|found| - 1]) + if last == None then [] else [last.value]
  }

  lemma {:induction false} ChosenMeans(found: seq<Option<Address>>)
    ensures forall a :: a in Chosen(found) <==> Some(a) in found
  {
    if found != [] {
      ChosenMeans(found[..|found| - 1]);
      assert found == found[..|found| - 1] + [found[|found| - 1]];
    }
  }

  /** The nodes of the first n paths, all of which are in the tree if they have a place. */
  ghost predicate LookedUp(nodes: map<seq<str>, Address>, paths: seq<str>, found: seq<Option<Address>>, n: nat) {
    && |found| == n <= |paths|
    && forall k :: 0 <= k < n ==>
         found[k] == NodeOf(nodes, paths[k]) && (Components(paths[k]) != None ==> Components(paths[k]).value in nodes)
  }

  lemma NothingLookedUp(nodes: map<seq<str>, Address>, paths: seq<str>)
    ensures LookedUp(nodes, paths, [], 0) && Chosen([]) == []
  {}

  lemma OneMoreLookedUp(before: map<seq<str>, Address>, nodes: map<seq<str>, Address>, paths: seq<str>, found: seq<Option<Address>>, n: nat,
                        node: Option<Address>)
    requires n < |paths| && LookedUp(before, paths, found, n)
    requires forall p :: p in before ==> p in nodes && nodes[p] == before[p]
    requires node == None <==> Components(paths[n]) == None
    requires node != None ==> Components(paths[n]).value in nodes && nodes[Components(paths[n]).value] == node.value
    ensures LookedUp(nodes, paths, found + [node], n + 1)
    ensures Chosen(found + [node]) == if node == None then Chosen(found) else Chosen(found) + [node.value]
  {
    hide Components;
    assert (found + [node])[..n] == found;
  }

  lemma AllLookedUp(nodes: map<seq<str>, Address>, paths: seq<str>, found: seq<Option<Address>>)
    requires LookedUp(nodes, paths, found, |paths|)
    ensures |found| == |paths| && forall k :: 0 <= k < |found| ==> found[k] == NodeOf(nodes, paths[k])
  {}

  lemma FoundMeans(nodes: map<seq<str>, Address>, paths: seq<str>, found: seq<Option<Address>>)
    requires |found| == |paths| && forall k :: 0 <= k < |found| ==> found[k] == NodeOf(nodes, paths[k])
    ensures forall a :: Some(a) in found <==> exists i :: 0 <= i < |paths| && NodeOf(nodes, paths[i]) == Some(a)
  {
    hide NodeOf;
  }

  function NodeOf(nodes: map<seq<str>, Address>, path: str): Option<Address> {
    var place := Components(path);
    if place != None && place.value in nodes then Some(nodes[place.value]) else None
  }

  function Behind(front: seq<str>, rest: Option<seq<str>>): Option<seq<str>> {
    if rest == None then None else Some(front + rest.value)
  }

  lemma BehindNothing(rest: Option<seq<str>>)
    ensures Behind([], rest) == rest
  {
    if rest != None {
      assert [] + rest.value == rest.value;
    }
  }

  lemma EndOfComponents(path: str)
    ensures ComponentsFrom(path, |path|) == Some([])
    ensures forall names: seq<str> :: Behind(names, Some([])) == Some(names)
  {
    forall names: seq<str>
      ensures Behind(names, Some([])) == Some(names)
    {
      assert names + [] == names;
    }
  }

  lemma BehindMore(front: seq<str>, name: str, rest: Option<seq<str>>)
    ensures Behind(front, Behind([name], rest)) == Behind(front + [name], rest)
  {
    if rest != None {
      assert front + ([name] + rest.value) == front + [name] + rest.value;
    }
  }

  lemma NextSlashOf(path: str, start: nat, e: nat)
    requires start < |path| && e == NextSlash(path, start)
    ensures ComponentsFrom(path, start) ==
            if e == start then None
            else Behind([path[start..e]], if e == |path| then Some([]) else ComponentsFrom(path, e + 1))
  {
    hide NextSlash;
    assert [path[start..e]] + [] == [path[start..e]];
  }

  lemma SameMembers(s: seq<Address>, t: seq<Address>)
    requires multiset(s) == multiset(t)
    ensures forall a :: a in s <==> a in t
  {
    forall a
      ensures a in s <==> a in t
    {
      assert a in multiset(s) <==> a in multiset(t);
    }
  }

  /** Drops each element that equals the one before it. */
  method Unique(s: seq<Address>) returns (r: seq<Address>)
    requires Sorted(s, NotAbove)
    ensures Ascending(r) && forall a :: a in r <==> a in s
  {
    r := [];
    for i := 0 to |s|
      invariant Ascending(r) && forall a :: a in r <==> a in s[..i]
      invariant if i == 0 then r == [] else r != [] && r[|r| - 1] == s[i - 1]
    {
      assert s[..i + 1] == s[..i] + [s[i]];
      if i == 0 || s[i] != s[i - 1] {
        if i > 0 {
          assert NotAbove(s[i - 1], s[i]);
          assert forall k :: 0 <= k < |r| ==> r[k] <= r[|r| - 1];
        }
        r := r + [s[i]];
      }
    }
    assert s[..|s|] == s;
  }

  // ----- threads taking guards -----

  datatype Mode = Read | Write

  /** A thread with the list its guard locks, how many of them it has taken - in the order of the list -
      and which locks it holds.  Once it has taken them all it gives them back, in any order. */
  datatype Thread = Thread(mode: Mode, list: seq<Address>, taken: nat, held: set<Address>)

  datatype Step = Take(thread: nat) | Release(thread: nat, lock: Address)

  function Front(list: seq<Address>, n: nat): set<Address>
    requires n <= |list|
  {
    set a | a in list[..n]
  }

  ghost predicate ValidThread(t: Thread) {
    && Ascending(t.list) && t.taken <= |t.list|
    && (if Waiting(t) then t.held == Front(t.list, t.taken) else t.held <= Front(t.list, |t.list|))
  }

  predicate Waiting(t: Thread) {
    t.taken < |t.list|
  }

  function Wanted(t: Thread): Address
    requires Waiting(t)
  {
    t.list[t.taken]
  }

  predicate Finished(t: Thread) {
    !Waiting(t) && t.held == {}
  }

  /** Two threads can hold a lock together only if both read. */
  ghost predicate Exclusive(threads: seq<Thread>) {
    forall i, j, a ::
      0 <= i < |threads| && 0 <= j < |threads| && i != j && a in threads[i].held && a in threads[j].held ==>
        threads[i].mode == Read && threads[j].mode == Read
  }

  ghost predicate LockInv(threads: seq<Thread>) {
    (forall i :: 0 <= i < |threads| ==> ValidThread(threads[i])) && Exclusive(threads)
  }

  /** Thread i may take its next lock: nobody holds it in a way that excludes it and, for a reader
      where writers go first, no writer waits for it. */
  ghost predicate MayTake(threads: seq<Thread>, i: nat, writersFirst: bool)
    requires i < |threads| && Waiting(threads[i])
  {
    var a := Wanted(threads[i]);
    forall j :: 0 <= j < |threads| && j != i ==>
      && (a in threads[j].held ==> threads[i].mode == Read && threads[j].mode == Read)
      && !(writersFirst && threads[i].mode == Read && threads[j].mode == Write && Waiting(threads[j]) && Wanted(threads[j]) == a)
  }

  /** A thread takes its next lock, or gives back one once it has had them all. */
  ghost predicate CanStep(threads: seq<Thread>, s: Step, writersFirst: bool) {
    match s
    case Take(i) => i < |threads| && Waiting(threads[i]) && MayTake(threads, i, writersFirst)
    case Release(i, a) => i < |threads| && !Waiting(threads[i]) && a in threads[i].held
  }

  function StepOf(t: Thread, s: Step): Thread {
    match s
    case Take(_) => if Waiting(t) then t.(taken := t.taken + 1, held := t.held + {Wanted(t)}) else t
    case Release(_, a) => t.(held := t.held - {a})
  }

  function Stepped(threads: seq<Thread>, s: Step): (r: seq<Thread>)
    requires s.thread < |threads|
  {
    threads[s.thread := StepOf(threads[s.thread], s)]
  }

  lemma FrontGrows(list: seq<Address>, n: nat)
    requires n < |list|
    ensures Front(list, n + 1) == Front(list, n) + {list[n]}
  {
    assert list[..n + 1] == list[..n] + [list[n]];
  }

  lemma {:induction false} FrontSize(list: seq<Address>, n: nat)
    requires n <= |list|
    ensures |Front(list, n)| <= n
  {
    if n > 0 {
      FrontSize(list, n - 1);
      FrontGrows(list, n - 1);
    } else {
      assert Front(list, 0) == {};
    }
  }

  /** Readers alone never wait, whatever they hold. */
  lemma ReadersNeverWait(threads: seq<Thread>, i: nat, writersFirst: bool)
    requires forall j :: 0 <= j < |threads| ==> threads[j].mode == Read
    requires i < |threads| && Waiting(threads[i])
    ensures CanStep(threads, Take(i), writersFirst)
  {}

  lemma StepKeepsInv(threads: seq<Thread>, s: Step, writersFirst: bool)
    requires LockInv(threads) && CanStep(threads, s, writersFirst)
    ensures LockInv(Stepped(threads, s))
  {
    var t := threads[s.thread];
    assert ValidThread(t);
    if s.Take? {
      FrontGrows(t.list, t.taken);
    }
    hide Front, Ascending;
    assert ValidThread(StepOf(t, s));
  }

  /** How many steps a thread has left: the locks to take and the locks to give back. */
  function Left(t: Thread): nat {
    if Waiting(t) then |t.list| - t.taken + |t.list| else |t.held|
  }

  function TotalLeft(threads: seq<Thread>): nat {
    if threads == [] then 0 else Left(threads[|threads| - 1]) + TotalLeft(threads[..|threads| - 1])
  }

  lemma StepLeavesLess(threads: seq<Thread>, s: Step, writersFirst: bool)
    requires LockInv(threads) && CanStep(threads, s, writersFirst)
    ensures Left(StepOf(threads[s.thread], s)) < Left(threads[s.thread])
  {
    var t := threads[s.thread];
    assert ValidThread(t);
    if s.Take? {
      FrontGrows(t.list, t.taken);
      FrontSize(t.list, t.taken + 1);
    }
    hide Front, Ascending;
  }

  lemma {:induction false} LessInTotal(threads: seq<Thread>, i: nat, t: Thread)
    requires i < |threads| && Left(t) < Left(threads[i])
    ensures TotalLeft(threads[i := t]) < TotalLeft(threads)
    decreases |threads|
  {
    hide Left;
    var front := threads[..|threads| - 1];
    if i < |front| {
      LessInTotal(front, i, t);
      assert threads[i := t][..|threads| - 1] == front[i := t];
    } else {
      assert threads[i := t][..|threads| - 1] == front;
    }
  }

  lemma StepMakesProgress(threads: seq<Thread>, s: Step, writersFirst: bool)
    requires LockInv(threads) && CanStep(threads, s, writersFirst)
    ensures TotalLeft(Stepped(threads, s)) < TotalLeft(threads)
  {
    StepLeavesLess(threads, s, writersFirst);
    LessInTotal(threads, s.thread, StepOf(threads[s.thread], s));
  }

  // ----- no deadlock -----

  /** Of some waiting threads, one waits for the highest lock. */
  lemma {:induction false} HighestWanted(threads: seq<Thread>, n: nat) returns (i: nat)
    requires 0 < n <= |threads| && exists k :: 0 <= k < n && Waiting(threads[k])
    ensures i < n && Waiting(threads[i])
    ensures forall k :: 0 <= k < n && Waiting(threads[k]) ==> Wanted(threads[k]) <= Wanted(threads[i])
  {
    var m := n - 1;
    if exists k :: 0 <= k < m && Waiting(threads[k]) {
      i := HighestWanted(threads, m);
      if Waiting(threads[m]) && Wanted(threads[m]) > Wanted(threads[i]) {
        i := m;
      }
    } else {
      i := m;
    }
  }

  /** A thread waits only for locks above those it holds. */
  lemma HoldsBelow(t: Thread, a: Address)
    requires ValidThread(t) && Waiting(t) && a in t.held
    ensures a < Wanted(t)
  {
    var k :| 0 <= k < t.taken && t.list[..t.taken][k] == a;
    assert t.list[k] == a;
  }

  /** In every state that satisfies the invariant, if some thread is not finished, some thread can
      step - whether or not waiting writers go before readers. */
  lemma NoDeadlock(threads: seq<Thread>, writersFirst: bool) returns (s: Step)
    requires LockInv(threads) && exists k :: 0 <= k < |threads| && !Finished(threads[k])
    ensures CanStep(threads, s, writersFirst)
  {
    if k :| 0 <= k < |threads| && !Finished(threads[k]) && !Waiting(threads[k]) {
      var a :| a in threads[k].held;
      s := Release(k, a);
    } else {
      var i := HighestWanted(threads, |threads|);
      var a := Wanted(threads[i]);
      NobodyHolds(threads, i);
      if w :| 0 <= w < |threads| && threads[w].mode == Write && Waiting(threads[w]) && Wanted(threads[w]) == a {
        i := w;
      }
      s := Take(i);
    }
  }

  lemma NobodyHolds(threads: seq<Thread>, i: nat)
    requires LockInv(threads) && i < |threads| && Waiting(threads[i])
    requires forall k :: 0 <= k < |threads| ==> Finished(threads[k]) || Waiting(threads[k])
    requires forall k :: 0 <= k < |threads| && Waiting(threads[k]) ==> Wanted(threads[k]) <= Wanted(threads[i])
    ensures forall k :: 0 <= k < |threads| ==> Wanted(threads[i]) !in threads[k].held
  {
    forall k | 0 <= k < |threads|
      ensures Wanted(threads[i]) !in threads[k].held
    {
      if Waiting(threads[k]) && Wanted(threads[i]) in threads[k].held {
        HoldsBelow(threads[k], Wanted(threads[i]));
      }
    }
  }

  /** From any state that satisfies the invariant there is a schedule under which every thread gets
      all its locks and gives them back. */
  lemma {:induction false} EveryoneFinishes(threads: seq<Thread>, writersFirst: bool) returns (schedule: seq<Step>)
    requires LockInv(threads)
    ensures Schedule(threads, schedule, writersFirst)
    decreases TotalLeft(threads)
  {
    if exists k :: 0 <= k < |threads| && !Finished(threads[k]) {
      var s := NoDeadlock(threads, writersFirst);
      StepKeepsInv(threads, s, writersFirst);
      StepMakesProgress(threads, s, writersFirst);
      var rest := EveryoneFinishes(Stepped(threads, s), writersFirst);
      schedule := [s] + rest;
    } else {
      schedule := [];
    }
  }

  /** The steps of the schedule are allowed and lead to a state where everyone is finished. */
  ghost predicate Schedule(threads: seq<Thread>, schedule: seq<Step>, writersFirst: bool)
    decreases |schedule|
  {
    if schedule == [] then forall k :: 0 <= k < |threads| ==> Finished(threads[k])
    else CanStep(threads, schedule[0], writersFirst) && Schedule(Stepped(threads, schedule[0]), schedule[1..], writersFirst)
  }

  /** Every state of every run of guards satisfies the invariant, so that neither two writers nor a
      writer and a reader ever hold a lock together, and no run is longer than the work there is. */
  lemma {:induction false} RunInv(threads: seq<Thread>, run: seq<Step>, writersFirst: bool)
    requires LockInv(threads) && Runs(threads, run, writersFirst)
    ensures LockInv(After(threads, run)) && |run| + TotalLeft(After(threads, run)) <= TotalLeft(threads)
    decreases |run|
  {
    if run != [] {
      StepKeepsInv(threads, run[0], writersFirst);
      StepMakesProgress(threads, run[0], writersFirst);
      RunInv(Stepped(threads, run[0]), run[1..], writersFirst);
    }
  }

  ghost predicate Runs(threads: seq<Thread>, run: seq<Step>, writersFirst: bool)
    decreases |run|
  {
    run == [] || (CanStep(threads, run[0], writersFirst) && Runs(Stepped(threads, run[0]), run[1..], writersFirst))
  }

  function After(threads: seq<Thread>, run: seq<Step>): seq<Thread>
    decreases |run|
  {
    if run == [] || run[0].thread >= |threads| then threads else After(Stepped(threads, run[0]), run[1..])
  }

  /** A thread about to take a guard on a list of nodes. */
  function Starting(mode: Mode, list: seq<Address>): Thread {
    Thread(mode, list, 0, {})
  }

  /** Threads that hold nothing yet satisfy the invariant. */
  lemma StartInv(threads: seq<Thread>)
    requires forall i :: 0 <= i < |threads| ==> Ascending(threads[i].list) && threads[i] == Starting(threads[i].mode, threads[i].list)
    ensures LockInv(threads)
  {}

  /** Any number of threads, each taking one guard: in whatever state a run has brought them, unless
      all are finished, some thread can step; no lock is held by a writer and anybody else; and the run
      takes at most two steps for each lock of each guard. */
  lemma GuardsNeverDeadlock(threads: seq<Thread>, run: seq<Step>, writersFirst: bool) returns (s: Step)
    requires forall i :: 0 <= i < |threads| ==> Ascending(threads[i].list) && threads[i] == Starting(threads[i].mode, threads[i].list)
    requires Runs(threads, run, writersFirst)
    ensures Exclusive(After(threads, run)) && |run| <= TotalLeft(threads)
    ensures (exists k :: 0 <= k < |After(threads, run)| && !Finished(After(threads, run)[k])) ==>
              CanStep(After(threads, run), s, writersFirst)
  {
    hide Exclusive, Runs, After;
    StartInv(threads);
    RunInv(threads, run, writersFirst);
    s := Take(0);
    if exists k :: 0 <= k < |After(threads, run)| && !Finished(After(threads, run)[k]) {
      s := NoDeadlock(After(threads, run), writersFirst);
    }
  }
}
