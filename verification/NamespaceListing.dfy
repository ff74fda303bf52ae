// Flat listings of a namespace: what an export of the tree contains, when a listing can be
// turned back into a tree, and the bookkeeping of the stack-driven traversal that makes one.

module NamespaceListing {
  import opened Bytes
  import opened Paths
  import opened Namespace
  import opened Sorting

  datatype NodeInfo = NodeInfo(path: str, kind: Kind)

  const ROOT_INFO := NodeInfo(ROOT, Directory)

  function Items(ns: Tree): set<NodeInfo> {
    set p | p in ns :: NodeInfo(p, ns[p])
  }

  /** The list holds every entry of the tree exactly once, and nothing else. */
  ghost predicate Lists(list: seq<NodeInfo>, ns: Tree) {
    multiset(list) == multiset(Items(ns))
  }

  predicate ByPath(a: NodeInfo, b: NodeInfo) {
    NotAfter(a.path, b.path)
  }

  predicate ByDepth(a: NodeInfo, b: NodeInfo) {
    Depth(a.path) < Depth(b.path) || (Depth(a.path) == Depth(b.path) && NotAfter(a.path, b.path))
  }

  lemma OrdersAreTotal()
    ensures TotalPreorder(ByPath) && TotalPreorder(ByDepth)
  {
    NotAfterIsOrder();
    hide NotAfter, Depth;
    forall a: NodeInfo, b: NodeInfo
      ensures ByPath(a, b) || ByPath(b, a)
      ensures ByDepth(a, b) || ByDepth(b, a)
    {
      assert NotAfter(a.path, b.path) || NotAfter(b.path, a.path);
    }
    forall a: NodeInfo, b: NodeInfo, c: NodeInfo
      ensures ByPath(a, b) && ByPath(b, c) ==> ByPath(a, c)
      ensures ByDepth(a, b) && ByDepth(b, c) ==> ByDepth(a, c)
    {
      assert NotAfter(a.path, b.path) && NotAfter(b.path, c.path) ==> NotAfter(a.path, c.path);
    }
  }

  lemma ItemsOfUpdate(ns: Tree, p: str, kind: Kind)
    requires p !in ns
    ensures Items(ns[p := kind]) == Items(ns) + {NodeInfo(p, kind)}
    ensures NodeInfo(p, kind) !in Items(ns)
  {
    var after := ns[p := kind];
    forall e | e in Items(ns)
      ensures e in Items(after)
    {
      assert e.path in after && after[e.path] == e.kind;
    }
    assert p in after;
  }

  lemma ItemsDetermine(ns: Tree, ns': Tree)
    requires Items(ns) == Items(ns')
    ensures ns == ns'
  {
    forall p | p in ns
      ensures p in ns' && ns'[p] == ns[p]
    {
      assert NodeInfo(p, ns[p]) in Items(ns');
    }
    forall p | p in ns'
      ensures p in ns
    {
      assert NodeInfo(p, ns'[p]) in Items(ns);
    }
  }

  // ----- which listings can be restored -----

  /** The conditions under which restoring a listing succeeds: valid paths, a root that is a
      directory, no other path twice, and every parent listed as a directory. */
  ghost predicate Restorable(list: multiset<NodeInfo>) {
    && ROOT_INFO in list
    && (forall e :: e in list ==> IsValid(e.path))
    && (forall e :: e in list && e.path == ROOT ==> e == ROOT_INFO)
    && (forall e :: e in list && e.path != ROOT ==> list[e] == 1)
    && (forall e, f :: e in list && f in list && e.path == f.path ==> e == f)
    && (forall e {:trigger ParentListed(list, e)} :: e in list && e.path != ROOT ==> ParentListed(list, e))
  }

  ghost predicate ParentListed(list: multiset<NodeInfo>, e: NodeInfo) {
    IsValid(e.path) && e.path != ROOT && NodeInfo(Parent(e.path), Directory) in list
  }

  lemma InItems(ns: Tree, e: NodeInfo)
    ensures e in Items(ns) <==> e.path in ns && ns[e.path] == e.kind
  {}

  lemma ListsMeans(list: seq<NodeInfo>, ns: Tree, e: NodeInfo)
    requires Lists(list, ns)
    ensures multiset(list)[e] == if e.path in ns && ns[e.path] == e.kind then 1 else 0
    ensures e in list <==> e in Items(ns)
  {
    InItems(ns, e);
    hide Items;
    assert e in list <==> e in multiset(list);
  }

  /** Every listing of a well-formed tree can be restored. */
  lemma ListingIsRestorable(list: seq<NodeInfo>, ns: Tree)
    requires WellFormed(ns) && Lists(list, ns)
    ensures Restorable(multiset(list))
    ensures (set e | e in list) == Items(ns)
  {
    hide IsValid, Parent, Lists, Items, ParentListed;
    ListsMeans(list, ns, ROOT_INFO);
    forall e
      ensures multiset(list)[e] == if e.path in ns && ns[e.path] == e.kind then 1 else 0
      ensures e in list <==> e in Items(ns)
    {
      ListsMeans(list, ns, e);
    }
    forall e | e in multiset(list)
      ensures IsValid(e.path)
      ensures e.path != ROOT ==> ParentListed(multiset(list), e)
    {
      assert ValidEntry(ns, e.path);
      ParentIsEntry(ns, multiset(list), e);
    }
  }

  lemma ParentIsEntry(ns: Tree, list: multiset<NodeInfo>, e: NodeInfo)
    requires ValidEntry(ns, e.path)
    requires forall f: NodeInfo :: list[f] == if f.path in ns && ns[f.path] == f.kind then 1 else 0
    ensures e.path != ROOT ==> ParentListed(list, e)
  {
    hide IsValid, Parent;
  }

  // ----- the stack of the traversal -----

  ghost predicate Covered(stack: seq<str>, p: str) {
    exists k :: 0 <= k < |stack| && Under(stack[k], p)
  }

  ghost predicate Apart(stack: seq<str>) {
    forall j, k :: 0 <= j < |stack| && 0 <= k < |stack| && j != k ==> !Under(stack[j], stack[k])
  }

  ghost predicate AllIn(stack: seq<str>, ns: Tree) {
    forall k :: 0 <= k < |stack| ==> stack[k] in ns && IsValid(stack[k])
  }

  /** The list names each path directly below p once. */
  ghost predicate ListsChildren(children: seq<str>, ns: Tree, p: str) {
    && (forall k :: 0 <= k < |children| ==> IsChild(ns, p, children[k]))
    && (forall q :: IsChild(ns, p, q) ==> q in children)
    && (forall j, k :: 0 <= j < k < |children| ==> children[j] != children[k])
  }

  ghost predicate IsChild(ns: Tree, p: str, q: str) {
    q in ns && IsValid(q) && q != ROOT && Parent(q) == p
  }

  /** Two different paths with one parent are apart, and apart from everything their parent is
      apart from. */
  lemma SiblingsApart(p: str, q: str, r: str)
    requires IsValid(p) && IsValid(q) && IsValid(r) && q != ROOT && Parent(q) == p
    ensures r != ROOT && Parent(r) == p && q != r ==> !Under(q, r)
    ensures !Under(r, p) && !Under(p, r) ==> !Under(q, r) && !Under(r, q)
  {
    ParentAndBase(q);
    UnderSelf(q);
    UnderParentIsNot(q);
    if r != ROOT && Parent(r) == p && q != r {
      UnderViaParent(q, r);
    }
    if !Under(r, p) && !Under(p, r) {
      if Under(q, r) {
        UnderSelf(p);
        UnderViaParent(p, q);
        UnderTransitive(p, q, r);
      }
      if Under(r, q) && r != q {
        UnderViaParent(r, q);
      }
    }
  }

  /** Popping a path and pushing its children visits exactly that path. */
  lemma PopAndPush(ns: Tree, rest: seq<str>, p: str, children: seq<str>)
    requires WellFormed(ns)
    requires AllIn(rest + [p], ns) && Apart(rest + [p])
    requires ListsChildren(children, ns, p)
    ensures AllIn(rest + children, ns) && Apart(rest + children)
    ensures Covered(rest + [p], p)
    ensures forall x :: x in ns ==> (Covered(rest + children, x) <==> Covered(rest + [p], x) && x != p)
  {
    hide IsValid, Parent, Under, WellFormed;
    var before, after := rest + [p], rest + children;
    assert before[|rest|] == p;
    UnderSelf(p);
    forall k | 0 <= k < |rest|
      ensures rest[k] in ns && IsValid(rest[k]) && !Under(rest[k], p) && !Under(p, rest[k])
    {
      assert before[k] == rest[k];
    }
    forall k | 0 <= k < |children|
      ensures IsChild(ns, p, children[k])
    {}
    ApartAfter(ns, rest, p, children);
    forall x | x in ns
      ensures Covered(after, x) <==> Covered(before, x) && x != p
    {
      CoveredAfter(ns, rest, p, children, x);
    }
  }

  lemma ApartAfter(ns: Tree, rest: seq<str>, p: str, children: seq<str>)
    requires AllIn(rest + [p], ns) && Apart(rest + [p])
    requires ListsChildren(children, ns, p)
    ensures AllIn(rest + children, ns) && Apart(rest + children)
  {
    hide IsValid, Parent, Under;
    var before, after := rest + [p], rest + children;
    assert before[|rest|] == p;
    forall k | 0 <= k < |rest|
      ensures before[k] == rest[k]
    {}
    forall j, k | 0 <= j < |after| && 0 <= k < |after| && j != k
      ensures !Under(after[j], after[k])
    {
      if j < |rest| && k < |rest| {
        assert !Under(before[j], before[k]);
      } else if j < |rest| {
        assert !Under(before[j], before[|rest|]) && !Under(before[|rest|], before[j]);
        assert IsChild(ns, p, children[k - |rest|]);
        SiblingsApart(p, after[k], after[j]);
      } else if k < |rest| {
        assert !Under(before[k], before[|rest|]) && !Under(before[|rest|], before[k]);
        assert IsChild(ns, p, children[j - |rest|]);
        SiblingsApart(p, after[j], after[k]);
      } else {
        assert IsChild(ns, p, children[j - |rest|]) && IsChild(ns, p, children[k - |rest|]);
        SiblingsApart(p, after[j], after[k]);
      }
    }
  }

  lemma CoveredAfter(ns: Tree, rest: seq<str>, p: str, children: seq<str>, x: str)
    requires WellFormed(ns) && x in ns
    requires AllIn(rest + [p], ns) && Apart(rest + [p])
    requires ListsChildren(children, ns, p)
    ensures Covered(rest + children, x) <==> Covered(rest + [p], x) && x != p
  {
    hide IsValid, Parent, Under, WellFormed;
    var before, after := rest + [p], rest + children;
    assert before[|rest|] == p;
    EntryIsValid(ns, x);
    assert IsValid(p);
    UnderSelf(p);
    if Covered(after, x) {
      var k :| 0 <= k < |after| && Under(after[k], x);
      if k < |rest| {
        assert before[k] == after[k];
        assert !Under(before[k], before[|rest|]);
      } else {
        assert IsChild(ns, p, children[k - |rest|]);
        ChildUnder(p, after[k], x);
        assert Under(before[|rest|], x);
      }
    }
    if Covered(before, x) && x != p {
      var k :| 0 <= k < |before| && Under(before[k], x);
      if k < |rest| {
        assert after[k] == before[k];
      } else {
        if x == ROOT {
          UnderOnlyRoot(p);
        }
        var q := StepTowards(p, x);
        AncestorsExist(ns, q, x);
        assert IsChild(ns, p, q);
        var i :| 0 <= i < |children| && children[i] == q;
        assert after[|rest| + i] == q;
      }
    }
  }

  lemma EntryIsValid(ns: Tree, x: str)
    requires WellFormed(ns) && x in ns
    ensures IsValid(x)
  {
    assert ValidEntry(ns, x);
  }

  lemma ChildUnder(p: str, q: str, x: str)
    requires IsValid(p) && IsValid(q) && IsValid(x) && q != ROOT && Parent(q) == p && Under(q, x)
    ensures Under(p, x) && x != p
  {
    ParentAndBase(q);
    UnderSelf(p);
    if p != q {
      UnderViaParent(p, q);
    }
    UnderTransitive(p, q, x);
    UnderParentIsNot(q);
  }

  function PathsOf<T>(entries: seq<(T, str)>): (paths: seq<str>)
    ensures |paths| == |entries|
  {
    seq(|entries|, k requires 0 <= k < |entries| => entries[k].1)
  }

  /** What holds between two rounds of the traversal: the list so far lists exactly the entries
      not covered by the stack. */
  ghost predicate Traversing(ns: Tree, stack: seq<str>, list: seq<NodeInfo>, seen: Tree) {
    && AllIn(stack, ns) && Apart(stack)
    && (forall p :: p in seen ==> p in ns && seen[p] == ns[p])
    && (forall p :: p in ns ==> (p in seen <==> !Covered(stack, p)))
    && Lists(list, seen)
  }

  lemma StartOfTraversal(ns: Tree)
    requires WellFormed(ns)
    ensures Traversing(ns, [ROOT], [], map[])
  {
    forall p | p in ns
      ensures Covered([ROOT], p)
    {
      EntryIsValid(ns, p);
      assert [ROOT][0] == ROOT && Under(ROOT, p);
    }
    assert Items(map[]) == {};
  }

  lemma TraversalStep(ns: Tree, rest: seq<str>, p: str, children: seq<str>, list: seq<NodeInfo>, seen: Tree)
    requires WellFormed(ns) && p in ns
    requires Traversing(ns, rest + [p], list, seen)
    requires ListsChildren(children, ns, p)
    ensures p !in seen
    ensures Traversing(ns, rest + children, list + [NodeInfo(p, ns[p])], seen[p := ns[p]])
  {
    hide AllIn, Apart, Covered, Lists, ListsChildren, WellFormed, IsValid;
    PopAndPush(ns, rest, p, children);
    ListOneMore(list, seen, p, ns[p]);
  }

  lemma NothingOnStack<T>(stack: seq<(T, str)>)
    requires stack == []
    ensures PathsOf(stack) == []
  {}

  lemma SeenExists(ns: Tree, stack: seq<str>, list: seq<NodeInfo>, seen: Tree)
    requires Traversing(ns, stack, list, seen)
    ensures seen.Keys <= ns.Keys
  {}

  lemma EndOfTraversal(ns: Tree, list: seq<NodeInfo>, seen: Tree)
    requires Traversing(ns, [], list, seen)
    ensures Lists(list, ns)
  {
    assert seen == ns;
  }

  lemma ListOneMore(list: seq<NodeInfo>, ns: Tree, p: str, kind: Kind)
    requires Lists(list, ns) && p !in ns
    ensures Lists(list + [NodeInfo(p, kind)], ns[p := kind])
  {
    ItemsOfUpdate(ns, p, kind);
    var items := Items(ns);
    hide Items;
    assert multiset(items + {NodeInfo(p, kind)}) == multiset(items) + multiset{NodeInfo(p, kind)};
  }

  // ----- creating the entries of a listing one by one -----

  /** What the first pass over the listing checks. */
  ghost predicate Checked(list: multiset<NodeInfo>) {
    && ROOT_INFO in list
    && forall e :: e in list ==> IsValid(e.path) && (e.path == ROOT ==> e == ROOT_INFO)
  }

  lemma CheckedMeans(list: seq<NodeInfo>)
    requires forall k :: 0 <= k < |list| ==> IsValid(list[k].path) && (list[k].path == ROOT ==> list[k].kind == Directory)
    ensures Checked(multiset(list)) <==> exists k :: 0 <= k < |list| && list[k].path == ROOT
  {
    hide IsValid;
    forall e | e in multiset(list)
      ensures IsValid(e.path) && (e.path == ROOT ==> e == ROOT_INFO)
    {
      assert e in list;
    }
    if ROOT_INFO in multiset(list) {
      assert ROOT_INFO in list;
    }
    if k :| 0 <= k < |list| && list[k].path == ROOT {
      assert list[k] == ROOT_INFO && list[k] in multiset(list);
    }
  }

  lemma NotChecked(list: seq<NodeInfo>)
    ensures Restorable(multiset(list)) ==> Checked(multiset(list)) && list != []
  {}

  lemma SameElements(s: seq<NodeInfo>, t: seq<NodeInfo>)
    requires multiset(s) == multiset(t)
    ensures (set e | e in s) == (set e | e in t)
  {
    forall e
      ensures e in s <==> e in t
    {
      assert e in s <==> e in multiset(s);
      assert e in t <==> e in multiset(t);
    }
  }

  /** The tree holds the root and the first n entries, which are pairwise at different paths. */
  ghost predicate CreatedUpTo(list: seq<NodeInfo>, n: nat, ns: Tree) {
    && n <= |list|
    && ROOT_INFO in Items(ns)
    && (forall k :: 0 <= k < n ==> list[k] in Items(ns))
    && (forall e :: e in Items(ns) ==> e == ROOT_INFO || e in list[..n])
    && (forall j, k :: 0 <= j < k < n && list[j].path == list[k].path ==> list[j].path == ROOT)
  }

  lemma StartOfCreation(list: seq<NodeInfo>)
    ensures CreatedUpTo(list, 0, EMPTY)
  {
    InItems(EMPTY, ROOT_INFO);
  }

  lemma SkipRoot(list: seq<NodeInfo>, i: nat, ns: Tree)
    requires Checked(multiset(list)) && i < |list| && list[i].path == ROOT
    requires CreatedUpTo(list, i, ns)
    ensures CreatedUpTo(list, i + 1, ns)
  {
    hide IsValid, Items;
    assert list[i] in multiset(list);
    assert list[..i + 1] == list[..i] + [list[i]];
  }

  /** Creating the next entry succeeds exactly if nothing stands in the way of the listing. */
  lemma CreateStep(list: seq<NodeInfo>, i: nat, ns: Tree)
    requires Checked(multiset(list)) && Sorted(list, ByDepth)
    requires i < |list| && list[i].path != ROOT
    requires WellFormed(ns) && CreatedUpTo(list, i, ns)
    ensures CanCreate(ns, list[i].path) ==> CreatedUpTo(list, i + 1, ns[list[i].path := list[i].kind])
    ensures !CanCreate(ns, list[i].path) ==> !Restorable(multiset(list))
  {
    var e := list[i];
    if CanCreate(ns, e.path) {
      CreatedOneMore(list, i, ns);
    } else if Restorable(multiset(list)) {
      NoObstacle(list, i, ns);
      assert false;
    }
  }

  lemma CreatedOneMore(list: seq<NodeInfo>, i: nat, ns: Tree)
    requires i < |list| && CreatedUpTo(list, i, ns) && list[i].path !in ns
    ensures CreatedUpTo(list, i + 1, ns[list[i].path := list[i].kind])
  {
    var e := list[i];
    ItemsOfUpdate(ns, e.path, e.kind);
    forall k | 0 <= k < i
      ensures list[k].path != e.path
    {
      InItems(ns, list[k]);
    }
    hide Items;
    assert list[..i + 1] == list[..i] + [e];
  }

  lemma ParentIsListed(list: multiset<NodeInfo>, e: NodeInfo)
    requires Restorable(list) && e in list && e.path != ROOT
    ensures IsValid(e.path) && IsValid(Parent(e.path)) && NodeInfo(Parent(e.path), Directory) in list
    ensures Depth(Parent(e.path)) < Depth(e.path)
  {
    assert ParentListed(list, e);
    DepthOfParent(e.path);
    ParentAndBase(e.path);
  }

  lemma EarlierInList(list: seq<NodeInfo>, i: nat, e: NodeInfo) returns (k: nat)
    requires Sorted(list, ByDepth) && i < |list| && e in multiset(list)
    requires Depth(e.path) < Depth(list[i].path)
    ensures k < i && list[k] == e
  {
    hide Depth, NotAfter;
    assert e in list;
    k :| k < |list| && list[k] == e;
    assert k > i ==> ByDepth(list[i], list[k]);
  }

  lemma NoObstacle(list: seq<NodeInfo>, i: nat, ns: Tree)
    requires Restorable(multiset(list)) && Sorted(list, ByDepth)
    requires i < |list| && list[i].path != ROOT
    requires CreatedUpTo(list, i, ns)
    ensures CanCreate(ns, list[i].path)
  {
    hide IsValid, Parent, Restorable, Items, Depth;
    var e := list[i];
    assert e in multiset(list);
    EarlierTwin(list, i, ns);
    ParentIsListed(multiset(list), e);
    var up := NodeInfo(Parent(e.path), Directory);
    var k := EarlierInList(list, i, up);
    InItems(ns, up);
  }

  /** No entry has a twin at the same path before it. */
  lemma EarlierTwin(list: seq<NodeInfo>, i: nat, ns: Tree)
    requires Restorable(multiset(list))
    requires i < |list| && list[i].path != ROOT
    requires CreatedUpTo(list, i, ns)
    ensures list[i].path !in ns
  {
    var e := list[i];
    hide IsValid, Parent;
    assert e in multiset(list);
    if e.path in ns {
      var f := NodeInfo(e.path, ns[e.path]);
      InItems(ns, f);
      hide Items;
      assert f in list[..i];
      var k :| 0 <= k < i && list[k] == f;
      assert list[k] in multiset(list);
      assert f == e;
      TwiceInList(list, k, i);
      assert false;
    }
  }

  lemma TwiceInList(list: seq<NodeInfo>, j: nat, k: nat)
    requires j < k < |list| && list[j] == list[k]
    ensures multiset(list)[list[k]] >= 2
  {
    var a, b := list[..k], list[k..];
    assert list == a + b;
    assert a[j] == list[k] && b[0] == list[k];
    assert multiset(list) == multiset(a) + multiset(b);
    assert list[k] in multiset(a) && list[k] in multiset(b);
  }

  lemma CreatedElements(list: seq<NodeInfo>, ns: Tree)
    requires Checked(multiset(list)) && CreatedUpTo(list, |list|, ns)
    ensures forall e :: e in list <==> e in Items(ns)
    ensures forall e :: e in list <==> e in multiset(list)
    ensures Items(ns) == set e | e in list
  {
    hide IsValid, Items;
    assert list[..|list|] == list;
    assert ROOT_INFO in multiset(list);
  }

  lemma CreatedOnce(list: seq<NodeInfo>, ns: Tree, e: NodeInfo)
    requires Checked(multiset(list)) && WellFormed(ns) && CreatedUpTo(list, |list|, ns)
    requires e in multiset(list) && e.path != ROOT
    ensures multiset(list)[e] == 1 && ParentListed(multiset(list), e)
  {
    CreatedElements(list, ns);
    hide IsValid, Parent, Items;
    InItems(ns, e);
    assert ValidEntry(ns, e.path);
    InItems(ns, NodeInfo(Parent(e.path), Directory));
    OnceInList(list, e);
  }

  lemma AllCreated(list: seq<NodeInfo>, ns: Tree)
    requires Checked(multiset(list)) && WellFormed(ns) && CreatedUpTo(list, |list|, ns)
    ensures Restorable(multiset(list))
    ensures Items(ns) == set e | e in list
  {
    var m := multiset(list);
    CreatedElements(list, ns);
    assert Checked(m);
    assert ROOT_INFO in m;
    hide IsValid, Parent, Items, CreatedUpTo, WellFormed, ParentListed;
    forall e | e in m && e.path != ROOT
      ensures m[e] == 1 && ParentListed(m, e)
    {
      CreatedOnce(list, ns, e);
    }
    forall e, f | e in m && f in m && e.path == f.path
      ensures e == f
    {
      InItems(ns, e);
      InItems(ns, f);
    }
  }

  lemma OnceInList(list: seq<NodeInfo>, e: NodeInfo)
    requires e in list && e.path != ROOT
    requires forall j, k :: 0 <= j < k < |list| && list[j].path == list[k].path ==> list[j].path == ROOT
    ensures multiset(list)[e] == 1
  {
    var k :| 0 <= k < |list| && list[k] == e;
    var a, b := list[..k], list[k + 1..];
    assert list == a + [e] + b;
    assert multiset(list) == multiset(a) + multiset([e]) + multiset(b);
    forall j | 0 <= j < |a|
      ensures a[j] != e
    {
      assert a[j] == list[j];
    }
    forall j | 0 <= j < |b|
      ensures b[j] != e
    {
      assert b[j] == list[k + 1 + j];
    }
  }
}
