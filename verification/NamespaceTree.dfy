// The master's namespace as a tree of heap nodes with parent pointers and child lists.
// The ghost map `nodes` says which node stands at which path; `View()` forgets the nodes and
// keeps their kinds.  Every operation is shown to be the map operation of Namespace.dfy.

module NamespaceTree {
  import opened Bytes
  import opened Paths
  import opened Namespace
  import opened NamespaceListing
  import opened Sorting

  class Node {
    var name: str
    var kind: Kind
    var parent: Node?
    var children: seq<Node>

    constructor (name: str, kind: Kind, parent: Node?)
      ensures this.name == name && this.kind == kind && this.parent == parent && children == []
    {
      this.name, this.kind, this.parent, this.children := name, kind, parent, [];
    }
  }

  /** The fields of a node, as a value. */
  datatype Fields = Fields(name: str, kind: Kind, parent: Node?, children: seq<Node>)

  // ----- the shape of the tree, over values -----

  /** q is the path, one component below p, of the node c. */
  ghost predicate ChildPath(nodes: map<str, Node>, p: str, q: str, c: Node) {
    IsValid(q) && q != ROOT && Parent(q) == p && q in nodes && nodes[q] == c
  }

  /** A node is a child, under its base name, of the node of its parent path. */
  ghost predicate LinkedUp(nodes: map<str, Node>, fields: map<str, Fields>, p: str)
    requires p in nodes && nodes.Keys == fields.Keys
  {
    && IsValid(p)
    && (p == ROOT ==> fields[p].parent == null && fields[p].kind == Directory)
    && (p != ROOT ==>
          && Parent(p) in nodes
          && fields[p].parent == nodes[Parent(p)]
          && fields[p].name == Base(p)
          && fields[Parent(p)].kind == Directory
          && nodes[p] in fields[Parent(p)].children)
  }

  /** The children of a node are nodes one component longer, each listed once; files have none. */
  ghost predicate LinkedDown(nodes: map<str, Node>, fields: map<str, Fields>, p: str)
    requires p in nodes && nodes.Keys == fields.Keys
  {
    && (fields[p].kind == File ==> fields[p].children == [])
    && (forall c :: c in fields[p].children ==> exists q :: ChildPath(nodes, p, q, c))
    && Distinct(fields[p].children)
  }

  ghost predicate Distinct<T>(s: seq<T>) {
    forall i, j :: 0 <= i < j < |s| ==> s[i] != s[j]
  }

  ghost predicate Injective(nodes: map<str, Node>) {
    forall p, q :: p in nodes && q in nodes && nodes[p] == nodes[q] ==> p == q
  }

  ghost predicate Shape(nodes: map<str, Node>, fields: map<str, Fields>) {
    && nodes.Keys == fields.Keys
    && ROOT in nodes
    && Injective(nodes)
    && (forall p {:trigger LinkedUp(nodes, fields, p)} :: p in nodes ==> LinkedUp(nodes, fields, p))
    && (forall p {:trigger LinkedDown(nodes, fields, p)} :: p in nodes ==> LinkedDown(nodes, fields, p))
  }

  lemma ShapeBasics(nodes: map<str, Node>, fields: map<str, Fields>)
    requires Shape(nodes, fields)
    ensures nodes.Keys == fields.Keys && ROOT in nodes && Injective(nodes)
  {}

  lemma ShapeAt(nodes: map<str, Node>, fields: map<str, Fields>, p: str)
    requires Shape(nodes, fields) && p in nodes
    ensures nodes.Keys == fields.Keys && ROOT in nodes
    ensures LinkedUp(nodes, fields, p) && LinkedDown(nodes, fields, p)
  {}

  lemma UpAt(nodes: map<str, Node>, fields: map<str, Fields>, p: str)
    requires Shape(nodes, fields) && p in nodes
    ensures nodes.Keys == fields.Keys && IsValid(p)
    ensures p == ROOT ==> fields[p].parent == null && fields[p].kind == Directory
    ensures p != ROOT ==>
              && Parent(p) in nodes
              && fields[p].parent == nodes[Parent(p)]
              && fields[p].name == Base(p)
              && fields[Parent(p)].kind == Directory
              && nodes[p] in fields[Parent(p)].children
  {
    ShapeAt(nodes, fields, p);
    hide *;
    hide Shape;
    LinkedUpMeans(nodes, fields, p);
  }

  lemma LinkedUpMeans(nodes: map<str, Node>, fields: map<str, Fields>, p: str)
    requires p in nodes && nodes.Keys == fields.Keys && LinkedUp(nodes, fields, p)
    ensures IsValid(p)
    ensures p == ROOT ==> fields[p].parent == null && fields[p].kind == Directory
    ensures p != ROOT ==>
              && Parent(p) in nodes
              && fields[p].parent == nodes[Parent(p)]
              && fields[p].name == Base(p)
              && fields[Parent(p)].kind == Directory
              && nodes[p] in fields[Parent(p)].children
  {
    hide IsValid, Parent, Base;
  }

  /** The path of a listed child. */
  lemma DownAt(nodes: map<str, Node>, fields: map<str, Fields>, p: str, c: Node) returns (q: str)
    requires Shape(nodes, fields) && p in nodes && p in fields && c in fields[p].children
    ensures q in nodes && q in fields && nodes[q] == c
    ensures IsValid(q) && q != ROOT && Parent(q) == p && fields[q].name == Base(q)
  {
    hide IsValid, Parent, Base;
    ShapeAt(nodes, fields, p);
    q :| ChildPath(nodes, p, q, c);
    ShapeAt(nodes, fields, q);
  }

  lemma ShapeIsWellFormed(nodes: map<str, Node>, fields: map<str, Fields>, ns: Tree)
    requires Shape(nodes, fields)
    requires ns.Keys == nodes.Keys && forall p :: p in ns ==> ns[p] == fields[p].kind
    ensures WellFormed(ns)
  {
    hide IsValid, Parent, Base;
    UpAt(nodes, fields, ROOT);
    forall p | p in ns
      ensures ValidEntry(ns, p)
    {
      UpAt(nodes, fields, p);
    }
  }

  /** Adding a childless node at a free path, listed last by its parent. */
  lemma AttachKeepsShape(nodes: map<str, Node>, fields: map<str, Fields>, path: str, child: Node, f: Fields)
    requires Shape(nodes, fields)
    requires IsValid(path) && path != ROOT && path !in nodes && (forall p :: p in nodes ==> nodes[p] != child)
    requires Parent(path) in nodes && fields[Parent(path)].kind == Directory
    requires f.name == Base(path) && f.parent == nodes[Parent(path)] && f.children == []
    ensures var above := fields[Parent(path)];
            Shape(nodes[path := child],
                  fields[Parent(path) := above.(children := above.children + [child])][path := f])
  {
    hide IsValid, Parent, Base, Shape;
    ShapeBasics(nodes, fields);
    var up := Parent(path);
    var above := fields[up];
    var after := nodes[path := child];
    var fields' := fields[up := above.(children := above.children + [child])][path := f];
    ShapeAt(nodes, fields, up);
    forall p | p in after
      ensures LinkedUp(after, fields', p)
    {
      if p != path {
        UpAt(nodes, fields, p);
        if p != ROOT && Parent(p) == path {
          assert false;
        }
      }
    }
    forall p | p in after
      ensures LinkedDown(after, fields', p)
    {
      AttachKeepsDown(nodes, fields, path, child, f, p);
    }
    assert Injective(after);
    ShapeIntro(after, fields');
  }

  lemma ShapeIntro(nodes: map<str, Node>, fields: map<str, Fields>)
    requires nodes.Keys == fields.Keys && ROOT in nodes && Injective(nodes)
    requires forall p :: p in nodes ==> LinkedUp(nodes, fields, p)
    requires forall p :: p in nodes ==> LinkedDown(nodes, fields, p)
    ensures Shape(nodes, fields)
  {}

  lemma DistinctSnoc<T>(s: seq<T>, x: T)
    requires Distinct(s) && x !in s
    ensures Distinct(s + [x])
  {}

  lemma AttachKeepsDown(nodes: map<str, Node>, fields: map<str, Fields>, path: str, child: Node, f: Fields, p: str)
    requires Shape(nodes, fields)
    requires IsValid(path) && path != ROOT && path !in nodes && (forall p :: p in nodes ==> nodes[p] != child)
    requires Parent(path) in nodes && fields[Parent(path)].kind == Directory
    requires f.name == Base(path) && f.parent == nodes[Parent(path)] && f.children == []
    requires p in nodes[path := child]
    ensures var above := fields[Parent(path)];
            LinkedDown(nodes[path := child],
                       fields[Parent(path) := above.(children := above.children + [child])][path := f], p)
  {
    hide IsValid, Parent, Base, Shape;
    ShapeBasics(nodes, fields);
    var up := Parent(path);
    var above := fields[up];
    var after := nodes[path := child];
    var fields' := fields[up := above.(children := above.children + [child])][path := f];
    if p != path {
      ShapeAt(nodes, fields, p);
      forall c | c in fields'[p].children
        ensures exists q :: ChildPath(after, p, q, c)
      {
        if c in fields[p].children {
          var q := DownAt(nodes, fields, p, c);
          assert ChildPath(after, p, q, c);
        } else {
          assert ChildPath(after, p, path, child);
        }
      }
      if child in fields[p].children {
        var q := DownAt(nodes, fields, p, child);
        assert false;
      }
      DistinctSnoc(fields[p].children, child);
    }
  }

  lemma CreatableIsNew(ns: Tree, path: str)
    requires CanCreate(ns, path)
    ensures IsValid(path) && path != ROOT && path !in ns
  {}

  // ----- removing a childless node -----

  function RemoveAt<T>(s: seq<T>, i: nat): seq<T>
    requires i < |s|
  {
    s[..i] + s[i + 1..]
  }

  lemma RemoveAtDistinct<T>(s: seq<T>, i: nat)
    requires Distinct(s) && i < |s|
    ensures Distinct(RemoveAt(s, i))
    ensures forall x :: x in RemoveAt(s, i) <==> x in s && x != s[i]
  {
    var r := RemoveAt(s, i);
    forall x | x in s && x != s[i]
      ensures x in r
    {
      var j :| 0 <= j < |s| && s[j] == x;
      assert r[if j < i then j else j - 1] == x;
    }
  }

  lemma RemoveAtMember<T>(s: seq<T>, i: nat, x: T)
    requires i < |s| && x in RemoveAt(s, i)
    ensures x in s
  {}

  lemma DetachKeepsShape(nodes: map<str, Node>, fields: map<str, Fields>, path: str, i: nat)
    requires Shape(nodes, fields)
    requires path in nodes && path != ROOT && fields[path].children == []
    requires IsValid(path) && Parent(path) in nodes
    requires i < |fields[Parent(path)].children| && fields[Parent(path)].children[i] == nodes[path]
    ensures var above := fields[Parent(path)];
            Shape(nodes - {path},
                  fields[Parent(path) := above.(children := RemoveAt(above.children, i))] - {path})
  {
    hide IsValid, Parent, Base, Shape, RemoveAt;
    ShapeBasics(nodes, fields);
    var up := Parent(path);
    var above := fields[up];
    var after := nodes - {path};
    var fields' := fields[up := above.(children := RemoveAt(above.children, i))] - {path};
    UpAt(nodes, fields, path);
    ShapeAt(nodes, fields, up);
    RemoveAtDistinct(above.children, i);
    ParentAndBase(path);
    forall p | p in after
      ensures LinkedUp(after, fields', p)
    {
      UpAt(nodes, fields, p);
    }
    forall p | p in after
      ensures LinkedDown(after, fields', p)
    {
      ShapeAt(nodes, fields, p);
      forall c | c in fields'[p].children
        ensures exists q :: ChildPath(after, p, q, c)
      {
        if p == up {
          RemoveAtMember(above.children, i, c);
        }
        var q := DownAt(nodes, fields, p, c);
        assert ChildPath(after, p, q, c);
      }
    }
    ShapeIntro(after, fields');
  }

  // ----- moving a subtree -----

  /** The fields after the moved node has been renamed and hung under its new parent, before the
      paths are rewritten. */
  ghost predicate Rehung(nodes: map<str, Node>, fields: map<str, Fields>, source: str, destination: str, after: map<str, Fields>)
    requires IsValid(source) && source != ROOT && IsValid(destination) && destination != ROOT
  {
    var from, to := Parent(source), Parent(destination);
    && nodes.Keys == fields.Keys == after.Keys
    && source in nodes && from in nodes && to in nodes
    && (forall p :: p in after && p != from && p != to && p != source ==> after[p] == fields[p])
    && after[source] == fields[source].(name := Base(destination), parent := nodes[to])
    && (from == to ==> after[from] == fields[from])
    && (from != to ==>
          && (exists i :: 0 <= i < |fields[from].children|
                       && fields[from].children[i] == nodes[source]
                       && after[from] == fields[from].(children := RemoveAt(fields[from].children, i)))
          && after[to] == fields[to].(children := fields[to].children + [nodes[source]]))
  }

  /** What rehanging does to the child lists, as sets. */
  lemma RehungChildren(nodes: map<str, Node>, fields: map<str, Fields>, source: str, destination: str, after: map<str, Fields>, p: str)
    requires Shape(nodes, fields)
    requires IsValid(source) && source != ROOT && IsValid(destination) && destination != ROOT
    requires Rehung(nodes, fields, source, destination, after)
    requires p in nodes && p != source
    ensures p in after && p in fields
    ensures after[p].kind == fields[p].kind && after[p].name == fields[p].name && after[p].parent == fields[p].parent
    ensures forall c :: c in after[p].children <==>
              if c == nodes[source] then p == Parent(destination) else c in fields[p].children
    ensures Distinct(after[p].children)
  {
    hide IsValid, Parent, Base, Shape, RemoveAt;
    ShapeBasics(nodes, fields);
    ShapeAt(nodes, fields, p);
    var from, to, s := Parent(source), Parent(destination), nodes[source];
    UpAt(nodes, fields, source);
    if s in fields[p].children {
      var q := DownAt(nodes, fields, p, s);
      assert q == source && p == from;
    }
    if p == from && from != to {
      var i :| 0 <= i < |fields[from].children|
            && fields[from].children[i] == s
            && after[from] == fields[from].(children := RemoveAt(fields[from].children, i));
      RemoveAtDistinct(fields[from].children, i);
    } else if p == to && from != to {
      DistinctSnoc(fields[to].children, s);
    }
  }

  ghost predicate Moving(nodes: map<str, Node>, fields: map<str, Fields>, source: str, destination: str, after: map<str, Fields>, ns: Tree) {
    && Shape(nodes, fields)
    && ns.Keys == nodes.Keys == fields.Keys
    && (forall p :: p in ns ==> ns[p] == fields[p].kind)
    && WellFormed(ns) && CanRename(ns, source, destination)
    && IsValid(source) && IsValid(destination) && destination != ROOT
    && Rehung(nodes, fields, source, destination, after)
    && (fields[Parent(destination)].kind == Directory)
    && !Under(source, Parent(destination))
  }

  /** What is known before anything is relinked. */
  ghost predicate Movable(nodes: map<str, Node>, fields: map<str, Fields>, source: str, destination: str, ns: Tree) {
    && Shape(nodes, fields)
    && ns.Keys == nodes.Keys == fields.Keys
    && (forall p :: p in ns ==> ns[p] == fields[p].kind)
    && WellFormed(ns) && CanRename(ns, source, destination)
    && IsValid(source) && IsValid(destination) && destination != ROOT
    && Parent(source) in nodes
    && fields[Parent(destination)].kind == Directory
    && !Under(source, Parent(destination))
  }

  lemma InPlaceIsRehung(nodes: map<str, Node>, fields: map<str, Fields>, source: str, destination: str)
    requires IsValid(source) && source != ROOT && IsValid(destination) && destination != ROOT
    requires nodes.Keys == fields.Keys && source in nodes && Parent(source) in nodes
    requires Parent(source) == Parent(destination) && Parent(source) != source
    requires fields[source].parent == nodes[Parent(source)]
    ensures Rehung(nodes, fields, source, destination, fields[source := fields[source].(name := Base(destination))])
  {
    hide IsValid, Parent, Base, RemoveAt;
  }

  lemma InPlaceIsMoving(nodes: map<str, Node>, fields: map<str, Fields>, source: str, destination: str, ns: Tree)
    requires Movable(nodes, fields, source, destination, ns)
    requires fields[source].parent == nodes[Parent(destination)]
    requires nodes[Parent(source)] == nodes[Parent(destination)]
    ensures Moving(nodes, fields, source, destination, fields[source := fields[source].(name := Base(destination))], ns)
  {
    ShapeBasics(nodes, fields);
    ParentAndBase(source);
    hide Shape, IsValid, Parent, Base, Under, WellFormed, Rehung;
    assert Parent(source) == Parent(destination);
    InPlaceIsRehung(nodes, fields, source, destination);
  }

  lemma RelinkIsMoving(nodes: map<str, Node>, fields: map<str, Fields>, source: str, destination: str, ns: Tree, i: nat)
    requires Movable(nodes, fields, source, destination, ns)
    requires nodes[Parent(source)] != nodes[Parent(destination)]
    requires Parent(source) != source && Parent(destination) != source
    requires i < |fields[Parent(source)].children| && fields[Parent(source)].children[i] == nodes[source]
    ensures var up, down := Parent(source), Parent(destination);
            Moving(nodes, fields, source, destination,
                   fields[up := fields[up].(children := RemoveAt(fields[up].children, i))]
                         [down := fields[down].(children := fields[down].children + [nodes[source]])]
                         [source := fields[source].(name := Base(destination), parent := nodes[down])], ns)
  {
    hide Shape, IsValid, Parent, Base, Under, WellFormed, RemoveAt;
  }

  lemma MovingBasics(nodes: map<str, Node>, fields: map<str, Fields>, source: str, destination: str, after: map<str, Fields>, ns: Tree)
    requires Moving(nodes, fields, source, destination, after, ns)
    ensures Shape(nodes, fields) && nodes.Keys == fields.Keys == after.Keys && source in nodes && IsValid(source) && source != ROOT
    ensures IsValid(destination) && destination != ROOT && Parent(destination) in nodes && !Under(source, Parent(destination))
    ensures Parent(source) in nodes && !Under(source, Parent(source))
    ensures Rehung(nodes, fields, source, destination, after)
    ensures fields[Parent(destination)].kind == Directory
    ensures after[source] == fields[source].(name := Base(destination), parent := nodes[Parent(destination)])
    ensures WellFormed(ns) && CanCreate(ns, destination) && ns.Keys == nodes.Keys
    ensures Injective(nodes)
    ensures after[source].children == fields[source].children
  {
    UnderParentIsNot(source);
  }

  /** One step of relocation below the moved node. */
  lemma MovedStep(nodes: map<str, Node>, fields: map<str, Fields>, source: str, destination: str, after: map<str, Fields>, ns: Tree, q: str)
    requires Moving(nodes, fields, source, destination, after, ns)
    requires q in nodes && Under(source, q)
    ensures var t := Relocate(source, destination, q);
            && IsValid(t) && t != ROOT && IsValid(q) && q != ROOT
            && (q == source ==> t == destination)
            && (q != source ==>
                  && Parent(q) in nodes && Under(source, Parent(q))
                  && Parent(t) == Relocate(source, destination, Parent(q))
                  && Base(t) == Base(q))
            && t in Renamed(nodes, source, destination)
            && Renamed(nodes, source, destination)[t] == nodes[q]
            && t in Renamed(after, source, destination)
            && Renamed(after, source, destination)[t] == after[q]
  {
    MovingBasics(nodes, fields, source, destination, after, ns);
    hide Moving, Shape, IsValid, Parent, Base, WellFormed, CanCreate, Rehung, Child, Renamed, Placed, Outside;
    PlacedEntry(ns, source, destination, q);
    var t := Relocate(source, destination, q);
    UpAt(nodes, fields, q);
    PlacedAt(nodes, source, destination, q);
    PlacedAt(after, source, destination, q);
    RenamedLookup(nodes, source, destination, t);
    RenamedLookup(after, source, destination, t);
    if q == source {
    } else {
      LongerThanRoot(destination);
      RelocateStep(source, destination, q);
      ParentAndBase(q);
      PlacedEntry(ns, source, destination, Parent(q));
      ChildOf(Relocate(source, destination, Parent(q)), Base(q));
    }
  }

  lemma UnmovedStep(nodes: map<str, Node>, fields: map<str, Fields>, source: str, destination: str, after: map<str, Fields>, ns: Tree, p: str)
    requires Moving(nodes, fields, source, destination, after, ns)
    requires p in nodes && !Under(source, p)
    ensures p in Renamed(nodes, source, destination) && Renamed(nodes, source, destination)[p] == nodes[p]
    ensures p in Renamed(after, source, destination) && Renamed(after, source, destination)[p] == after[p]
  {
    MovingBasics(nodes, fields, source, destination, after, ns);
    hide Moving, Shape, IsValid, Parent, Base, WellFormed, CanCreate, Rehung, Child, Renamed, Placed, Outside, Under, Relocate;
    RenamedLookup(nodes, source, destination, p);
    RenamedLookup(after, source, destination, p);
    if p in Placed(nodes, source, destination) {
      var q := PlacedFrom(nodes, source, destination, p);
      PlacedEntry(ns, source, destination, q);
      assert false;
    }
    if p in Placed(after, source, destination) {
      var q := PlacedFrom(after, source, destination, p);
      PlacedEntry(ns, source, destination, q);
      assert false;
    }
  }

  lemma MovedFrom(nodes: map<str, Node>, fields: map<str, Fields>, source: str, destination: str, after: map<str, Fields>, ns: Tree, t: str) returns (q: str)
    requires Moving(nodes, fields, source, destination, after, ns)
    requires t in Renamed(nodes, source, destination)
    ensures q in nodes
    ensures if Under(source, q) then Relocate(source, destination, q) == t else q == t
  {
    hide Moving, Renamed, Placed, Outside, Under, Relocate;
    RenamedLookup(nodes, source, destination, t);
    if t in Placed(nodes, source, destination) {
      q := PlacedFrom(nodes, source, destination, t);
    } else {
      q := t;
    }
  }

  lemma MoveKeepsUp(nodes: map<str, Node>, fields: map<str, Fields>, source: str, destination: str, after: map<str, Fields>, ns: Tree, t: str)
    requires Moving(nodes, fields, source, destination, after, ns)
    requires t in Renamed(nodes, source, destination)
    requires Renamed(nodes, source, destination).Keys == Renamed(after, source, destination).Keys
    ensures LinkedUp(Renamed(nodes, source, destination), Renamed(after, source, destination), t)
  {
    MovingBasics(nodes, fields, source, destination, after, ns);
    var q := MovedFrom(nodes, fields, source, destination, after, ns, t);
    hide Moving, Shape, IsValid, Parent, Base, WellFormed, CanCreate, Rehung, Child, Renamed, Placed, Outside, Under, Relocate;
    UpAt(nodes, fields, q);
    UpAt(nodes, fields, source);
    UnderSelf(source);
    var to := Parent(destination);
    if Under(source, q) {
      MovedStep(nodes, fields, source, destination, after, ns, q);
      if q == source {
        UnmovedStep(nodes, fields, source, destination, after, ns, to);
        RehungChildren(nodes, fields, source, destination, after, to);
      } else {
        MovedStep(nodes, fields, source, destination, after, ns, Parent(q));
        RehungChildren(nodes, fields, source, destination, after, q);
        if Parent(q) != source {
          RehungChildren(nodes, fields, source, destination, after, Parent(q));
        }
      }
    } else {
      UnmovedStep(nodes, fields, source, destination, after, ns, q);
      RehungChildren(nodes, fields, source, destination, after, q);
      if q != ROOT {
        UnderViaParent(source, q);
        UnmovedStep(nodes, fields, source, destination, after, ns, Parent(q));
        RehungChildren(nodes, fields, source, destination, after, Parent(q));
      }
    }
  }

  lemma MoveKeepsDown(nodes: map<str, Node>, fields: map<str, Fields>, source: str, destination: str, after: map<str, Fields>, ns: Tree, t: str)
    requires Moving(nodes, fields, source, destination, after, ns)
    requires t in Renamed(nodes, source, destination)
    requires Renamed(nodes, source, destination).Keys == Renamed(after, source, destination).Keys
    ensures LinkedDown(Renamed(nodes, source, destination), Renamed(after, source, destination), t)
  {
    hide Moving, Shape, IsValid, Parent, Base, WellFormed, CanCreate, Rehung, Child, Renamed, Placed, Outside, Under, Relocate;
    MovingBasics(nodes, fields, source, destination, after, ns);
    var p := MovedFrom(nodes, fields, source, destination, after, ns, t);
    ShapeAt(nodes, fields, p);
    UnderSelf(source);
    var nodes' := Renamed(nodes, source, destination);
    if Under(source, p) {
      MovedStep(nodes, fields, source, destination, after, ns, p);
      if p != source {
        RehungChildren(nodes, fields, source, destination, after, p);
      }
      forall c | c in after[p].children
        ensures exists r :: ChildPath(nodes', t, r, c)
      {
        var q := DownAt(nodes, fields, p, c);
        if q != source {
          UnderViaParent(source, q);
        }
        MovedStep(nodes, fields, source, destination, after, ns, q);
        assert ChildPath(nodes', t, Relocate(source, destination, q), c);
      }
    } else {
      UnmovedStep(nodes, fields, source, destination, after, ns, p);
      RehungChildren(nodes, fields, source, destination, after, p);
      forall c | c in after[p].children
        ensures exists r :: ChildPath(nodes', t, r, c)
      {
        if c == nodes[source] {
          MovedStep(nodes, fields, source, destination, after, ns, source);
          assert ChildPath(nodes', t, destination, c);
        } else {
          var q := DownAt(nodes, fields, p, c);
          UnderViaParent(source, q);
          UnmovedStep(nodes, fields, source, destination, after, ns, q);
          assert ChildPath(nodes', t, q, c);
        }
      }
    }
  }

  lemma MoveKeepsInjective(nodes: map<str, Node>, fields: map<str, Fields>, source: str, destination: str, after: map<str, Fields>, ns: Tree)
    requires Moving(nodes, fields, source, destination, after, ns)
    ensures Injective(Renamed(nodes, source, destination))
    ensures Renamed(nodes, source, destination).Keys == Renamed(after, source, destination).Keys
    ensures ROOT in Renamed(nodes, source, destination) && Renamed(nodes, source, destination)[ROOT] == nodes[ROOT]
    ensures forall t :: t in Renamed(nodes, source, destination) ==> Renamed(nodes, source, destination)[t] in nodes.Values
  {
    MovingBasics(nodes, fields, source, destination, after, ns);
    hide Moving, Shape, IsValid, Parent, Base, WellFormed, CanCreate, Rehung, Child, Renamed, Placed, Outside, Under, Relocate;
    var nodes' := Renamed(nodes, source, destination);
    var fields' := Renamed(after, source, destination);
    ShapeBasics(nodes, fields);
    RootNotUnder(source);
    UnmovedStep(nodes, fields, source, destination, after, ns, ROOT);
    forall t | t in nodes'
      ensures t in fields' && nodes'[t] in nodes.Values
    {
      var q := MovedFrom(nodes, fields, source, destination, after, ns, t);
      if Under(source, q) {
        MovedStep(nodes, fields, source, destination, after, ns, q);
      } else {
        UnmovedStep(nodes, fields, source, destination, after, ns, q);
      }
    }
    forall t | t in fields'
      ensures t in nodes'
    {
      RenamedLookup(after, source, destination, t);
      if t in Placed(after, source, destination) {
        var q := PlacedFrom(after, source, destination, t);
        MovedStep(nodes, fields, source, destination, after, ns, q);
      } else {
        UnmovedStep(nodes, fields, source, destination, after, ns, t);
      }
    }
    forall t, u | t in nodes' && u in nodes' && nodes'[t] == nodes'[u]
      ensures t == u
    {
      MovedNode(nodes, fields, source, destination, after, ns, t);
      MovedNode(nodes, fields, source, destination, after, ns, u);
    }
  }

  lemma RootNotUnder(source: str)
    requires IsValid(source) && source != ROOT
    ensures !Under(source, ROOT)
  {
    if Under(source, ROOT) {
      UnderOnlyRoot(source);
      assert false;
    }
  }

  /** The node at a path of the moved tree is the node of exactly one old path. */
  lemma MovedNode(nodes: map<str, Node>, fields: map<str, Fields>, source: str, destination: str, after: map<str, Fields>, ns: Tree, t: str)
    requires Moving(nodes, fields, source, destination, after, ns)
    requires t in Renamed(nodes, source, destination)
    ensures exists q :: q in nodes && nodes[q] == Renamed(nodes, source, destination)[t]
                     && (if Under(source, q) then Relocate(source, destination, q) == t else q == t)
  {
    hide Moving, Renamed, Under, Relocate;
    var q := MovedFrom(nodes, fields, source, destination, after, ns, t);
    if Under(source, q) {
      MovedStep(nodes, fields, source, destination, after, ns, q);
    } else {
      UnmovedStep(nodes, fields, source, destination, after, ns, q);
    }
  }

  /** Renaming one node and rewriting all the paths below it keeps the shape. */
  lemma MoveKeepsShape(nodes: map<str, Node>, fields: map<str, Fields>, source: str, destination: str, after: map<str, Fields>, ns: Tree)
    requires Moving(nodes, fields, source, destination, after, ns)
    ensures Shape(Renamed(nodes, source, destination), Renamed(after, source, destination))
  {
    hide *;
    var nodes' := Renamed(nodes, source, destination);
    var fields' := Renamed(after, source, destination);
    MoveKeepsInjective(nodes, fields, source, destination, after, ns);
    forall t | t in nodes'
      ensures LinkedUp(nodes', fields', t) && LinkedDown(nodes', fields', t)
    {
      MoveKeepsUp(nodes, fields, source, destination, after, ns, t);
      MoveKeepsDown(nodes, fields, source, destination, after, ns, t);
    }
    ShapeIntro(nodes', fields');
  }

  /** Every child path is among the paths of the child list. */
  lemma ChildListed(nodes: map<str, Node>, fields: map<str, Fields>, ns: Tree, p: str, q: str) returns (k: nat)
    requires Shape(nodes, fields) && p in nodes && ns.Keys == nodes.Keys && IsChild(ns, p, q)
    ensures nodes.Keys == fields.Keys
    ensures k < |fields[p].children| && fields[p].children[k] == nodes[q]
  {
    hide Shape, IsValid, Parent, Base;
    ShapeBasics(nodes, fields);
    UpAt(nodes, fields, q);
    k :| k < |fields[p].children| && fields[p].children[k] == nodes[q];
  }

  lemma EntriesComplete(nodes: map<str, Node>, fields: map<str, Fields>, ns: Tree, children: seq<Node>, p: str, entries: seq<(Node, str)>)
    requires Shape(nodes, fields) && p in nodes && ns.Keys == nodes.Keys == fields.Keys
    requires fields[p].children == children && Distinct(children) && |entries| == |children|
    requires forall k :: 0 <= k < |entries| ==> entries[k].0 == children[k]
    requires forall k :: 0 <= k < |entries| ==> entries[k].1 in nodes && nodes[entries[k].1] == entries[k].0
    requires forall k :: 0 <= k < |entries| ==> IsChild(ns, p, entries[k].1)
    ensures ListsChildren(PathsOf(entries), ns, p)
  {
    ShapeBasics(nodes, fields);
    hide Shape, IsChild;
    var paths := PathsOf(entries);
    forall q | IsChild(ns, p, q)
      ensures q in paths
    {
      var k := ChildListed(nodes, fields, ns, p, q);
      assert q in nodes by {
        ChildExists(ns, p, q);
      }
      assert paths[k] == q;
    }
  }

  lemma ChildExists(ns: Tree, p: str, q: str)
    requires IsChild(ns, p, q)
    ensures q in ns
  {}

  lemma RootShape(r: Node)
    ensures Shape(map[ROOT := r], map[ROOT := Fields(ROOT, Directory, null, [])])
  {}

  class NamespaceManager {
    var root: Node
    ghost var nodes: map<str, Node>
    ghost var repr: set<Node>

    ghost predicate Closed()
      reads this
    {
      forall p :: p in nodes ==> nodes[p] in repr
    }

    ghost function FieldsOf(): map<str, Fields>
      reads this, repr
    {
      map p | p in nodes && nodes[p] in repr :: Fields(nodes[p].name, nodes[p].kind, nodes[p].parent, nodes[p].children)
    }

    ghost predicate Valid()
      reads this, repr
    {
      Closed() && Shape(nodes, FieldsOf()) && nodes[ROOT] == root
    }

    ghost function View(): Tree
      reads this, repr
    {
      map p | p in nodes && nodes[p] in repr :: nodes[p].kind
    }

    constructor ()
      ensures Valid() && fresh(repr)
      ensures View() == EMPTY
    {
      var r := new Node(ROOT, Directory, null);
      root := r;
      nodes := map[ROOT := r];
      repr := {r};
      new;
      RootShape(r);
      hide *;
      FieldsAre(map[ROOT := Fields(ROOT, Directory, null, [])], EMPTY);
      IsValidWhen(FieldsOf());
    }

    lemma ViewIsWellFormed()
      requires Valid()
      ensures WellFormed(View())
    {
      ShapeIsWellFormed(nodes, FieldsOf(), View());
    }

    // ----- looking up -----

    method FindChild(parent: Node, name: str, ghost at: str) returns (child: Node?)
      requires Valid() && at in nodes && nodes[at] == parent
      requires ValidName(name)
      ensures child == if Child(at, name) in nodes then nodes[Child(at, name)] else null
    {
      hide IsValid, Parent, Base, Child, ValidName, Shape, ChildPath;
      ghost var fields := FieldsOf();
      UpAt(nodes, fields, at);
      for i := 0 to |parent.children|
        invariant forall j :: 0 <= j < i ==> parent.children[j].name != name
      {
        if parent.children[i].name == name {
          ghost var q := DownAt(nodes, fields, at, parent.children[i]);
          ParentAndBase(q);
          return parent.children[i];
        }
      }
      if Child(at, name) in nodes {
        ChildOf(at, name);
        UpAt(nodes, fields, Child(at, name));
        assert false;
      }
      return null;
    }

    method FindNode(path: str) returns (node: Node?)
      requires Valid()
      ensures node == if path in nodes then nodes[path] else null
    {
      hide Shape, Parent, Base, Child, ValidName, ValidFrom, WellFormed;
      var valid := IsValidPath(path);
      if !valid {
        if path in nodes {
          UpAt(nodes, FieldsOf(), path);
          assert false;
        }
        return null;
      }
      if path == ROOT {
        ShapeBasics(nodes, FieldsOf());
        return root;
      }
      var components := SplitPath(path);
      ViewIsWellFormed();
      SplitNames(path);
      hide Split, IsValid;
      node := root;
      assert components[..0] == [];
      for i := 0 to |components|
        invariant Join(components[..i]) in nodes && node == nodes[Join(components[..i])]
      {
        ghost var at := Join(components[..i]);
        var child := FindChild(node, components[i], at);
        assert components[..i + 1][..i] == components[..i];
        assert Join(components[..i + 1]) == Child(at, components[i]);
        if child == null {
          if path in nodes {
            PrefixesExist(View(), path, i + 1);
            assert false;
          }
          return null;
        }
        node := child;
      }
      assert components[..|components|] == components;
      JoinSplit(path);
    }

    method Exists(path: str) returns (exists_: bool)
      requires Valid()
      ensures exists_ <==> path in View()
    {
      var node := FindNode(path);
      return node != null;
    }

    method IsDirectoryAt(path: str) returns (r: bool)
      requires Valid()
      ensures r <==> IsDirectory(View(), path)
    {
      var node := FindNode(path);
      return node != null && node.kind == Directory;
    }

    method IsFileAt(path: str) returns (r: bool)
      requires Valid()
      ensures r <==> IsFile(View(), path)
    {
      var node := FindNode(path);
      return node != null && node.kind == File;
    }

    // ----- creating -----

    /** The directory that a new node at this path would go into, if there may be one. */
    method ParentForNew(path: str) returns (parent: Node?)
      requires Valid()
      ensures parent != null <==> CanCreate(View(), path)
      ensures parent != null ==> Parent(path) in nodes && nodes[Parent(path)] == parent && parent.kind == Directory
      ensures parent != null ==> parent in repr
    {
      hide Shape, Parent, Base, Child, ValidName, ValidFrom;
      var valid := IsValidPath(path);
      hide IsValid;
      if !valid || path == ROOT {
        return null;
      }
      var existing := FindNode(path);
      if existing != null {
        return null;
      }
      ParentAndBase(path);
      parent := FindNode(Parent(path));
      if parent == null || parent.kind != Directory {
        return null;
      }
      var clash := FindChild(parent, Base(path), Parent(path));
      if clash != null {
        return null;
      }
    }

    method Create(path: str, kind: Kind) returns (ok: bool)
      requires Valid()
      modifies this, repr
      ensures Valid() && fresh(repr - old(repr)) && root == old(root)
      ensures ok <==> CanCreate(old(View()), path)
      ensures View() == if ok then old(View())[path := kind] else old(View())
    {
      var parent := ParentForNew(path);
      assert View() == old(View());
      if parent == null {
        return false;
      }
      assert IsValid(path) && path != ROOT && path !in nodes;
      hide *;
      AddChild(parent, path, kind);
      ok := true;
    }

    method AddChild(parent: Node, path: str, kind: Kind)
      requires Valid()
      requires IsValid(path) && path != ROOT && path !in nodes
      requires Parent(path) in nodes && nodes[Parent(path)] == parent && parent.kind == Directory
      requires parent in repr
      modifies this`nodes, this`repr, parent`children
      ensures Valid() && fresh(repr - old(repr))
      ensures View() == old(View())[path := kind]
    {
      hide *;
      var child := new Node(Base(path), kind, parent);
      Attach(parent, child, path);
    }

    /** parent->children.push_back(child), for a node nothing points to yet. */
    method Attach(parent: Node, child: Node, ghost path: str)
      requires Valid()
      requires IsValid(path) && path != ROOT && path !in nodes
      requires Parent(path) in nodes && nodes[Parent(path)] == parent && parent.kind == Directory
      requires child !in repr
      requires child.name == Base(path) && child.parent == parent && child.children == []
      modifies this`nodes, this`repr, parent`children
      ensures Valid()
      ensures nodes == old(nodes)[path := child]
      ensures repr == old(repr) + {child}
      ensures View() == old(View())[path := child.kind]
    {
      ghost var fields, ns := FieldsOf(), View();
      ghost var f := Fields(child.name, child.kind, child.parent, []);
      AttachKeepsShape(nodes, fields, path, child, f);
      ShapeBasics(nodes, fields);
      SameNodes(fields, ns);
      hide *;
      PushChild(parent, child, path, Parent(path), fields, ns);
      IsValidWhen(FieldsOf());
    }

    method PushChild(parent: Node, child: Node, ghost path: str, ghost up: str, ghost fields: map<str, Fields>, ghost ns: Tree)
      requires Closed() && fields == FieldsOf() && ns == View() && Injective(nodes)
      requires path !in nodes && up in nodes && nodes[up] == parent && child !in repr && child.children == []
      modifies this`nodes, this`repr, parent`children
      ensures Closed() && nodes == old(nodes)[path := child] && repr == old(repr) + {child}
      ensures FieldsOf() == fields[up := fields[up].(children := fields[up].children + [child])]
                                  [path := Fields(child.name, child.kind, child.parent, [])]
      ensures View() == ns[path := child.kind]
    {
      ghost var after := fields[up := fields[up].(children := fields[up].children + [child])]
                               [path := Fields(child.name, child.kind, child.parent, [])];
      SameNodes(fields, ns);
      hide FieldsOf, View, Closed;
      parent.children := parent.children + [child];
      nodes := nodes[path := child];
      repr := repr + {child};
      FieldsAre(after, ns[path := child.kind]);
    }

    // ----- deleting -----

    method IndexOf(parent: Node, child: Node) returns (i: nat)
      requires child in parent.children
      ensures i < |parent.children| && parent.children[i] == child
    {
      i := 0;
      while parent.children[i] != child
        invariant i < |parent.children|
        invariant forall j :: 0 <= j < i ==> parent.children[j] != child
        decreases |parent.children| - i
      {
        i := i + 1;
        if i == |parent.children| {
          assert false;
        }
      }
    }

    /** parent->children.erase(...) for a childless node. */
    method Detach(node: Node, ghost path: str)
      requires Valid()
      requires path in nodes && path != ROOT && nodes[path] == node && node.children == []
      modifies this`nodes, repr
      ensures Valid() && repr == old(repr)
      ensures View() == old(View()) - {path}
    {
      hide Shape, IsValid, Parent, Base, RemoveAt;
      ghost var fields := FieldsOf();
      UpAt(nodes, fields, path);
      ShapeBasics(nodes, fields);
      ParentAndBase(path);
      var i := IndexOf(node.parent, node);
      DetachKeepsShape(nodes, fields, path, i);
      hide FieldsOf;
      EraseChild(node.parent, i, path, Parent(path), fields, View());
    }

    method EraseChild(parent: Node, i: nat, ghost path: str, ghost up: str, ghost fields: map<str, Fields>, ghost ns: Tree)
      requires Closed() && fields == FieldsOf() && ns == View() && Injective(nodes)
      requires path in nodes && up in nodes && up != path && nodes[up] == parent
      requires i < |parent.children|
      modifies this`nodes, parent`children
      ensures Closed() && nodes == old(nodes) - {path}
      ensures FieldsOf() == fields[up := fields[up].(children := RemoveAt(fields[up].children, i))] - {path}
      ensures View() == ns - {path}
    {
      ghost var after := fields[up := fields[up].(children := RemoveAt(fields[up].children, i))] - {path};
      SameNodes(fields, ns);
      hide RemoveAt, FieldsOf, View;
      parent.children := RemoveAt(parent.children, i);
      nodes := nodes - {path};
      FieldsAre(after, ns - {path});
    }

    method EmptyDirectoryAt(path: str) returns (node: Node?)
      requires Valid()
      ensures node != null <==> path != ROOT && IsDirectory(View(), path) && Childless(View(), path)
      ensures node != null ==> path in nodes && nodes[path] == node && node.children == []
    {
      node := FindNode(path);
      hide Shape, IsValid, Parent, Base, FieldsOf, Childless;
      if path == ROOT || node == null || node.kind != Directory {
        return null;
      }
      ChildrenAndChildless(path);
      if node.children != [] {
        return null;
      }
    }

    method DeleteDirectory(path: str) returns (ok: bool)
      requires Valid()
      modifies this, repr
      ensures Valid() && repr == old(repr) && root == old(root)
      ensures ok <==> path != ROOT && IsDirectory(old(View()), path) && Childless(old(View()), path)
      ensures View() == if ok then old(View()) - {path} else old(View())
    {
      var node := EmptyDirectoryAt(path);
      assert View() == old(View());
      if node == null {
        return false;
      }
      hide *;
      Detach(node, path);
      return true;
    }

    method FileAt(path: str) returns (node: Node?)
      requires Valid()
      ensures node != null <==> IsFile(View(), path)
      ensures node != null ==> path in nodes && path != ROOT && nodes[path] == node && node.children == []
    {
      node := FindNode(path);
      if node == null || node.kind != File {
        return null;
      }
      ghost var fields := FieldsOf();
      ShapeAt(nodes, fields, path);
      hide Shape, IsValid, Parent, Base;
    }

    method DeleteFile(path: str) returns (ok: bool)
      requires Valid()
      modifies this, repr
      ensures Valid() && repr == old(repr) && root == old(root)
      ensures ok <==> IsFile(old(View()), path)
      ensures View() == if ok then old(View()) - {path} else old(View())
    {
      var node := FileAt(path);
      assert View() == old(View());
      if node == null {
        return false;
      }
      hide *;
      Detach(node, path);
      return true;
    }

    lemma ChildrenAndChildless(path: str)
      requires Valid() && path in nodes
      ensures nodes[path].children == [] <==> Childless(View(), path)
    {
      hide Shape, IsValid, Parent, Base;
      ghost var fields := FieldsOf();
      if nodes[path].children != [] {
        var q := DownAt(nodes, fields, path, nodes[path].children[0]);
        assert q in View() && Parent(q) == path;
      }
      forall q | nodes[path].children == [] && q in View() && IsValid(q) && q != ROOT
        ensures Parent(q) != path
      {
        UpAt(nodes, fields, q);
      }
    }

    // ----- renaming -----

    /** Walking up from a directory meets the source exactly if the directory lies under it. */
    method HasAncestor(start: Node, source: Node, ghost from: str, ghost at: str) returns (found: bool)
      requires Valid()
      requires from in nodes && nodes[from] == start && at in nodes && nodes[at] == source && at != ROOT
      ensures found <==> Under(at, from)
    {
      hide Shape, IsValid, Parent, Base, Under;
      ghost var fields := FieldsOf();
      var ancestor: Node? := start;
      ghost var p := from;
      UpAt(nodes, fields, at);
      ShapeBasics(nodes, fields);
      RootNotUnder(at);
      while ancestor != null
        invariant ancestor != null ==> p in nodes && nodes[p] == ancestor && (Under(at, from) <==> Under(at, p))
        invariant ancestor == null ==> !Under(at, from)
        decreases ancestor != null, |p|
      {
        UpAt(nodes, fields, p);
        if ancestor == source {
          UnderSelf(at);
          return true;
        }
        ancestor := ancestor.parent;
        if p != ROOT {
          UnderViaParent(at, p);
          ParentAndBase(p);
          p := Parent(p);
        }
      }
      return false;
    }

    /** Everything that is checked before a node is relinked. */
    method CheckRename(source: str, destination: str) returns (node: Node?, to: Node?)
      requires Valid()
      ensures node != null <==> CanRename(View(), source, destination)
      ensures node != null ==> source in nodes && nodes[source] == node
      ensures node != null ==> Parent(destination) in nodes && nodes[Parent(destination)] == to
    {
      hide Shape, Parent, Base, ValidFrom, Under;
      node, to := null, null;
      var valid := IsValidPath(source);
      var valid' := IsValidPath(destination);
      hide IsValid;
      OnlyValidPaths(source);
      if !valid || !valid' || source == ROOT || destination == ROOT || source == destination {
        return;
      }
      var found := FindNode(source);
      if found == null {
        return;
      }
      var clash := FindNode(destination);
      if clash != null {
        return;
      }
      ParentAndBase(destination);
      to := FindNode(Parent(destination));
      if to == null || to.kind != Directory {
        return;
      }
      if found.kind == Directory {
        var cyclic := HasAncestor(to, found, Parent(destination), source);
        if cyclic {
          return;
        }
      }
      node := found;
    }

    method Rename(source: str, destination: str) returns (ok: bool)
      requires Valid()
      modifies this, repr
      ensures Valid() && repr == old(repr) && root == old(root)
      ensures ok <==> CanRename(old(View()), source, destination)
      ensures View() == if ok then Renamed(old(View()), source, destination) else old(View())
    {
      var node, to := CheckRename(source, destination);
      assert View() == old(View());
      if node == null {
        return false;
      }
      hide *;
      Move(node, to, source, destination);
      return true;
    }

    /** The two ways of relinking a node: in place under one parent, or from one
        parent's list to the end of another's. */
    method Move(node: Node, to: Node, ghost source: str, destination: str)
      requires Valid() && CanRename(View(), source, destination)
      requires source in nodes && nodes[source] == node
      requires Parent(destination) in nodes && nodes[Parent(destination)] == to
      modifies this`nodes, repr
      ensures Valid() && repr == old(repr)
      ensures View() == Renamed(old(View()), source, destination)
    {
      MoveFacts(source, destination);
      hide *;
      if node.parent == to {
        MoveInPlace(node, source, destination);
      } else {
        MoveAcross(node, to, source, destination);
      }
    }

    method MoveInPlace(node: Node, ghost source: str, destination: str)
      requires Valid() && CanRename(View(), source, destination)
      requires source in nodes && nodes[source] == node
      requires IsValid(destination) && destination != ROOT
      requires Parent(destination) in nodes && nodes[Parent(destination)] == node.parent
      modifies this`nodes, node`name
      ensures Valid() && View() == Renamed(old(View()), source, destination)
    {
      ghost var fields, ns := FieldsOf(), View();
      MoveFacts(source, destination);
      SameNodes(fields, ns);
      hide *;
      RenameInPlace(node, Base(destination), source, fields, ns);
      InPlaceIsMoving(nodes, fields, source, destination, ns);
      RewritePaths(source, destination, fields, ns);
    }

    method MoveAcross(node: Node, to: Node, ghost source: str, destination: str)
      requires Valid() && CanRename(View(), source, destination)
      requires source in nodes && nodes[source] == node
      requires IsValid(destination) && destination != ROOT
      requires Parent(destination) in nodes && nodes[Parent(destination)] == to != node.parent
      modifies this`nodes, repr
      ensures Valid() && View() == Renamed(old(View()), source, destination)
    {
      ghost var fields, ns := FieldsOf(), View();
      MoveFacts(source, destination);
      SameNodes(fields, ns);
      hide *;
      var i := IndexOf(node.parent, node);
      Relink(node.parent, i, node, to, Base(destination), source, Parent(source), Parent(destination), fields, ns);
      RelinkIsMoving(nodes, fields, source, destination, ns, i);
      RewritePaths(source, destination, fields, ns);
    }

    lemma MoveFacts(source: str, destination: str)
      requires Valid() && CanRename(View(), source, destination)
      ensures Closed() && ROOT in nodes && nodes[ROOT] == root
      ensures Movable(nodes, FieldsOf(), source, destination, View())
      ensures Injective(nodes)
      ensures IsValid(source) && source != ROOT && IsValid(destination) && destination != ROOT
      ensures source in nodes && Parent(source) in nodes && Parent(destination) in nodes
      ensures nodes[source] in repr && nodes[Parent(source)] in repr && nodes[Parent(destination)] in repr
      ensures Parent(source) != source && Parent(destination) != source
      ensures nodes[source].parent == nodes[Parent(source)]
      ensures nodes[source] in nodes[Parent(source)].children
    {
      ghost var fields, ns := FieldsOf(), View();
      UpAt(nodes, fields, source);
      ShapeBasics(nodes, fields);
      ViewIsWellFormed();
      DestinationParentOutside(ns, source, destination);
      UnderSelf(source);
      hide Shape, IsValid, Parent, Base, Under, WellFormed;
      ParentAndBase(source);
      ParentAndBase(destination);
    }

    method RenameInPlace(node: Node, name: str, ghost source: str, ghost fields: map<str, Fields>, ghost ns: Tree)
      requires Closed() && fields == FieldsOf() && ns == View() && Injective(nodes)
      requires source in nodes && nodes[source] == node
      modifies node`name
      ensures Closed() && FieldsOf() == fields[source := fields[source].(name := name)] && View() == ns
    {
      SameNodes(fields, ns);
      hide FieldsOf, View;
      node.name := name;
      FieldsAre(fields[source := fields[source].(name := name)], ns);
    }

    method Relink(from: Node, i: nat, node: Node, to: Node, name: str, ghost source: str, ghost up: str, ghost down: str,
                  ghost fields: map<str, Fields>, ghost ns: Tree)
      requires Closed() && fields == FieldsOf() && ns == View() && Injective(nodes)
      requires source in nodes && up in nodes && down in nodes && source != up && source != down
      requires nodes[source] == node && nodes[up] == from && nodes[down] == to && from != to
      requires i < |from.children|
      modifies node`name, node`parent, from`children, to`children
      ensures Closed() && View() == ns
      ensures FieldsOf() == fields[up := fields[up].(children := RemoveAt(fields[up].children, i))]
                                  [down := fields[down].(children := fields[down].children + [node])]
                                  [source := fields[source].(name := name, parent := to)]
    {
      SameNodes(fields, ns);
      hide FieldsOf, View, RemoveAt;
      from.children := RemoveAt(from.children, i);
      node.name := name;
      node.parent := to;
      to.children := to.children + [node];
      FieldsAre(fields[up := fields[up].(children := RemoveAt(fields[up].children, i))]
                      [down := fields[down].(children := fields[down].children + [node])]
                      [source := fields[source].(name := name, parent := to)], ns);
    }

    ghost method RewritePaths(source: str, destination: str, fields: map<str, Fields>, ns: Tree)
      requires Closed() && View() == ns && ROOT in nodes && nodes[ROOT] == root
      requires Moving(nodes, fields, source, destination, FieldsOf(), ns)
      modifies this`nodes
      ensures Valid() && View() == Renamed(ns, source, destination)
    {
      hide *;
      ghost var after := FieldsOf();
      RewriteFacts(source, destination, fields, after, ns);
      nodes := Renamed(nodes, source, destination);
      FieldsAre(Renamed(after, source, destination), Renamed(ns, source, destination));
      IsValidWhen(Renamed(after, source, destination));
    }

    lemma RewriteFacts(source: str, destination: str, fields: map<str, Fields>, after: map<str, Fields>, ns: Tree)
      requires Closed() && after == FieldsOf() && ns == View() && ROOT in nodes && nodes[ROOT] == root
      requires Moving(nodes, fields, source, destination, after, ns)
      ensures var nodes', fields', ns' := Renamed(nodes, source, destination), Renamed(after, source, destination), Renamed(ns, source, destination);
              && Shape(nodes', fields')
              && ROOT in nodes' && nodes'[ROOT] == root
              && nodes'.Keys == fields'.Keys == ns'.Keys
              && forall t :: t in nodes' ==>
                   && nodes'[t] in repr
                   && fields'[t] == Fields(nodes'[t].name, nodes'[t].kind, nodes'[t].parent, nodes'[t].children)
                   && ns'[t] == nodes'[t].kind
    {
      hide *;
      MoveKeepsShape(nodes, fields, source, destination, after, ns);
      MoveKeepsInjective(nodes, fields, source, destination, after, ns);
      RenamedNodes(after, ns, source, destination);
    }

    lemma RenamedNodes(after: map<str, Fields>, ns: Tree, source: str, destination: str)
      requires Closed() && after == FieldsOf() && ns == View()
      ensures var nodes', fields', ns' := Renamed(nodes, source, destination), Renamed(after, source, destination), Renamed(ns, source, destination);
              && nodes'.Keys == fields'.Keys == ns'.Keys
              && forall t :: t in nodes' ==>
                   && nodes'[t] in repr
                   && fields'[t] == Fields(nodes'[t].name, nodes'[t].kind, nodes'[t].parent, nodes'[t].children)
                   && ns'[t] == nodes'[t].kind
    {
      hide Renamed, FieldsOf, View;
      SameNodes(after, ns);
      RenamedTogether(after, nodes, source, destination);
      RenamedTogether(after, ns, source, destination);
      var nodes', fields', ns' := Renamed(nodes, source, destination), Renamed(after, source, destination), Renamed(ns, source, destination);
      forall t | t in nodes'
        ensures nodes'[t] in repr
        ensures fields'[t] == Fields(nodes'[t].name, nodes'[t].kind, nodes'[t].parent, nodes'[t].children)
      {
        var p :| p in after && fields'[t] == after[p] && nodes'[t] == nodes[p];
      }
      RenamedTogether(nodes, ns, source, destination);
      forall t | t in nodes'
        ensures ns'[t] == nodes'[t].kind
      {
        var p :| p in nodes && nodes'[t] == nodes[p] && ns'[t] == ns[p];
      }
    }

    lemma IsValidWhen(fields: map<str, Fields>)
      requires Closed() && fields == FieldsOf() && Shape(nodes, fields) && ROOT in nodes && nodes[ROOT] == root
      ensures Valid()
    {}

    /** The fields of the nodes, one path at a time. */
    lemma SameNodes(fields: map<str, Fields>, ns: Tree)
      requires Closed() && fields == FieldsOf() && ns == View()
      ensures fields.Keys == nodes.Keys == ns.Keys
      ensures forall p :: p in nodes ==> nodes[p] in repr
      ensures forall p :: p in nodes ==>
                && fields[p] == Fields(nodes[p].name, nodes[p].kind, nodes[p].parent, nodes[p].children)
                && ns[p] == nodes[p].kind
    {}

    lemma FieldsAre(fields: map<str, Fields>, ns: Tree)
      requires forall p :: p in nodes ==> nodes[p] in repr
      requires fields.Keys == nodes.Keys == ns.Keys
      requires forall p :: p in nodes ==>
                && fields[p] == Fields(nodes[p].name, nodes[p].kind, nodes[p].parent, nodes[p].children)
                && ns[p] == nodes[p].kind
      ensures Closed() && fields == FieldsOf() && ns == View()
    {}

    lemma OnlyValidPaths(path: str)
      requires Valid()
      ensures path in nodes ==> IsValid(path)
    {
      hide Shape, IsValid, Parent, Base;
      if path in nodes {
        UpAt(nodes, FieldsOf(), path);
      }
    }

    // ----- exporting -----

    /** The children of a node with their paths, in list order. */
    method ChildEntries(node: Node, path: str) returns (entries: seq<(Node, str)>)
      requires Valid() && path in nodes && nodes[path] == node
      ensures ListsChildren(PathsOf(entries), View(), path)
      ensures OnStack(entries)
    {
      hide Shape, IsValid, Parent, Base, ValidName, ChildPath, LinkedUp, LinkedDown;
      ghost var fields := FieldsOf();
      entries := [];
      for i := 0 to |node.children|
        invariant |entries| == i
        invariant forall k :: 0 <= k < i ==> entries[k].0 == node.children[k]
        invariant forall k :: 0 <= k < i ==> entries[k].1 in nodes && nodes[entries[k].1] == entries[k].0
        invariant forall k :: 0 <= k < i ==> IsChild(View(), path, entries[k].1)
      {
        var child := node.children[i];
        ghost var q := DownAt(nodes, fields, path, child);
        ParentAndBase(q);
        entries := entries + [(child, Child(path, child.name))];
      }
      ChildEntriesComplete(node, path, entries);
    }

    lemma ChildEntriesComplete(node: Node, path: str, entries: seq<(Node, str)>)
      requires Valid() && path in nodes && nodes[path] == node
      requires |entries| == |node.children|
      requires forall k :: 0 <= k < |entries| ==> entries[k].0 == node.children[k]
      requires forall k :: 0 <= k < |entries| ==> entries[k].1 in nodes && nodes[entries[k].1] == entries[k].0
      requires forall k :: 0 <= k < |entries| ==> IsChild(View(), path, entries[k].1)
      ensures ListsChildren(PathsOf(entries), View(), path)
    {
      ghost var fields, ns := FieldsOf(), View();
      SameNodes(fields, ns);
      ShapeAt(nodes, fields, path);
      assert Distinct(node.children);
      hide *;
      EntriesComplete(nodes, fields, ns, node.children, path, entries);
    }

    ghost predicate OnStack(stack: seq<(Node, str)>)
      reads this
    {
      forall k :: 0 <= k < |stack| ==> stack[k].1 in nodes && nodes[stack[k].1] == stack[k].0
    }

    lemma RootOnStack()
      requires Valid()
      ensures OnStack([(root, ROOT)]) && PathsOf([(root, ROOT)]) == [ROOT]
    {
      ShapeBasics(nodes, FieldsOf());
      hide Shape;
    }

    lemma PopStack(stack: seq<(Node, str)>)
      requires OnStack(stack) && stack != []
      ensures OnStack(stack[..|stack| - 1])
      ensures stack[|stack| - 1].1 in nodes && nodes[stack[|stack| - 1].1] == stack[|stack| - 1].0
      ensures PathsOf(stack) == PathsOf(stack[..|stack| - 1]) + [stack[|stack| - 1].1]
    {}

    lemma PushStack(rest: seq<(Node, str)>, children: seq<(Node, str)>)
      requires OnStack(rest) && OnStack(children)
      ensures OnStack(rest + children)
      ensures PathsOf(rest + children) == PathsOf(rest) + PathsOf(children)
    {}

    /** One round: pop a node, list it, push its children. */
    method Visit(ghost ns: Tree, stack: seq<(Node, str)>, list: seq<NodeInfo>, ghost seen: Tree)
      returns (stack': seq<(Node, str)>, list': seq<NodeInfo>, ghost seen': Tree)
      requires Valid() && ns == View() && WellFormed(ns)
      requires stack != [] && OnStack(stack) && Traversing(ns, PathsOf(stack), list, seen)
      ensures OnStack(stack') && Traversing(ns, PathsOf(stack'), list', seen')
      ensures seen.Keys < seen'.Keys <= ns.Keys
    {
      SameNodes(FieldsOf(), ns);
      hide *;
      var (node, path) := stack[|stack| - 1];
      var rest := stack[..|stack| - 1];
      PopStack(stack);
      var children := ChildEntries(node, path);
      PushStack(rest, children);
      TraversalStep(ns, PathsOf(rest), path, PathsOf(children), list, seen);
      list' := list + [NodeInfo(path, node.kind)];
      seen' := seen[path := node.kind];
      stack' := rest + children;
      SeenExists(ns, PathsOf(stack'), list', seen');
    }

    /** The stack-driven traversal: every node once, whatever the order of the child lists. */
    method Traverse() returns (list: seq<NodeInfo>)
      requires Valid()
      ensures Lists(list, View())
    {
      ghost var ns := View();
      ViewIsWellFormed();
      RootOnStack();
      hide *;
      list := [];
      var stack := [(root, ROOT)];
      ghost var seen: Tree := map[];
      StartOfTraversal(ns);
      while stack != []
        invariant OnStack(stack)
        invariant Traversing(ns, PathsOf(stack), list, seen)
        decreases ns.Keys - seen.Keys
      {
        stack, list, seen := Visit(ns, stack, list, seen);
      }
      NothingOnStack(stack);
      EndOfTraversal(ns, list, seen);
    }

    method ExportNodes() returns (list: seq<NodeInfo>)
      requires Valid()
      ensures Lists(list, View()) && Sorted(list, ByPath)
    {
      list := Traverse();
      OrdersAreTotal();
      list := Sort(list, ByPath);
    }

    // ----- restoring -----

    method Clear()
      requires Valid()
      modifies this
      ensures Valid() && fresh(repr)
      ensures View() == EMPTY
    {
      var r := new Node(ROOT, Directory, null);
      RootShape(r);
      hide *;
      root := r;
      nodes := map[ROOT := r];
      repr := {r};
      FieldsAre(map[ROOT := Fields(ROOT, Directory, null, [])], EMPTY);
      IsValidWhen(FieldsOf());
    }

    method RestoreNodes(list: seq<NodeInfo>) returns (ok: bool)
      requires Valid()
      modifies this, repr
      ensures Valid() && fresh(repr - old(repr))
      ensures ok <==> Restorable(multiset(list))
      ensures ok ==> Items(View()) == set e | e in list
      ensures !ok ==> View() == old(View()) || View() == EMPTY
    {
      var checked, sorted := CheckAndSort(list);
      assert View() == old(View());
      hide *;
      if !checked {
        return false;
      }
      ok := ClearAndCreateAll(sorted);
      if !ok {
        Clear();
      }
    }

    /** The validation pass and the sort by depth. */
    method CheckAndSort(list: seq<NodeInfo>) returns (ok: bool, sorted: seq<NodeInfo>)
      ensures ok <==> Checked(multiset(list))
      ensures !ok ==> !Restorable(multiset(list))
      ensures multiset(sorted) == multiset(list) && Sorted(sorted, ByDepth)
      ensures (set e | e in sorted) == set e | e in list
    {
      ok := CheckList(list);
      NotChecked(list);
      OrdersAreTotal();
      hide *;
      sorted := Sort(list, ByDepth);
      SameElements(list, sorted);
    }

    method ClearAndCreateAll(list: seq<NodeInfo>) returns (ok: bool)
      requires Valid() && Checked(multiset(list)) && Sorted(list, ByDepth)
      modifies this, repr
      ensures Valid() && fresh(repr - old(repr))
      ensures ok <==> Restorable(multiset(list))
      ensures ok ==> Items(View()) == set e | e in list
    {
      hide *;
      Clear();
      ok := CreateAll(list);
    }

    method CheckList(list: seq<NodeInfo>) returns (ok: bool)
      ensures ok <==> Checked(multiset(list))
    {
      var rootFound := false;
      for i := 0 to |list|
        invariant forall k :: 0 <= k < i ==> IsValid(list[k].path) && (list[k].path == ROOT ==> list[k].kind == Directory)
        invariant rootFound <==> exists k :: 0 <= k < i && list[k].path == ROOT
      {
        hide IsValid;
        var valid := IsValidPath(list[i].path);
        if !valid || (list[i].path == ROOT && list[i].kind != Directory) {
          assert list[i] in multiset(list);
          return false;
        }
        if list[i].path == ROOT {
          rootFound := true;
        }
      }
      hide IsValid;
      ok := rootFound;
      CheckedMeans(list);
    }

    method CreateEntry(list: seq<NodeInfo>, i: nat) returns (ok: bool)
      requires Valid() && i < |list| && CreatedUpTo(list, i, View())
      requires Checked(multiset(list)) && Sorted(list, ByDepth)
      modifies this, repr
      ensures Valid() && fresh(repr - old(repr))
      ensures ok ==> CreatedUpTo(list, i + 1, View())
      ensures !ok ==> !Restorable(multiset(list))
    {
      hide *;
      ghost var ns := View();
      if list[i].path == ROOT {
        SkipRoot(list, i, ns);
        return true;
      }
      ViewIsWellFormed();
      CreateStep(list, i, ns);
      ok := Create(list[i].path, list[i].kind);
    }

    method CreateAll(list: seq<NodeInfo>) returns (ok: bool)
      requires Valid() && View() == EMPTY
      requires Checked(multiset(list)) && Sorted(list, ByDepth)
      modifies this, repr
      ensures Valid() && fresh(repr - old(repr))
      ensures ok <==> Restorable(multiset(list))
      ensures ok ==> Items(View()) == set e | e in list
    {
      StartOfCreation(list);
      hide *;
      for i := 0 to |list|
        invariant Valid() && fresh(repr - old(repr))
        invariant CreatedUpTo(list, i, View())
      {
        var created := CreateEntry(list, i);
        if !created {
          return false;
        }
      }
      ViewIsWellFormed();
      AllCreated(list, View());
      return true;
    }
  }
}
