// The namespace as a prefix-closed map from paths to kinds.

module Namespace {
  // It is what the pointer tree of NamespaceTree.dfy stands for; the operations are map updates.

  import opened Bytes
  import opened Paths

  datatype Kind = Directory | File

  type Tree = map<str, Kind>

  const EMPTY: Tree := map[ROOT := Directory]

  /** Every entry is a valid path whose parent is a directory of the tree. */
  ghost predicate WellFormed(ns: Tree) {
    && ROOT in ns && ns[ROOT] == Directory
    && forall p {:trigger ValidEntry(ns, p)} :: p in ns ==> ValidEntry(ns, p)
  }

  ghost predicate ValidEntry(ns: Tree, p: str) {
    && IsValid(p)
    && (p != ROOT ==> IsDirectory(ns, Parent(p)))
  }

  predicate IsDirectory(ns: Tree, p: str) {
    p in ns && ns[p] == Directory
  }

  predicate IsFile(ns: Tree, p: str) {
    p in ns && ns[p] == File
  }

  /** What creating a node at p demands. */
  predicate CanCreate(ns: Tree, p: str) {
    && IsValid(p) && p != ROOT
    && p !in ns
    && IsDirectory(ns, Parent(p))
  }

  predicate CanRename(ns: Tree, source: str, destination: str) {
    && source in ns && source != ROOT
    && CanCreate(ns, destination)
    && !(ns[source] == Directory && Under(source, Parent(destination)))
  }

  /** The subtree at `source`, placed at `destination`. */
  function Placed<V>(ns: map<str, V>, source: str, destination: str): map<str, V> {
    RelocateAllInjective(source, destination);
    map p | p in ns && Under(source, p) :: Relocate(source, destination, p) := ns[p]
  }

  function Outside<V>(ns: map<str, V>, source: str): map<str, V> {
    map p | p in ns && !Under(source, p) :: ns[p]
  }

  /** The whole tree after the subtree at `source` has moved to `destination`. */
  function Renamed<V>(ns: map<str, V>, source: str, destination: str): map<str, V> {
    Outside(ns, source) + Placed(ns, source, destination)
  }

  lemma RelocateAllInjective(source: str, destination: str)
    ensures forall p, q | Under(source, p) && Under(source, q) ::
              Relocate(source, destination, p) == Relocate(source, destination, q) ==> p == q
  {
    forall p, q | Under(source, p) && Under(source, q)
               && Relocate(source, destination, p) == Relocate(source, destination, q)
      ensures p == q
    {
      RelocateInjective(source, destination, p, q);
    }
  }

  // ----- what the operations keep -----

  lemma CreateKeepsWellFormed(ns: Tree, p: str, kind: Kind)
    requires WellFormed(ns) && CanCreate(ns, p)
    ensures WellFormed(ns[p := kind])
  {
    var after := ns[p := kind];
    forall q | q in after
      ensures ValidEntry(after, q)
    {
      if q != p {
        assert ValidEntry(ns, q);
      }
    }
  }

  predicate Childless(ns: Tree, p: str) {
    forall q :: q in ns && IsValid(q) && q != ROOT ==> Parent(q) != p
  }

  lemma FilesAreChildless(ns: Tree, p: str)
    requires WellFormed(ns) && IsFile(ns, p)
    ensures Childless(ns, p)
  {
    forall q | q in ns && IsValid(q) && q != ROOT
      ensures Parent(q) != p
    {
      assert ValidEntry(ns, q);
    }
  }

  lemma DeleteKeepsWellFormed(ns: Tree, p: str)
    requires WellFormed(ns) && p != ROOT && Childless(ns, p)
    ensures WellFormed(ns - {p})
  {
    var after := ns - {p};
    forall q | q in after
      ensures ValidEntry(after, q)
    {
      assert ValidEntry(ns, q);
    }
  }

  /** Every path under which something exists, exists. */
  lemma {:induction false} AncestorsExist(ns: Tree, dir: str, p: str)
    requires WellFormed(ns) && p in ns && IsValid(dir) && Under(dir, p)
    ensures dir in ns
    decreases |p|
  {
    if p != dir {
      assert ValidEntry(ns, p);
      assert p != ROOT;
      UnderViaParent(dir, p);
      ParentAndBase(p);
      AncestorsExist(ns, dir, Parent(p));
    }
  }

  /** Every leading part of an existing path exists. */
  lemma {:induction false} PrefixesExist(ns: Tree, path: str, n: nat)
    requires WellFormed(ns) && path in ns && IsValid(path) && n <= |Split(path)|
    ensures Join(Split(path)[..n]) in ns
    decreases |path|
  {
    if n == |Split(path)| {
      assert Split(path)[..n] == Split(path);
      JoinSplit(path);
    } else {
      assert ValidEntry(ns, path);
      ParentAndBase(path);
      ChildOf(Parent(path), Base(path));
      assert Split(path)[..n] == Split(Parent(path))[..n];
      PrefixesExist(ns, Parent(path), n);
    }
  }

  lemma UnderOnlyRoot(dir: str)
    requires Under(dir, ROOT) && IsValid(dir)
    ensures dir == ROOT
  {
    if dir != ROOT {
      PrefixSplit(dir, ROOT);
    }
  }

  lemma LongerThanRoot(path: str)
    requires IsValid(path) && path != ROOT
    ensures |path| > 1
  {
    ParentAndBase(path);
  }

  /** The placed subtree hangs together under its new parent, and clashes with nothing. */
  lemma PlacedEntry(ns: Tree, source: str, destination: str, p: str)
    requires WellFormed(ns) && IsValid(source) && CanCreate(ns, destination)
    requires p in ns && Under(source, p)
    ensures var t := Relocate(source, destination, p);
            && IsValid(t) && t != ROOT && t !in ns && Under(destination, t)
            && (p == source ==> t == destination)
            && (p != source ==>
                  && p != ROOT && IsValid(p)
                  && Under(source, Parent(p)) && IsDirectory(ns, Parent(p))
                  && Parent(t) == Relocate(source, destination, Parent(p)))
    decreases |p|
  {
    var t := Relocate(source, destination, p);
    RelocateBack(source, destination, p);
    assert ValidEntry(ns, p);
    if p != source {
      if p == ROOT {
        UnderOnlyRoot(source);
      }
      ParentAndBase(p);
      LongerThanRoot(destination);
      RelocateStep(source, destination, p);
      PlacedEntry(ns, source, destination, Parent(p));
      ChildOf(Relocate(source, destination, Parent(p)), Base(p));
    }
    if t in ns {
      AncestorsExist(ns, destination, t);
      assert false;
    }
  }

  lemma PlacedAt<V>(ns: map<str, V>, source: str, destination: str, p: str)
    requires p in ns && Under(source, p)
    ensures Relocate(source, destination, p) in Placed(ns, source, destination)
    ensures Placed(ns, source, destination)[Relocate(source, destination, p)] == ns[p]
  {
    RelocateAllInjective(source, destination);
  }

  lemma PlacedIsNew(ns: Tree, source: str, destination: str)
    requires WellFormed(ns) && IsValid(source) && CanCreate(ns, destination)
    ensures ns.Keys !! Placed(ns, source, destination).Keys
  {
    forall t | t in Placed(ns, source, destination)
      ensures t !in ns
    {
      var p :| p in ns && Under(source, p) && Relocate(source, destination, p) == t;
      PlacedEntry(ns, source, destination, p);
    }
  }

  /** An entry of the placed subtree is valid in any tree that holds the placed subtree and the
      parent of its top. */
  lemma PlacedEntryValid(ns: Tree, source: str, destination: str, after: Tree, t: str)
    requires WellFormed(ns) && IsValid(source) && CanCreate(ns, destination)
    requires t in Placed(ns, source, destination)
    requires forall u :: u in Placed(ns, source, destination) ==> u in after && after[u] == Placed(ns, source, destination)[u]
    requires IsDirectory(after, Parent(destination))
    ensures ValidEntry(after, t) && t !in ns
  {
    hide Relocate, Under, IsValid, WellFormed, CanCreate;
    var p :| p in ns && Under(source, p) && Relocate(source, destination, p) == t;
    PlacedEntry(ns, source, destination, p);
    if p != source {
      PlacedAt(ns, source, destination, Parent(p));
    }
  }

  /** A copy of a subtree, put at a free place, leaves a well-formed tree: also when the place
      lies inside the subtree. */
  lemma CopyKeepsWellFormed(ns: Tree, source: str, destination: str)
    requires WellFormed(ns) && source in ns && CanCreate(ns, destination)
    ensures WellFormed(ns + Placed(ns, source, destination))
    ensures ns.Keys !! Placed(ns, source, destination).Keys
  {
    var placed := Placed(ns, source, destination);
    var after := ns + placed;
    assert ValidEntry(ns, source);
    PlacedIsNew(ns, source, destination);
    hide Placed;
    forall t | t in placed
      ensures ValidEntry(after, t)
    {
      PlacedEntryValid(ns, source, destination, after, t);
    }
    forall p | p in ns
      ensures ValidEntry(after, p)
    {
      assert ValidEntry(ns, p);
    }
  }

  lemma RenamedLookup<V>(ns: map<str, V>, source: str, destination: str, t: str)
    ensures t in Outside(ns, source) <==> t in ns && !Under(source, t)
    ensures t in Outside(ns, source) ==> Outside(ns, source)[t] == ns[t]
    ensures t in Renamed(ns, source, destination) <==> t in Placed(ns, source, destination) || t in Outside(ns, source)
    ensures t in Placed(ns, source, destination) ==> Renamed(ns, source, destination)[t] == Placed(ns, source, destination)[t]
    ensures t !in Placed(ns, source, destination) && t in Outside(ns, source) ==> Renamed(ns, source, destination)[t] == ns[t]
  {
    hide Placed, Under;
  }

  lemma PlacedFrom<V>(ns: map<str, V>, source: str, destination: str, t: str) returns (p: str)
    requires t in Placed(ns, source, destination)
    ensures p in ns && Under(source, p) && Relocate(source, destination, p) == t
    ensures Placed(ns, source, destination)[t] == ns[p]
  {
    hide Relocate, Under;
    p :| p in ns && Under(source, p) && Relocate(source, destination, p) == t;
    PlacedAt(ns, source, destination, p);
  }

  /** Two maps over the same paths are renamed alike: each new entry of one and of the other come
      from one old path. */
  lemma RenamedTogether<V, W>(m: map<str, V>, w: map<str, W>, source: str, destination: str)
    requires m.Keys == w.Keys
    ensures Renamed(m, source, destination).Keys == Renamed(w, source, destination).Keys
    ensures forall t :: t in Renamed(m, source, destination) ==>
              exists p :: p in m && Renamed(m, source, destination)[t] == m[p] && Renamed(w, source, destination)[t] == w[p]
  {
    hide Placed, Outside, Renamed, Under, Relocate;
    forall t
      ensures t in Renamed(m, source, destination) <==> t in Renamed(w, source, destination)
      ensures t in Renamed(m, source, destination) ==>
                exists p :: p in m && Renamed(m, source, destination)[t] == m[p] && Renamed(w, source, destination)[t] == w[p]
    {
      RenamedLookup(m, source, destination, t);
      RenamedLookup(w, source, destination, t);
      if t in Placed(m, source, destination) {
        var p := PlacedFrom(m, source, destination, t);
        PlacedAt(w, source, destination, p);
      } else if t in Placed(w, source, destination) {
        var p := PlacedFrom(w, source, destination, t);
        PlacedAt(m, source, destination, p);
      }
    }
  }

  /** Renaming rewrites exactly the paths under the source and keeps the tree well formed. */
  lemma RenameKeepsWellFormed(ns: Tree, source: str, destination: str)
    requires WellFormed(ns) && CanRename(ns, source, destination)
    ensures WellFormed(Renamed(ns, source, destination))
  {
    var placed := Placed(ns, source, destination);
    var after := Renamed(ns, source, destination);
    assert ValidEntry(ns, source);
    PlacedIsNew(ns, source, destination);
    DestinationParentOutside(ns, source, destination);
    if Under(source, ROOT) {
      UnderOnlyRoot(source);
      assert false;
    }
    hide Placed, Under, Renamed, Outside;
    forall t
      ensures t in after <==> t in placed || (t in ns && !Under(source, t))
      ensures t in after ==> after[t] == if t in placed then placed[t] else ns[t]
    {
      RenamedLookup(ns, source, destination, t);
    }
    forall t | t in placed
      ensures ValidEntry(after, t)
    {
      PlacedEntryValid(ns, source, destination, after, t);
    }
    forall p | p in ns && !Under(source, p)
      ensures ValidEntry(after, p)
    {
      assert ValidEntry(ns, p);
      if p != ROOT {
        UnderViaParent(source, p);
        UnderSelf(source);
      }
    }
  }

  lemma DestinationParentOutside(ns: Tree, source: str, destination: str)
    requires WellFormed(ns) && CanRename(ns, source, destination)
    ensures !Under(source, Parent(destination))
  {
    var q := Parent(destination);
    assert ValidEntry(ns, source);
    if Under(source, q) && ns[source] == File {
      FileHasNothingBelow(ns, source, q);
    }
  }

  lemma {:induction false} FileHasNothingBelow(ns: Tree, file: str, p: str)
    requires WellFormed(ns) && IsFile(ns, file) && p in ns && Under(file, p)
    ensures p == file
    decreases |p|
  {
    assert ValidEntry(ns, p) && ValidEntry(ns, file);
    if p != file {
      if p == ROOT {
        UnderOnlyRoot(file);
      }
      UnderViaParent(file, p);
      ParentAndBase(p);
      FileHasNothingBelow(ns, file, Parent(p));
      assert false;
    }
  }

  /** Renaming a file is one deletion and one insertion. */
  lemma RenameOfFile(ns: Tree, source: str, destination: str)
    requires WellFormed(ns) && IsFile(ns, source) && CanCreate(ns, destination)
    ensures CanRename(ns, source, destination)
    ensures Renamed(ns, source, destination) == (ns - {source})[destination := File]
  {
    assert ValidEntry(ns, source);
    UnderSelf(source);
    PlacedAt(ns, source, destination, source);
    var after := Renamed(ns, source, destination);
    forall p | p in ns && Under(source, p)
      ensures p == source
    {
      FileHasNothingBelow(ns, source, p);
    }
    hide Below, WellFormed, Placed, Renamed, Outside, Under;
    var expected := (ns - {source})[destination := File];
    forall t
      ensures t in after <==> t in expected
      ensures t in after ==> after[t] == expected[t]
    {
      RenamedLookup(ns, source, destination, t);
      if t in Placed(ns, source, destination) {
        var p := PlacedFrom(ns, source, destination, t);
      }
    }
  }

  lemma RenameThere(ns: Tree, source: str, destination: str, p: str)
    requires WellFormed(ns) && CanRename(ns, source, destination) && p in ns
    ensures var after := Renamed(ns, source, destination);
            if Under(source, p) then
              var t := Relocate(source, destination, p);
              && Under(destination, t) && t in after && after[t] == ns[p]
              && Relocate(destination, source, t) == p
            else
              !Under(destination, p) && p in after && after[p] == ns[p]
  {
    assert ValidEntry(ns, source);
    PlacedIsNew(ns, source, destination);
    if Under(source, p) {
      RelocateBack(source, destination, p);
      PlacedAt(ns, source, destination, p);
    } else if Under(destination, p) {
      AncestorsExist(ns, destination, p);
      assert false;
    }
  }

  /** Where an entry of the renamed tree came from. */
  lemma OldOf(ns: Tree, source: str, destination: str, t: str)
    requires WellFormed(ns) && CanRename(ns, source, destination)
    requires t in Renamed(ns, source, destination)
    ensures if Under(destination, t) then Relocate(destination, source, t) in ns && Under(source, Relocate(destination, source, t))
            else t in ns && !Under(source, t)
  {
    hide WellFormed, CanRename, Under, Relocate, Placed, Renamed, Outside;
    RenamedLookup(ns, source, destination, t);
    if t in Placed(ns, source, destination) {
      var p := PlacedFrom(ns, source, destination, t);
      RenameThere(ns, source, destination, p);
    } else {
      RenameThere(ns, source, destination, t);
    }
  }

  /** One path, renamed away and renamed back. */
  lemma RenameBackAt(ns: Tree, source: str, destination: str, p: str)
    requires WellFormed(ns) && CanRename(ns, source, destination)
    ensures var back := Renamed(Renamed(ns, source, destination), destination, source);
            (p in back <==> p in ns) && (p in ns ==> back[p] == ns[p])
  {
    var after := Renamed(ns, source, destination);
    hide WellFormed, CanRename, Under, Relocate, Placed, Renamed, Outside;
    RenamedLookup(after, destination, source, p);
    if p in Placed(after, destination, source) {
      var t := PlacedFrom(after, destination, source, p);
      OldOf(ns, source, destination, t);
      RenameThere(ns, source, destination, p);
      RelocateInjective(destination, source, t, Relocate(source, destination, p));
    } else if p in Outside(after, destination) {
      OldOf(ns, source, destination, p);
      RenameThere(ns, source, destination, p);
    } else if p in ns {
      RenameThere(ns, source, destination, p);
      if Under(source, p) {
        PlacedAt(after, destination, source, Relocate(source, destination, p));
      }
    }
  }

  lemma SameTree(ns: Tree, ns': Tree)
    requires forall p :: p in ns <==> p in ns'
    requires forall p :: p in ns ==> ns[p] == ns'[p]
    ensures ns == ns'
  {}

  /** Renaming back undoes a rename. */
  lemma RenameBack(ns: Tree, source: str, destination: str)
    requires WellFormed(ns) && CanRename(ns, source, destination)
    ensures var after := Renamed(ns, source, destination);
            && CanRename(after, destination, source)
            && Renamed(after, destination, source) == ns
  {
    hide *;
    SourceFreeAfterRename(ns, source, destination);
    var back := Renamed(Renamed(ns, source, destination), destination, source);
    forall p
      ensures p in back <==> p in ns
      ensures p in ns ==> back[p] == ns[p]
    {
      RenameBackAt(ns, source, destination, p);
    }
    SameTree(back, ns);
  }

  lemma SourceFreeAfterRename(ns: Tree, source: str, destination: str)
    requires WellFormed(ns) && CanRename(ns, source, destination)
    ensures CanRename(Renamed(ns, source, destination), destination, source)
  {
    var after := Renamed(ns, source, destination);
    assert ValidEntry(ns, source);
    PlacedAt(ns, source, destination, source);
    DestinationParentOutside(ns, source, destination);
    PlacedIsNew(ns, source, destination);
    ParentAndBase(source);
    UnderParentIsNot(source);
    if Under(destination, Parent(source)) {
      AncestorsExist(ns, destination, Parent(source));
      assert false;
    }
    assert source !in after;
  }

  lemma UnderParentIsNot(path: str)
    requires IsValid(path) && path != ROOT
    ensures !Under(path, Parent(path))
  {
    ParentAndBase(path);
    if Below(path, Parent(path)) {
      PrefixSplit(path, Parent(path));
    }
  }
}
