// Copying a subtree node by node.

module Snapshot {
  // What the master has made so far, why every step succeeds from a state that satisfies the joint
  // invariant, why the result is exactly the image of the subtree, and why a failed copy can be
  // undone.

  import opened Bytes
  import opened Paths
  import opened Sorting
  import opened Namespace
  import opened NamespaceListing
  import opened ChunkTables
  import opened MasterState

  // ----- the nodes to copy -----

  predicate Affected(source: str, path: str) {
    path == source || (if source == ROOT then path != ROOT else source + [SLASH] <= path)
  }

  lemma AffectedIsUnder(source: str, path: str)
    requires IsValid(path)
    ensures Affected(source, path) <==> Under(source, path)
  {}

  /** Fewer slashes first, then by path. */
  predicate BySlashes(a: NodeInfo, b: NodeInfo) {
    Slashes(a.path) < Slashes(b.path) || (Slashes(a.path) == Slashes(b.path) && NotAfter(a.path, b.path))
  }

  lemma BySlashesIsTotal()
    ensures TotalPreorder(BySlashes)
  {
    NotAfterIsOrder();
    hide NotAfter, Slashes;
    forall a: NodeInfo, b: NodeInfo
      ensures BySlashes(a, b) || BySlashes(b, a)
    {
      assert NotAfter(a.path, b.path) || NotAfter(b.path, a.path);
    }
    forall a: NodeInfo, b: NodeInfo, c: NodeInfo
      ensures BySlashes(a, b) && BySlashes(b, c) ==> BySlashes(a, c)
    {
      assert NotAfter(a.path, b.path) && NotAfter(b.path, c.path) ==> NotAfter(a.path, c.path);
    }
  }

  /** The list holds every node of the subtree once, and nothing else. */
  ghost predicate Subtree(list: multiset<NodeInfo>, ns: Tree, source: str) {
    forall e :: list[e] == if e.path in ns && ns[e.path] == e.kind && Under(source, e.path) then 1 else 0
  }

  /** The nodes of a listing that lie under the source. */
  method SelectAffected(nodes: seq<NodeInfo>, source: str, ghost ns: Tree) returns (list: seq<NodeInfo>)
    requires Lists(nodes, ns) && WellFormed(ns)
    ensures Subtree(multiset(list), ns, source) && Sorted(list, BySlashes)
  {
    list := [];
    hide IsValid, Under, Affected, BySlashes, Items;
    forall e
      ensures multiset(nodes)[e] == if e.path in ns && ns[e.path] == e.kind then 1 else 0
    {
      ListsMeans(nodes, ns, e);
    }
    for i := 0 to |nodes|
      invariant forall e :: multiset(list)[e] == if Under(source, e.path) then multiset(nodes[..i])[e] else 0
    {
      assert nodes[..i + 1] == nodes[..i] + [nodes[i]];
      assert nodes[i] in multiset(nodes);
      assert ValidEntry(ns, nodes[i].path);
      AffectedIsUnder(source, nodes[i].path);
      if Affected(source, nodes[i].path) {
        list := list + [nodes[i]];
      }
    }
    assert nodes[..|nodes|] == nodes;
    BySlashesIsTotal();
    list := Sort(list, BySlashes);
  }

  // ----- what has been copied so far -----

  /** The nodes made, the file entries cloned, and the lists kept for undoing. */
  datatype Copy = Copy(made: Tree, clones: map<str, FileMeta>, files: seq<str>, dirs: seq<str>)

  function With(s: Durable, c: Copy): Durable {
    Durable(s.ns + c.made, s.tables.(files := s.tables.files + c.clones))
  }

  ghost predicate FilesHaveNodes(s: Durable) {
    forall p :: p in s.tables.files ==> IsFile(s.ns, p)
  }

  ghost predicate ClonedFrom(s: Durable, f: FileMeta) {
    0 !in f.chunks && exists p :: p in s.tables.files && s.tables.files[p] == f
  }

  /** All that undoing relies on: everything made is new and on one of the two lists, and every
      directory was made after its parent. */
  ghost predicate Undoable(s: Durable, c: Copy) {
    && c.made.Keys !! s.ns.Keys
    && NoDuplicates(c.files) && NoDuplicates(c.dirs)
    && (forall f :: f in c.files ==> IsFile(c.made, f))
    && (forall d :: d in c.dirs ==> IsDirectory(c.made, d))
    && (forall t :: t in c.made ==> t in c.files || t in c.dirs)
    && (forall j :: 0 <= j < |c.dirs| ==> ParentBefore(s.ns, c.dirs, j))
    && (forall f :: f in c.clones ==> f in c.files && ClonedFrom(s, c.clones[f]))
  }

  ghost predicate ParentBefore(ns: Tree, dirs: seq<str>, j: nat)
    requires j < |dirs|
  {
    IsValid(dirs[j]) && dirs[j] != ROOT && (Parent(dirs[j]) in ns || Parent(dirs[j]) in dirs[..j])
  }

  function Keys(list: seq<str>): set<str> {
    set x | x in list
  }

  lemma FirstDirectory(s: Durable, path: str)
    requires CanCreate(s.ns, path)
    ensures Undoable(s, Copy(map[path := Directory], map[], [], [path]))
    ensures With(s, Copy(map[path := Directory], map[], [], [path])) == s.(ns := s.ns[path := Directory])
  {
    assert s.ns + map[path := Directory] == s.ns[path := Directory];
    assert s.tables.files + map[] == s.tables.files;
    assert ParentBefore(s.ns, [path], 0);
  }

  lemma AnotherDirectory(s: Durable, c: Copy, path: str) returns (c': Copy)
    requires Undoable(s, c) && CanCreate(s.ns + c.made, path) && WellFormed(s.ns)
    ensures c' == c.(made := c.made[path := Directory], dirs := c.dirs + [path])
    ensures Undoable(s, c') && With(s, c').ns == With(s, c).ns[path := Directory] && With(s, c').tables == With(s, c).tables
  {
    hide IsValid, Parent, ClonedFrom, WellFormed;
    c' := c.(made := c.made[path := Directory], dirs := c.dirs + [path]);
    assert (s.ns + c.made)[path := Directory] == s.ns + c'.made;
    assert path !in c.made;
    NoDuplicatesSnoc(c.dirs, path);
    assert forall f :: f in c.files ==> IsFile(c.made, f);
    assert forall d :: d in c.dirs ==> d in c'.dirs;
    ParentsStillBefore(s.ns, c.made, c.dirs, path);
    hide ParentBefore, CanCreate;
  }

  lemma ParentsStillBefore(ns: Tree, made: Tree, dirs: seq<str>, path: str)
    requires CanCreate(ns + made, path) && (forall d :: IsDirectory(made, d) ==> d in dirs)
    requires forall j :: 0 <= j < |dirs| ==> ParentBefore(ns, dirs, j)
    ensures forall j :: 0 <= j < |dirs + [path]| ==> ParentBefore(ns, dirs + [path], j)
  {
    hide IsValid, Parent;
    var more := dirs + [path];
    forall j | 0 <= j < |more|
      ensures ParentBefore(ns, more, j)
    {
      if j < |dirs| {
        assert ParentBefore(ns, dirs, j);
        assert more[..j] == dirs[..j];
      } else {
        assert more[..j] == dirs;
        assert IsDirectory(ns + made, Parent(path));
      }
    }
  }

  lemma AnotherFile(s: Durable, c: Copy, path: str) returns (c': Copy)
    requires Undoable(s, c) && CanCreate(s.ns + c.made, path)
    ensures c' == c.(made := c.made[path := File], files := c.files + [path])
    ensures Undoable(s, c') && With(s, c').ns == With(s, c).ns[path := File] && With(s, c').tables == With(s, c).tables
  {
    hide IsValid, Parent, ClonedFrom, ParentBefore;
    c' := c.(made := c.made[path := File], files := c.files + [path]);
    assert (s.ns + c.made)[path := File] == s.ns + c'.made;
    assert path !in c.made;
    NoDuplicatesSnoc(c.files, path);
    assert forall f :: f in c.files ==> f in c'.files;
    assert forall d :: d in c.dirs ==> IsDirectory(c.made, d);
  }

  /** A clone of a file entry of the state the copy started from. */
  lemma AnotherClone(s: Durable, c: Copy, source: str, path: str) returns (c': Copy)
    requires Undoable(s, c) && FilesHaveNodes(s) && path in c.files && source in s.tables.files && source in s.ns
    requires CloneFile(With(s, c).tables, source, path).ok
    ensures c' == c.(clones := c.clones[path := s.tables.files[source]])
    ensures Undoable(s, c') && With(s, c').ns == With(s, c).ns
    ensures With(s, c').tables == CloneFile(With(s, c).tables, source, path).state
  {
    hide IsValid, Parent, ParentBefore;
    assert IsFile(c.made, path);
    assert source !in c.clones;
    var f := s.tables.files[source];
    assert With(s, c).tables.files[source] == f;
    assert ClonedFrom(s, f);
    c' := c.(clones := c.clones[path := f]);
    assert s.tables.files + c'.clones == (s.tables.files + c.clones)[path := f];
  }

  // ----- undoing -----

  lemma CloneDropped(s: Durable, clones: map<str, FileMeta>, f: str)
    requires f !in s.tables.files && clones.Keys !! s.tables.files.Keys
    requires f in clones ==> ClonedFrom(s, clones[f])
    ensures DeleteFile(s.tables.(files := s.tables.files + clones), f).state == s.tables.(files := s.tables.files + (clones - {f}))
  {
    var t := s.tables.(files := s.tables.files + clones);
    if f in clones {
      var p :| p in s.tables.files && s.tables.files[p] == clones[f];
      forall h | h in t.files[f].chunks && h in t.chunks
        ensures h != 0 && Holders(t.files, h) != {f}
      {
        assert p in Holders(t.files, h);
      }
      assert LastReferences(t, f) == {};
      assert t.chunks - {} == t.chunks;
    }
    assert (s.tables.files + clones) - {f} == s.tables.files + (clones - {f});
  }

  lemma FileRemoved(s: Durable, c: Copy, i: nat)
    requires Undoable(s, c) && FilesHaveNodes(s) && i < |c.files|
    ensures IsFile(s.ns + (c.made - Keys(c.files[i + 1..])), c.files[i])
    ensures s.ns + (c.made - Keys(c.files[i + 1..])) - {c.files[i]} == s.ns + (c.made - Keys(c.files[i..]))
  {
    hide ParentBefore, ClonedFrom;
    var f := c.files[i];
    assert c.files[i..] == [f] + c.files[i + 1..];
    assert f !in c.files[i + 1..];
    assert IsFile(c.made, f);
  }

  /** Once the files are gone and the later directories, a directory has no children. */
  lemma DirectoryRemoved(s: Durable, c: Copy, j: nat)
    requires Undoable(s, c) && WellFormed(s.ns) && j < |c.dirs|
    ensures var left := s.ns + (c.made - Keys(c.files) - Keys(c.dirs[j + 1..]));
            && c.dirs[j] != ROOT && IsDirectory(left, c.dirs[j]) && Childless(left, c.dirs[j])
            && left - {c.dirs[j]} == s.ns + (c.made - Keys(c.files) - Keys(c.dirs[j..]))
  {
    hide IsValid, Parent, ClonedFrom;
    var d := c.dirs[j];
    var left := s.ns + (c.made - Keys(c.files) - Keys(c.dirs[j + 1..]));
    assert c.dirs[j..] == [d] + c.dirs[j + 1..];
    assert d !in c.dirs[j + 1..] && IsDirectory(c.made, d) && d !in c.files && ParentBefore(s.ns, c.dirs, j);
    forall q | q in left && IsValid(q) && q != ROOT
      ensures Parent(q) != d
    {
      if q in s.ns {
        assert ValidEntry(s.ns, q);
      } else {
        assert forall k :: j < k < |c.dirs| ==> c.dirs[k] == c.dirs[j + 1..][k - j - 1];
        var k :| 0 <= k < |c.dirs| && c.dirs[k] == q;
        assert k <= j;
        assert ParentBefore(s.ns, c.dirs, k);
        assert forall x :: x in c.dirs[..k] ==> x != d;
      }
    }
  }

  lemma AllRemoved(s: Durable, c: Copy)
    requires Undoable(s, c)
    ensures s.ns + (c.made - Keys(c.files) - Keys(c.dirs)) == s.ns
    ensures s.tables.(files := s.tables.files + (c.clones - Keys(c.files))) == s.tables
  {
    hide ParentBefore, ClonedFrom;
    assert c.made - Keys(c.files) - Keys(c.dirs) == map[];
    assert c.clones - Keys(c.files) == map[];
    assert s.ns + map[] == s.ns;
    assert s.tables.files + map[] == s.tables.files;
  }

  lemma NothingRemoved(s: Durable, c: Copy, files: seq<str>)
    requires c.files == files
    ensures s.ns + (c.made - Keys(files[|files|..])) == With(s, c).ns
    ensures s.tables.(files := s.tables.files + (c.clones - Keys(files[|files|..]))) == With(s, c).tables
  {
    assert files[|files|..] == [];
    assert c.made - {} == c.made && c.clones - {} == c.clones;
  }

  lemma OnlyDirectoriesLeft(s: Durable, c: Copy)
    ensures s.ns + (c.made - Keys(c.files[0..])) == s.ns + (c.made - Keys(c.files) - Keys(c.dirs[|c.dirs|..]))
  {
    assert c.files[0..] == c.files && c.dirs[|c.dirs|..] == [];
    assert c.made - Keys(c.files) - {} == c.made - Keys(c.files);
  }

  /** The effect on the tables of undoing file i after all later files. */
  lemma FileDropped(s: Durable, c: Copy, i: nat)
    requires Undoable(s, c) && FilesHaveNodes(s) && i < |c.files|
    ensures DeleteFile(s.tables.(files := s.tables.files + (c.clones - Keys(c.files[i + 1..]))), c.files[i]).state
         == s.tables.(files := s.tables.files + (c.clones - Keys(c.files[i..])))
  {
    hide ParentBefore, ClonedFrom, DeleteFile;
    var f := c.files[i];
    assert c.files[i..] == [f] + c.files[i + 1..];
    assert IsFile(c.made, f);
    var clones := c.clones - Keys(c.files[i + 1..]);
    assert forall p :: p in c.clones ==> p in c.files && IsFile(c.made, p);
    assert c.clones - Keys(c.files[i..]) == clones - {f};
    CloneDropped(s, clones, f);
  }

  // ----- the copy is exact -----

  function Image(source: str, destination: str, e: NodeInfo): str
    requires Under(source, e.path)
  {
    Relocate(source, destination, e.path)
  }

  lemma ImageIs(source: str, destination: str, e: NodeInfo)
    requires Under(source, e.path)
    ensures Image(source, destination, e) == Relocate(source, destination, e.path)
  {
    hide Under, Relocate;
  }

  ghost predicate ImageMade(s: Durable, source: str, destination: str, e: NodeInfo, c: Copy) {
    && Under(source, e.path)
    && var t := Image(source, destination, e);
       && t in c.made && c.made[t] == e.kind
       && (e.kind == File ==> e.path in s.tables.files && t in c.clones && c.clones[t] == s.tables.files[e.path])
  }

  ghost predicate IsImage(source: str, destination: str, e: NodeInfo, t: str) {
    Under(source, e.path) && t == Image(source, destination, e)
  }

  /** The first i nodes have been copied, and nothing else but the top has been made. */
  ghost predicate Copied(s: Durable, source: str, destination: str, list: seq<NodeInfo>, i: nat, c: Copy)
    requires i <= |list|
  {
    && IsDirectory(c.made, destination)
    && (forall j :: 0 <= j < i ==> ImageMade(s, source, destination, list[j], c))
    && (forall t :: t in c.made ==> t == destination || exists j :: 0 <= j < i && IsImage(source, destination, list[j], t))
    && (forall t :: t in c.clones ==> exists j :: 0 <= j < i && list[j].kind == File && IsImage(source, destination, list[j], t))
  }

  lemma SubtreeNode(list: seq<NodeInfo>, ns: Tree, source: str, i: nat)
    requires Subtree(multiset(list), ns, source) && i < |list|
    ensures var e := list[i];
            e.path in ns && ns[e.path] == e.kind && Under(source, e.path)
  {
    assert list[i] in multiset(list);
  }

  lemma SubtreeIndex(list: seq<NodeInfo>, ns: Tree, source: str, e: NodeInfo) returns (i: nat)
    requires Subtree(multiset(list), ns, source) && e.path in ns && ns[e.path] == e.kind && Under(source, e.path)
    ensures i < |list| && list[i] == e
  {
    assert multiset(list)[e] == 1;
    assert e in list;
    i :| i < |list| && list[i] == e;
  }

  lemma SourceCopied(s: Durable, source: str, destination: str, list: seq<NodeInfo>, i: nat, c: Copy)
    requires i < |list| && Copied(s, source, destination, list, i, c)
    requires list[i] == NodeInfo(source, Directory)
    ensures Copied(s, source, destination, list, i + 1, c)
  {
    assert Image(source, destination, list[i]) == destination;
    hide Under, Relocate;
  }

  lemma DirectoryCopied(s: Durable, source: str, destination: str, list: seq<NodeInfo>, i: nat, c: Copy, c': Copy)
    requires i < |list| && Copied(s, source, destination, list, i, c) && Under(source, list[i].path) && list[i].kind == Directory
    requires var t := Image(source, destination, list[i]);
             t !in c.made && c' == c.(made := c.made[t := Directory], dirs := c.dirs + [t])
    ensures Copied(s, source, destination, list, i + 1, c')
  {
    hide Under, Image;
    var t := Image(source, destination, list[i]);
    assert IsImage(source, destination, list[i], t);
    forall j | 0 <= j < i + 1
      ensures ImageMade(s, source, destination, list[j], c')
    {
      if j < i {
        assert ImageMade(s, source, destination, list[j], c);
      }
    }
  }

  lemma FileCopied(s: Durable, source: str, destination: str, list: seq<NodeInfo>, i: nat, c: Copy, c': Copy)
    requires i < |list| && Copied(s, source, destination, list, i, c) && Under(source, list[i].path) && list[i].kind == File
    requires list[i].path in s.tables.files
    requires var t := Image(source, destination, list[i]);
             && t !in c.made && t !in c.clones
             && c' == Copy(c.made[t := File], c.clones[t := s.tables.files[list[i].path]], c.files + [t], c.dirs)
    ensures Copied(s, source, destination, list, i + 1, c')
  {
    hide Under, Image;
    var t := Image(source, destination, list[i]);
    assert IsImage(source, destination, list[i], t);
    forall j | 0 <= j < i + 1
      ensures ImageMade(s, source, destination, list[j], c')
    {
      if j < i {
        assert ImageMade(s, source, destination, list[j], c);
      }
    }
  }

  /** When every node has been copied, what was made is the image of the subtree. */
  lemma AllCopied(s: Durable, source: str, destination: str, list: seq<NodeInfo>, c: Copy)
    requires IsDirectory(s.ns, source) && FilesHaveNodes(s)
    requires Subtree(multiset(list), s.ns, source) && Copied(s, source, destination, list, |list|, c)
    ensures c.made == Placed(s.ns, source, destination)
    ensures c.clones == Placed(s.tables.files, source, destination)
  {
    hide *;
    forall t
      ensures t in c.made <==> t in Placed(s.ns, source, destination)
      ensures t in c.made ==> c.made[t] == Placed(s.ns, source, destination)[t]
      ensures t in c.clones <==> t in Placed(s.tables.files, source, destination)
      ensures t in c.clones ==> c.clones[t] == Placed(s.tables.files, source, destination)[t]
    {
      if t in c.made {
        MadeIsPlaced(s, source, destination, list, c, t);
      }
      if t in Placed(s.ns, source, destination) {
        PlacedIsMade(s, source, destination, list, c, t);
      }
      if t in c.clones {
        CloneIsPlaced(s, source, destination, list, c, t);
      }
      if t in Placed(s.tables.files, source, destination) {
        PlacedIsCloned(s, source, destination, list, c, t);
      }
    }
    assert c.made.Keys == Placed(s.ns, source, destination).Keys;
    assert c.clones.Keys == Placed(s.tables.files, source, destination).Keys;
  }

  lemma PlacedIsMade(s: Durable, source: str, destination: str, list: seq<NodeInfo>, c: Copy, t: str)
    requires Subtree(multiset(list), s.ns, source) && Copied(s, source, destination, list, |list|, c)
    requires t in Placed(s.ns, source, destination)
    ensures t in c.made && c.made[t] == Placed(s.ns, source, destination)[t]
  {
    hide Under, Relocate, Placed, Subtree, Image;
    var p := PlacedFrom(s.ns, source, destination, t);
    var i := SubtreeIndex(list, s.ns, source, NodeInfo(p, s.ns[p]));
    assert ImageMade(s, source, destination, list[i], c);
    ImageIs(source, destination, list[i]);
  }

  lemma PlacedIsCloned(s: Durable, source: str, destination: str, list: seq<NodeInfo>, c: Copy, t: str)
    requires FilesHaveNodes(s)
    requires Subtree(multiset(list), s.ns, source) && Copied(s, source, destination, list, |list|, c)
    requires t in Placed(s.tables.files, source, destination)
    ensures t in c.clones && c.clones[t] == Placed(s.tables.files, source, destination)[t]
  {
    hide Under, Relocate, Placed, Subtree, Image;
    var p := PlacedFrom(s.tables.files, source, destination, t);
    assert IsFile(s.ns, p);
    var i := SubtreeIndex(list, s.ns, source, NodeInfo(p, File));
    assert ImageMade(s, source, destination, list[i], c);
    ImageIs(source, destination, list[i]);
  }

  lemma MadeIsPlaced(s: Durable, source: str, destination: str, list: seq<NodeInfo>, c: Copy, t: str)
    requires IsDirectory(s.ns, source)
    requires Subtree(multiset(list), s.ns, source) && Copied(s, source, destination, list, |list|, c) && t in c.made
    ensures t in Placed(s.ns, source, destination)
  {
    UnderSelf(source);
    assert Relocate(source, destination, source) == destination;
    hide Under, Relocate, Placed, Subtree;
    if t == destination {
      PlacedAt(s.ns, source, destination, source);
    } else {
      var j :| 0 <= j < |list| && IsImage(source, destination, list[j], t);
      SubtreeNode(list, s.ns, source, j);
      PlacedAt(s.ns, source, destination, list[j].path);
    }
  }

  lemma CloneIsPlaced(s: Durable, source: str, destination: str, list: seq<NodeInfo>, c: Copy, t: str)
    requires Subtree(multiset(list), s.ns, source) && Copied(s, source, destination, list, |list|, c) && t in c.clones
    ensures t in Placed(s.tables.files, source, destination)
  {
    var j := CloneSource(s, source, destination, list, c, t);
    hide *;
    ImageIs(source, destination, list[j]);
    PlacedAt(s.tables.files, source, destination, list[j].path);
  }

  lemma CloneSource(s: Durable, source: str, destination: str, list: seq<NodeInfo>, c: Copy, t: str) returns (j: nat)
    requires Copied(s, source, destination, list, |list|, c) && t in c.clones
    ensures j < |list| && Under(source, list[j].path) && t == Image(source, destination, list[j]) && list[j].path in s.tables.files
  {
    hide Under, Relocate, Image;
    j :| 0 <= j < |list| && list[j].kind == File && IsImage(source, destination, list[j], t);
    assert ImageMade(s, source, destination, list[j], c);
  }

  // ----- the leases that are dropped -----

  /** The chunks of the files under the source. */
  ghost function ChunksUnder(files: map<str, FileMeta>, source: str): set<Handle> {
    set p, h | p in files && Under(source, p) && h in files[p].chunks :: h
  }

  ghost function ChunksListed(files: map<str, FileMeta>, list: seq<NodeInfo>): set<Handle> {
    set e, h | e in list && e.kind == File && e.path in files && h in files[e.path].chunks :: h
  }

  lemma ListedSnoc(files: map<str, FileMeta>, list: seq<NodeInfo>, i: nat)
    requires i < |list|
    ensures list[i].kind == File && list[i].path in files ==>
              ChunksListed(files, list[..i + 1]) == ChunksListed(files, list[..i]) + (set h | h in files[list[i].path].chunks)
    ensures list[i].kind == Directory ==> ChunksListed(files, list[..i + 1]) == ChunksListed(files, list[..i])
  {
    assert list[..i + 1] == list[..i] + [list[i]];
  }

  lemma ListedIsUnder(s: Durable, source: str, list: seq<NodeInfo>)
    requires FilesHaveNodes(s) && Subtree(multiset(list), s.ns, source)
    ensures ChunksListed(s.tables.files, list) == ChunksUnder(s.tables.files, source)
  {
    var files := s.tables.files;
    hide Under, Subtree;
    forall h | h in ChunksUnder(files, source)
      ensures h in ChunksListed(files, list)
    {
      var p :| p in files && Under(source, p) && h in files[p].chunks;
      var i := SubtreeIndex(list, s.ns, source, NodeInfo(p, File));
      assert list[i] in list;
    }
    forall h | h in ChunksListed(files, list)
      ensures h in ChunksUnder(files, source)
    {
      var e :| e in list && e.kind == File && e.path in files && h in files[e.path].chunks;
      var i :| 0 <= i < |list| && list[i] == e;
      SubtreeNode(list, s.ns, source, i);
    }
  }

  /** The source is itself the only node under it, if it is a file. */
  lemma FileSubtree(s: Durable, source: str, destination: str)
    requires WellFormed(s.ns) && IsFile(s.ns, source) && FilesHaveNodes(s)
    ensures Placed(s.ns, source, destination) == map[destination := File]
    ensures source in s.tables.files ==> Placed(s.tables.files, source, destination) == map[destination := s.tables.files[source]]
    ensures source in s.tables.files ==> ChunksUnder(s.tables.files, source) == set h | h in s.tables.files[source].chunks
  {
    RelocatedSource(source, destination);
    forall p | p in s.ns && Under(source, p)
      ensures p == source
    {
      FileHasNothingBelow(s.ns, source, p);
    }
    hide Under, Relocate, WellFormed, Placed;
    PlacedAt(s.ns, source, destination, source);
    forall t | t in Placed(s.ns, source, destination)
      ensures t == destination
    {
      var p := PlacedFrom(s.ns, source, destination, t);
    }
    if source in s.tables.files {
      PlacedAt(s.tables.files, source, destination, source);
      forall t | t in Placed(s.tables.files, source, destination)
        ensures t == destination
      {
        var p := PlacedFrom(s.tables.files, source, destination, t);
        assert IsFile(s.ns, p);
      }
      assert forall p :: p in s.tables.files && Under(source, p) ==> IsFile(s.ns, p);
    }
  }

  // ----- from a state that satisfies the invariant, every step succeeds -----

  lemma SlashesOfParent(path: str)
    requires IsValid(path) && path != ROOT && Parent(path) != ROOT
    ensures Slashes(Parent(path)) < Slashes(path)
  {
    DepthOfParent(path);
  }

  /** In a list sorted by slashes the parent comes first. */
  lemma ParentCopied(s: Durable, source: str, destination: str, list: seq<NodeInfo>, i: nat, c: Copy)
    requires WellFormed(s.ns) && IsValid(source) && CanCreate(s.ns, destination)
    requires Subtree(multiset(list), s.ns, source) && Sorted(list, BySlashes)
    requires i < |list| && list[i].path != source && Copied(s, source, destination, list, i, c)
    ensures ValidEntry(s.ns, list[i].path) && Under(source, list[i].path)
    ensures list[i].path != ROOT && Under(source, Parent(list[i].path))
    ensures IsDirectory(c.made, Relocate(source, destination, Parent(list[i].path)))
  {
    hide IsValid, Parent, Under, Relocate, Slashes, CanCreate, WellFormed, Subtree, NotAfter;
    var p := list[i].path;
    SubtreeNode(list, s.ns, source, i);
    PlacedEntry(s.ns, source, destination, p);
    if Parent(p) == source {
      RelocatedSource(source, destination);
    } else {
      if Parent(p) == ROOT {
        UnderOnlyRoot(source);
        assert false;
      }
      SlashesOfParent(p);
      var k := SubtreeIndex(list, s.ns, source, NodeInfo(Parent(p), Directory));
      assert forall j :: i < j < |list| ==> BySlashes(list[i], list[j]);
      assert k < i;
      assert ImageMade(s, source, destination, list[k], c);
    }
  }

  lemma RelocatedSource(source: str, destination: str)
    ensures Under(source, source) && Relocate(source, destination, source) == destination
  {}

  lemma ImageIsNew(s: Durable, source: str, destination: str, list: seq<NodeInfo>, i: nat, c: Copy)
    requires Subtree(multiset(list), s.ns, source) && i < |list| && list[i].path != source
    requires Copied(s, source, destination, list, i, c) && Under(source, list[i].path)
    ensures Image(source, destination, list[i]) !in c.made && Image(source, destination, list[i]) !in c.clones
  {
    var t := Image(source, destination, list[i]);
    assert t != destination;
    forall j | 0 <= j < i
      ensures !IsImage(source, destination, list[j], t)
    {
      if IsImage(source, destination, list[j], t) {
        RelocateInjective(source, destination, list[i].path, list[j].path);
        SubtreeNode(list, s.ns, source, i);
        SubtreeNode(list, s.ns, source, j);
        TwiceInList(list, j, i);
        assert false;
      }
    }
  }

  lemma NextCreatable(s: Durable, source: str, destination: str, list: seq<NodeInfo>, i: nat, c: Copy)
    requires Inv(s) && IsValid(source) && CanCreate(s.ns, destination)
    requires Subtree(multiset(list), s.ns, source) && Sorted(list, BySlashes)
    requires i < |list| && list[i].path != source && Copied(s, source, destination, list, i, c)
    ensures Under(source, list[i].path)
    ensures CanCreate(s.ns + c.made, Image(source, destination, list[i]))
  {
    ParentCopied(s, source, destination, list, i, c);
    SubtreeNode(list, s.ns, source, i);
    PlacedEntry(s.ns, source, destination, list[i].path);
    ImageIsNew(s, source, destination, list, i, c);
    hide Under, Relocate, IsValid, Parent, Subtree, WellFormed, Consistent, Copied, BySlashes;
  }

  lemma NextClonable(s: Durable, source: str, destination: str, list: seq<NodeInfo>, i: nat, c: Copy)
    requires Inv(s) && IsValid(source) && CanCreate(s.ns, destination)
    requires Subtree(multiset(list), s.ns, source) && Undoable(s, c)
    requires i < |list| && list[i].path != source && list[i].kind == File
    requires Copied(s, source, destination, list, i, c)
    ensures Under(source, list[i].path) && list[i].path in s.tables.files
    ensures CloneFile(With(s, c).tables, list[i].path, Image(source, destination, list[i])).ok
  {
    var p := list[i].path;
    SubtreeNode(list, s.ns, source, i);
    PlacedEntry(s.ns, source, destination, p);
    ImageIsNew(s, source, destination, list, i, c);
    assert IsFile(s.ns, p);
    assert p in s.tables.files && ConsistentFile(s.tables, p);
    assert 0 !in s.tables.files[p].chunks;
    assert p !in c.clones;
    hide Under, Relocate, IsValid, Parent, Subtree, WellFormed, Copied;
    var t := Image(source, destination, list[i]);
    assert t !in s.tables.files;
  }

  // ----- the cases of the operation -----

  lemma SnapshotRefused(s: Durable, source: str, destination: str)
    requires !CanCreate(s.ns, destination) || source == []
    ensures ApplyCreateSnapshot(s, source, destination) == Step(s, false)
  {
    hide CanCreate;
  }

  lemma SnapshotApplied(s: Durable, source: str, destination: str)
    requires CanCreate(s.ns, destination) && source in s.ns && source != []
    ensures ApplyCreateSnapshot(s, source, destination) ==
            Step(Durable(s.ns + Placed(s.ns, source, destination),
                         s.tables.(files := s.tables.files + Placed(s.tables.files, source, destination))), true)
  {
    hide CanCreate, Placed;
  }

  /** Nothing is under a name that is not in the tree, except under the empty string. */
  lemma NothingUnder(ns: Tree, source: str, list: seq<NodeInfo>)
    requires WellFormed(ns) && source !in ns && source != [] && Subtree(multiset(list), ns, source)
    ensures list == []
  {
    if list != [] {
      SubtreeNode(list, ns, source, 0);
      var p := list[0].path;
      assert ValidEntry(ns, p);
      PrefixSplit(source, p);
      LeadingPartExists(ns, p, |source|);
      assert false;
    }
  }

  lemma ParentIsPrefix(p: str)
    requires IsValid(p) && p != ROOT
    ensures LastSlash(p) > 0 ==> Parent(p) == p[..LastSlash(p)]
  {
    hide IsValid, LastSlash;
  }

  lemma EntryHasParent(ns: Tree, p: str)
    requires WellFormed(ns) && p in ns && |p| > 1
    ensures p[0] == SLASH && IsValid(p) && p != ROOT && Parent(p) in ns
  {
    hide ValidFrom, Parent;
    assert ValidEntry(ns, p);
  }

  lemma NoLaterSlash(p: str, n: nat)
    requires IsValid(p) && n < |p| && p[n] == SLASH
    ensures n <= LastSlash(p)
  {
    hide LastSlash;
    var i := LastSlash(p);
    assert forall j :: i < j < |p| ==> p[j] == p[i + 1..][j - i - 1];
  }

  /** What stands before a slash inside an existing path exists. */
  lemma {:induction false} LeadingPartExists(ns: Tree, p: str, n: nat)
    requires WellFormed(ns) && p in ns && 0 < n < |p| && p[n] == SLASH
    ensures p[..n] in ns
    decreases |p|
  {
    hide IsValid, Parent, LastSlash, WellFormed;
    EntryHasParent(ns, p);
    ParentIsPrefix(p);
    NoLaterSlash(p, n);
    var i := LastSlash(p);
    if n < i {
      LeadingPartExists(ns, p[..i], n);
      assert p[..i][..n] == p[..n];
    }
  }

  lemma SnapshotOfNothing(s: Durable, source: str, destination: str, list: seq<NodeInfo>, c: Copy)
    requires CanCreate(s.ns, destination) && source !in s.ns && source != []
    requires list == [] && Copied(s, source, destination, list, |list|, c)
    ensures ApplyCreateSnapshot(s, source, destination) == Step(With(s, c), true)
  {
    hide CanCreate;
    assert c.made == map[destination := Directory];
    assert s.ns + c.made == s.ns[destination := Directory];
    assert c.clones == map[];
    assert s.tables.files + map[] == s.tables.files;
  }

  /** A snapshot of the empty string would have to make a path that ends in a slash. */
  lemma EmptySourceFails(s: Durable, destination: str, list: seq<NodeInfo>, c: Copy)
    requires WellFormed(s.ns) && WellFormed(With(s, c).ns)
    requires Subtree(multiset(list), s.ns, []) && destination != []
    ensures !Copied(s, [], destination, list, |list|, c)
  {
    if Copied(s, [], destination, list, |list|, c) {
      assert Under([], ROOT);
      var i := SubtreeIndex(list, s.ns, [], NodeInfo(ROOT, Directory));
      assert ImageMade(s, [], destination, list[i], c);
      var t := Image([], destination, list[i]);
      assert t == destination + [SLASH];
      assert ValidEntry(With(s, c).ns, t);
      TrailingSlashIsInvalid(t, 1);
      assert false;
    }
  }

  // ----- the steps of the loop -----

  lemma CopyFacts(s: Durable, c: Copy, e: NodeInfo, destination: str)
    requires Undoable(s, c) && e.path in s.ns && FilesHaveNodes(s)
    ensures e.path in With(s, c).tables.files <==> e.path in s.tables.files
    ensures e.path in s.tables.files ==> With(s, c).tables.files[e.path] == s.tables.files[e.path]
    ensures destination !in With(s, c).ns ==> destination !in c.made
    ensures With(s, c).ns == s.ns + c.made
  {
    assert forall p :: p in c.clones ==> p in c.files && IsFile(c.made, p);
    hide ParentBefore, ClonedFrom;
  }

  lemma CloneSame(s: Durable, c: Copy, c': Copy, source: str, destination: str)
    requires With(s, c').tables == With(s, c).tables
    ensures CloneFile(With(s, c').tables, source, destination) == CloneFile(With(s, c).tables, source, destination)
    ensures !CloneFile(With(s, c).tables, source, destination).ok ==>
              CloneFile(With(s, c).tables, source, destination).state == With(s, c).tables
  {
    hide With;
  }

  lemma FirstCopied(s: Durable, source: str, destination: str, list: seq<NodeInfo>) returns (c: Copy)
    requires CanCreate(s.ns, destination)
    ensures c == Copy(map[destination := Directory], map[], [], [destination])
    ensures Undoable(s, c) && With(s, c) == s.(ns := s.ns[destination := Directory])
    ensures Copied(s, source, destination, list, 0, c) && ChunksListed(s.tables.files, list[..0]) == {}
  {
    c := Copy(map[destination := Directory], map[], [], [destination]);
    FirstDirectory(s, destination);
  }

  lemma SourceIsDirectory(s: Durable, source: str, e: NodeInfo)
    requires !IsFile(s.ns, source) && e.path == source && source in s.ns && s.ns[source] == e.kind
    ensures e == NodeInfo(source, Directory)
  {}

  lemma NodeCopied(s: Durable, source: str, destination: str, list: seq<NodeInfo>, i: nat, c: Copy, c': Copy)
    requires i < |list| && Copied(s, source, destination, list, i, c) && Undoable(s, c) && Under(source, list[i].path)
    requires var t := Image(source, destination, list[i]);
             && t !in c.made && c'.made == c.made[t := list[i].kind]
             && c'.files == c.files + (if list[i].kind == File then [t] else [])
             && c'.dirs == c.dirs + (if list[i].kind == Directory then [t] else [])
             && (list[i].kind == Directory ==> c'.clones == c.clones)
             && (list[i].kind == File ==>
                   list[i].path in s.tables.files && c'.clones == c.clones[t := s.tables.files[list[i].path]])
    ensures Copied(s, source, destination, list, i + 1, c')
  {
    assert forall p :: p in c.clones ==> p in c.files && IsFile(c.made, p);
    hide Copied, Under, Image;
    if list[i].kind == Directory {
      DirectoryCopied(s, source, destination, list, i, c, c');
    } else {
      FileCopied(s, source, destination, list, i, c, c');
    }
  }

  /** From a state that satisfies the invariant no step of the loop fails. */
  lemma SnapshotNodeSucceeds(s: Durable, source: str, destination: str, list: seq<NodeInfo>, i: nat, c: Copy)
    requires CanCreate(s.ns, destination) && Undoable(s, c)
    requires Subtree(multiset(list), s.ns, source) && Sorted(list, BySlashes)
    requires i < |list| && list[i].path != source && Under(source, list[i].path) && Copied(s, source, destination, list, i, c)
    ensures Inv(s) && source in s.ns ==>
              && CanCreate(With(s, c).ns, Image(source, destination, list[i]))
              && (list[i].kind == File ==>
                    && list[i].path in s.tables.files
                    && CloneFile(With(s, c).tables, list[i].path, Image(source, destination, list[i])).ok)
  {
    hide Inv, Undoable, Subtree, Sorted, Copied, CanCreate, Under, Image, CloneFile;
    if Inv(s) && source in s.ns {
      EntryOfInv(s, source);
      NextCreatable(s, source, destination, list, i, c);
      if list[i].kind == File {
        NextClonable(s, source, destination, list, i, c);
      }
    }
  }

  lemma EntryOfInv(s: Durable, p: str)
    requires Inv(s) && p in s.ns
    ensures IsValid(p) && WellFormed(s.ns) && p != []
  {
    assert ValidEntry(s.ns, p);
    hide WellFormed, Consistent;
  }

  /** A snapshot can fail halfway only if the source is the empty string. */
  lemma SnapshotFailsOnlyForEmpty(s: Durable, source: str, destination: str, list: seq<NodeInfo>, i: nat)
    requires WellFormed(s.ns) && i < |list| && source !in s.ns && Subtree(multiset(list), s.ns, source)
    ensures ApplyCreateSnapshot(s, source, destination) == Step(s, false)
  {
    hide WellFormed, Subtree, ApplyCreateSnapshot;
    if source != [] {
      NothingUnder(s.ns, source, list);
      assert false;
    } else {
      SnapshotRefused(s, source, destination);
    }
  }

  lemma SnapshotComplete(s: Durable, source: str, destination: str, list: seq<NodeInfo>, c: Copy)
    requires CanCreate(s.ns, destination) && FilesHaveNodes(s) && WellFormed(s.ns) && WellFormed(With(s, c).ns)
    requires !IsFile(s.ns, source)
    requires Subtree(multiset(list), s.ns, source) && Copied(s, source, destination, list, |list|, c)
    ensures ApplyCreateSnapshot(s, source, destination) == Step(With(s, c), true)
  {
    CreatableNotEmpty(s.ns, destination);
    hide CanCreate, FilesHaveNodes, Subtree, Copied, ApplyCreateSnapshot, WellFormed, Placed;
    if source == [] {
      EmptySourceFails(s, destination, list, c);
      assert false;
    } else if source in s.ns {
      AllCopied(s, source, destination, list, c);
      SnapshotApplied(s, source, destination);
    } else {
      NothingUnder(s.ns, source, list);
      SnapshotOfNothing(s, source, destination, list, c);
    }
  }

  lemma CreatableNotEmpty(ns: Tree, p: str)
    requires CanCreate(ns, p)
    ensures p != []
  {}

  /** The snapshot of a single file: when it succeeds, and how it is undone. */
  lemma SnapshotFileApplied(s: Durable, source: str, destination: str)
    requires Inv(s) && IsFile(s.ns, source) && source != []
    ensures source in s.tables.files
    ensures !CanCreate(s.ns, destination) ==> ApplyCreateSnapshot(s, source, destination) == Step(s, false)
    ensures CanCreate(s.ns, destination) ==>
              && CloneFile(s.tables, source, destination).ok
              && ApplyCreateSnapshot(s, source, destination) ==
                 Step(Durable(s.ns[destination := File], CloneFile(s.tables, source, destination).state), true)
  {
    InvMeansNodes(s);
    FileHasRealPath(s, source);
    hide *;
    if CanCreate(s.ns, destination) {
      FileSubtree(s, source, destination);
      FileExists(s.ns, source);
      SnapshotApplied(s, source, destination);
      FileClonable(s, source, destination);
      AddOne(s.ns, destination, File);
      AddOne(s.tables.files, destination, s.tables.files[source]);
    } else {
      SnapshotRefused(s, source, destination);
    }
  }

  lemma FileExists(ns: Tree, p: str)
    requires IsFile(ns, p)
    ensures p in ns
  {}

  lemma InvMeansNodes(s: Durable)
    requires Inv(s)
    ensures FilesHaveNodes(s) && WellFormed(s.ns)
  {
    hide WellFormed, Consistent;
  }

  lemma AddOne<K, V>(m: map<K, V>, k: K, v: V)
    ensures m + map[k := v] == m[k := v]
  {}

  lemma FileClonable(s: Durable, source: str, destination: str)
    requires Inv(s) && source in s.tables.files && CanCreate(s.ns, destination)
    ensures CloneFile(s.tables, source, destination) ==
            Step(s.tables.(files := s.tables.files[destination := s.tables.files[source]]), true)
  {
    hide Inv, CanCreate;
    CreatableHasRealPath(s, destination);
    ListedChunksAreLive(s, source);
  }

  lemma ListedChunksAreLive(s: Durable, path: str)
    requires Inv(s) && path in s.tables.files
    ensures path != [] && forall h :: h in s.tables.files[path].chunks ==> h != 0 && h in s.tables.chunks
  {
    hide WellFormed;
    assert ConsistentFile(s.tables, path);
  }

  lemma SnapshotFileUndone(s: Durable, source: str, destination: str)
    requires FilesHaveNodes(s) && CanCreate(s.ns, destination)
    ensures s.ns[destination := File] - {destination} == s.ns
    ensures IsFile(s.ns[destination := File], destination)
    ensures DeleteFile(s.tables, destination) == Step(s.tables, false)
    ensures !CloneFile(s.tables, source, destination).ok ==> CloneFile(s.tables, source, destination).state == s.tables
  {
    hide IsValid, Parent;
  }

  lemma FileChunksUnder(s: Durable, source: str)
    requires WellFormed(s.ns) && IsFile(s.ns, source) && FilesHaveNodes(s) && source in s.tables.files
    ensures ChunksUnder(s.tables.files, source) == set h | h in s.tables.files[source].chunks
  {
    hide *;
    FileSubtree(s, source, []);
  }

  // ----- what a snapshot means for references -----

  /** A snapshot adds exactly the image of the source: every path that existed keeps its kind and
      entry, every path of the image has the kind, size, factor and ordered handles of the path it
      stands for, and nothing else appears. */
  lemma SnapshotIsImage(s: Durable, source: str, destination: str, p: str)
    requires Inv(s) && source in s.ns && CanCreate(s.ns, destination)
    ensures var after := ApplyCreateSnapshot(s, source, destination);
            && after.ok && after.state.tables.chunks == s.tables.chunks && after.state.tables.next == s.tables.next
            && (p in s.ns ==> p in after.state.ns && after.state.ns[p] == s.ns[p])
            && (p in s.tables.files ==> p in after.state.tables.files && after.state.tables.files[p] == s.tables.files[p])
            && (p in s.ns && Under(source, p) ==>
                  var t := Relocate(source, destination, p);
                  && t !in s.ns && t in after.state.ns && after.state.ns[t] == s.ns[p]
                  && (s.ns[p] == File ==> t in after.state.tables.files && after.state.tables.files[t] == s.tables.files[p]))
            && (p in after.state.ns && p !in s.ns ==>
                  exists q :: q in s.ns && Under(source, q) && p == Relocate(source, destination, q))
  {
    assert ValidEntry(s.ns, source);
    PlacedIsNew(s.ns, source, destination);
    assert source != [];
    if p in s.ns && Under(source, p) {
      PlacedAt(s.ns, source, destination, p);
      if s.ns[p] == File {
        PlacedAt(s.tables.files, source, destination, p);
      }
    }
    if p in Placed(s.ns, source, destination) {
      var q := PlacedFrom(s.ns, source, destination, p);
    }
    hide Under, Relocate, WellFormed, Consistent, CanCreate, IsValid;
    if p in s.tables.files && p in Placed(s.tables.files, source, destination) {
      ImageAgrees(s, source, destination, p);
      assert false;
    }
  }

  /** Holders below the source. */
  function HoldersUnder(files: map<str, FileMeta>, source: str, h: Handle): set<str> {
    set p | p in files && Under(source, p) && h in files[p].chunks
  }

  lemma {:induction false} ImageSize(a: set<str>, source: str, destination: str, b: set<str>)
    requires forall p :: p in a ==> Under(source, p)
    requires forall t :: t in b <==> exists p :: p in a && Relocated(source, destination, p, t)
    ensures |a| == |b|
    decreases a
  {
    hide Under, Relocate;
    if a == {} {
      assert b == {};
    } else {
      var p :| p in a;
      var t := Relocate(source, destination, p);
      assert Relocated(source, destination, p, t);
      forall u
        ensures u in b - {t} <==> exists q :: q in a - {p} && Relocated(source, destination, q, u)
      {
        if u in b - {t} {
          var q :| q in a && Relocated(source, destination, q, u);
          assert q in a - {p};
        } else if exists q :: q in a - {p} && Relocated(source, destination, q, u) {
          var q :| q in a - {p} && Relocated(source, destination, q, u);
          if u == t {
            RelocateInjective(source, destination, p, q);
            assert false;
          }
        }
      }
      ImageSize(a - {p}, source, destination, b - {t});
    }
  }

  ghost predicate Relocated(source: str, destination: str, p: str, t: str) {
    Under(source, p) && t == Relocate(source, destination, p)
  }

  lemma SnapshotTables(s: Durable, source: str, destination: str)
    requires Inv(s) && source in s.ns && CanCreate(s.ns, destination)
    ensures source != [] && IsValid(source)
    ensures ApplyCreateSnapshot(s, source, destination).state.tables ==
            s.tables.(files := s.tables.files + Placed(s.tables.files, source, destination))
  {
    assert ValidEntry(s.ns, source);
    hide Placed, Consistent, WellFormed, CanCreate;
  }

  /** The file entries of the image that list a chunk, all new, are the images of those that list
      it under the source. */
  lemma HoldersOfImage(s: Durable, source: str, destination: str, h: Handle, t: str)
    requires Inv(s) && source in s.ns && IsValid(source) && CanCreate(s.ns, destination)
    ensures var placed := Placed(s.tables.files, source, destination);
            && (t in placed ==> t !in s.tables.files)
            && (t in Holders(placed, h) <==>
                  exists p :: p in HoldersUnder(s.tables.files, source, h) && Relocated(source, destination, p, t))
  {
    var files, placed := s.tables.files, Placed(s.tables.files, source, destination);
    ImageAgrees(s, source, destination, t);
    hide Under, Relocate, WellFormed, Consistent, CanCreate, IsValid, Placed;
    if t in placed {
      var p := PlacedFrom(files, source, destination, t);
      assert Relocated(source, destination, p, t);
      if t in Holders(placed, h) {
        assert p in HoldersUnder(files, source, h);
      }
    }
    if exists p :: p in HoldersUnder(files, source, h) && Relocated(source, destination, p, t) {
      var p :| p in HoldersUnder(files, source, h) && Relocated(source, destination, p, t);
      PlacedAt(files, source, destination, p);
    }
  }

  /** Every chunk gains one reference for each file under the source that lists it. */
  lemma SnapshotReferences(s: Durable, source: str, destination: str, h: Handle)
    requires Inv(s) && source in s.ns && CanCreate(s.ns, destination) && h in s.tables.chunks
    ensures var after := ApplyCreateSnapshot(s, source, destination).state.tables;
            References(after, h) == References(s.tables, h) + |HoldersUnder(s.tables.files, source, h)|
  {
    SnapshotTables(s, source, destination);
    assert h != 0;
    var files, placed := s.tables.files, Placed(s.tables.files, source, destination);
    hide Under, Relocate, Inv, CanCreate, IsValid, Placed, ApplyCreateSnapshot, HoldersUnder, Relocated, Holders;
    forall t
      ensures t in Holders(placed, h) <==> exists p :: p in HoldersUnder(files, source, h) && Relocated(source, destination, p, t)
      ensures t in placed ==> t !in files
    {
      HoldersOfImage(s, source, destination, h, t);
    }
    AreUnder(files, source, h);
    ImageSize(HoldersUnder(files, source, h), source, destination, Holders(placed, h));
    HoldersOfSum(files, placed, h);
  }

  lemma AreUnder(files: map<str, FileMeta>, source: str, h: Handle)
    ensures forall p :: p in HoldersUnder(files, source, h) ==> Under(source, p)
  {
    hide Under;
  }

  lemma HoldersOfSum(a: map<str, FileMeta>, b: map<str, FileMeta>, h: Handle)
    requires forall t :: t in b ==> t !in a
    ensures |Holders(a + b, h)| == |Holders(a, h)| + |Holders(b, h)|
  {
    assert Holders(a + b, h) == Holders(a, h) + Holders(b, h);
    assert Holders(a, h) !! Holders(b, h);
  }
}
