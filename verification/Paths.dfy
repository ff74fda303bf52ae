// Absolute path strings: validity, splitting, parent and base name, and the prefix
// arithmetic that moving or copying a subtree needs.

module Paths {
  import opened Bytes

  const SLASH: byte := 0x2F
  const DOT: byte := 0x2E
  const NUL: byte := 0
  const ROOT: str := [0x2F]

  /** What a path component may be. */
  predicate ValidName(name: str) {
    && name != []
    && SLASH !in name
    && NUL !in name
    && name != [DOT]
    && name != [DOT, DOT]
  }

  /** The first slash at or after `start`, or the length of the path. */
  function NextSlash(path: str, start: nat): (e: nat)
    requires start <= |path|
    ensures start <= e <= |path|
    ensures SLASH !in path[start..e]
    ensures e < |path| ==> path[e] == SLASH
    decreases |path| - start
  {
    if start == |path| || path[start] == SLASH then start
    else
      var e := NextSlash(path, start + 1);
      assert path[start..e] == [path[start]] + path[start + 1..e];
      e
  }

  function LastSlash(path: str): (i: nat)
    requires path != [] && path[0] == SLASH
    ensures i < |path| && path[i] == SLASH
    ensures SLASH !in path[i + 1..]
  {
    var last := |path| - 1;
    if path[last] == SLASH then last
    else
      var i := LastSlash(path[..last]);
      assert path[i + 1..] == path[..last][i + 1..] + [path[last]];
      i
  }

  /** The path from `start` on is a slash-separated list of valid names. */
  predicate ValidFrom(path: str, start: nat)
    requires start <= |path|
    decreases |path| - start
  {
    var e := NextSlash(path, start);
    && ValidName(path[start..e])
    && (e < |path| ==> ValidFrom(path, e + 1))
  }

  predicate IsValid(path: str) {
    && path != []
    && path[0] == SLASH
    && (path != ROOT ==> ValidFrom(path, 1))
  }

  function SplitFrom(path: str, start: nat): (names: seq<str>)
    requires start <= |path|
    decreases |path| - start
  {
    if start == |path| then []
    else
      var e := NextSlash(path, start);
      if e == |path| then [path[start..]] else [path[start..e]] + SplitFrom(path, e + 1)
  }

  /** The components of a valid path; the root has none. */
  function Split(path: str): seq<str>
    requires IsValid(path)
  {
    SplitFrom(path, 1)
  }

  function Child(path: str, name: str): str {
    if path == ROOT then ROOT + name else path + [SLASH] + name
  }

  function Parent(path: str): str
    requires IsValid(path) && path != ROOT
  {
    if LastSlash(path) == 0 then ROOT else path[..LastSlash(path)]
  }

  function Base(path: str): str
    requires IsValid(path) && path != ROOT
  {
    path[LastSlash(path) + 1..]
  }

  // ----- the loops -----

  method FindSlash(path: str, start: nat) returns (e: nat)
    requires start <= |path|
    ensures e == NextSlash(path, start)
  {
    e := start;
    while e < |path| && path[e] != SLASH
      invariant start <= e <= |path|
      invariant NextSlash(path, start) == NextSlash(path, e)
    {
      e := e + 1;
    }
  }

  method IsValidPath(path: str) returns (valid: bool)
    ensures valid <==> IsValid(path)
  {
    if path == [] || path[0] != SLASH || NUL in path {
      NulNeverValid(path);
      return false;
    }
    hide ValidName;
    if |path| > 1 && path[|path| - 1] == SLASH {
      TrailingSlashIsInvalid(path, 1);
      return false;
    }
    var start := 1;
    while start < |path|
      invariant 1 <= start <= |path| || start == |path| + 1
      invariant start == |path| ==> path == ROOT
      invariant path != ROOT && start <= |path| ==> (ValidFrom(path, 1) <==> ValidFrom(path, start))
      invariant start == |path| + 1 ==> ValidFrom(path, 1)
    {
      var e := FindSlash(path, start);
      if e == start {
        return false;
      }
      var component := path[start..e];
      NameCheck(path, start, e);
      if component == [DOT] || component == [DOT, DOT] {
        return false;
      }
      // At the end of the string the scan stops; one past the end marks that.
      start := e + 1;
    }
    return true;
  }

  /** The components; an invalid path has none. */
  method SplitPath(path: str) returns (components: seq<str>)
    ensures components == if IsValid(path) then Split(path) else []
  {
    components := [];
    var valid := IsValidPath(path);
    if !valid || path == ROOT {
      return;
    }
    var start := 1;
    while start < |path|
      invariant 1 <= start <= |path|
      invariant Split(path) == components + SplitFrom(path, start)
      decreases |path| - start
    {
      var e := FindSlash(path, start);
      if e == |path| {
        components := components + [path[start..]];
        return;
      }
      components := components + [path[start..e]];
      start := e + 1;
    }
  }

  lemma NulNeverValid(path: str)
    ensures IsValid(path) ==> NUL !in path
  {
    if IsValid(path) && NUL in path {
      var i :| 0 <= i < |path| && path[i] == NUL;
      NulIsInvalid(path, 1, i);
      assert false;
    }
  }

  /** What is left to check of a component once the string is known to hold no NUL. */
  lemma NameCheck(path: str, start: nat, e: nat)
    requires start <= e <= |path| && NUL !in path && SLASH !in path[start..e]
    ensures ValidName(path[start..e]) <==>
              start < e && path[start..e] != [DOT] && path[start..e] != [DOT, DOT]
  {
    assert forall b :: b in path[start..e] ==> b in path;
  }

  lemma {:induction false} NulIsInvalid(path: str, start: nat, i: nat)
    requires start <= i < |path| && path[i] == NUL
    ensures !ValidFrom(path, start)
    decreases |path| - start
  {
    var e := NextSlash(path, start);
    if i < e {
      assert path[start..e][i - start] == NUL;
    } else {
      NulIsInvalid(path, e + 1, i);
    }
  }

  lemma {:induction false} TrailingSlashIsInvalid(path: str, start: nat)
    requires start < |path| && path[|path| - 1] == SLASH
    ensures !ValidFrom(path, start)
    decreases |path| - start
  {
    var e := NextSlash(path, start);
    if e == |path| {
      assert false;
    }
    if e + 1 < |path| {
      TrailingSlashIsInvalid(path, e + 1);
    }
  }

  // ----- a path is its parent and its base name -----

  lemma NextSlashUnique(path: str, start: nat, e: nat)
    requires start <= e <= |path|
    requires SLASH !in path[start..e]
    requires e < |path| ==> path[e] == SLASH
    ensures NextSlash(path, start) == e
  {
    var f := NextSlash(path, start);
    if f < e {
      assert false;
    } else if e < f {
      assert false;
    }
  }

  lemma LastSlashUnique(path: str, i: nat)
    requires path != [] && path[0] == SLASH
    requires i < |path| && path[i] == SLASH && SLASH !in path[i + 1..]
    ensures LastSlash(path) == i
  {
    var j := LastSlash(path);
    if j < i {
      assert false;
    } else if i < j {
      assert false;
    }
  }

  lemma NextSlashOfSnoc(q: str, name: str, start: nat)
    requires SLASH !in name && start <= |q|
    ensures NextSlash(q + [SLASH] + name, start) == NextSlash(q, start)
    ensures (q + [SLASH] + name)[start..NextSlash(q, start)] == q[start..NextSlash(q, start)]
  {
    var p := q + [SLASH] + name;
    var e := NextSlash(q, start);
    assert p[start..e] == q[start..e];
    NextSlashUnique(p, start, e);
  }

  lemma NextSlashOfLast(q: str, name: str)
    requires SLASH !in name
    ensures var p := q + [SLASH] + name; NextSlash(p, |q| + 1) == |p| && p[|q| + 1..|p|] == name && p[|q| + 1..] == name
  {
    var p := q + [SLASH] + name;
    assert p[|q| + 1..|p|] == name;
    NextSlashUnique(p, |q| + 1, |p|);
    assert p[|q| + 1..] == name;
  }

  /** Adding a component at the end keeps a path valid exactly if the component is a valid name. */
  lemma {:induction false} Snoc(q: str, name: str, start: nat)
    requires SLASH !in name && start <= |q|
    ensures ValidFrom(q + [SLASH] + name, start) <==> ValidFrom(q, start) && ValidName(name)
    decreases |q| - start
  {
    hide ValidName;
    NextSlashOfSnoc(q, name, start);
    var e := NextSlash(q, start);
    if e == |q| {
      NextSlashOfLast(q, name);
    } else {
      Snoc(q, name, e + 1);
    }
  }

  lemma {:induction false} SnocSplit(q: str, name: str, start: nat)
    requires SLASH !in name && start <= |q| && name != []
    requires ValidFrom(q, start)
    ensures SplitFrom(q + [SLASH] + name, start) == SplitFrom(q, start) + [name]
    decreases |q| - start
  {
    NextSlashOfSnoc(q, name, start);
    var p := q + [SLASH] + name;
    var e := NextSlash(q, start);
    assert ValidName(q[start..e]) && (e < |q| ==> ValidFrom(q, e + 1));
    hide ValidFrom, ValidName, NextSlash;
    if e == |q| {
      NextSlashOfLast(q, name);
      assert p[|q| + 1..] == name;
      assert SplitFrom(p, |q| + 1) == [name];
      assert q[start..] == q[start..e];
    } else {
      SnocSplit(q, name, e + 1);
      assert SplitFrom(p, start) == [q[start..e]] + (SplitFrom(q, e + 1) + [name]);
    }
  }

  lemma ChildOf(path: str, name: str)
    requires IsValid(path) && ValidName(name)
    ensures IsValid(Child(path, name)) && Child(path, name) != ROOT
    ensures Parent(Child(path, name)) == path && Base(Child(path, name)) == name
    ensures Split(Child(path, name)) == Split(path) + [name]
  {
    var p := Child(path, name);
    if path == ROOT {
      assert p[1..|p|] == name;
      NextSlashUnique(p, 1, |p|);
      assert p[1..] == name;
      assert p[0 + 1..] == name;
      LastSlashUnique(p, 0);
    } else {
      Snoc(path, name, 1);
      SnocSplit(path, name, 1);
      assert p[|path| + 1..] == name;
      LastSlashUnique(p, |path|);
      assert p[..|path|] == path;
    }
  }

  lemma ParentAndBase(path: str)
    requires IsValid(path) && path != ROOT
    ensures IsValid(Parent(path)) && ValidName(Base(path))
    ensures path == Child(Parent(path), Base(path))
    ensures |Parent(path)| < |path|
  {
    var i := LastSlash(path);
    var name := path[i + 1..];
    if i == 0 {
      assert path[..|path|] == path;
      assert path[1..|path|] == name;
      NextSlashUnique(path, 1, |path|);
      assert path == ROOT + name;
    } else {
      var q := path[..i];
      assert path == q + [SLASH] + name;
      Snoc(q, name, 1);
      assert q != ROOT;
    }
  }

  /** The path with the given components. */
  function Join(names: seq<str>): str {
    if names == [] then ROOT else Child(Join(names[..|names| - 1]), names[|names| - 1])
  }

  lemma {:induction false} JoinSplit(path: str)
    requires IsValid(path)
    ensures Join(Split(path)) == path
    decreases |path|
  {
    if path != ROOT {
      ParentAndBase(path);
      ChildOf(Parent(path), Base(path));
      assert Split(path)[..|Split(path)| - 1] == Split(Parent(path));
      JoinSplit(Parent(path));
    }
  }

  lemma {:induction false} SplitNames(path: str)
    requires IsValid(path)
    ensures forall i :: 0 <= i < |Split(path)| ==> ValidName(Split(path)[i])
    decreases |path|
  {
    if path != ROOT {
      ParentAndBase(path);
      ChildOf(Parent(path), Base(path));
      SplitNames(Parent(path));
    }
  }

  // ----- subtrees -----

  /** The string every path strictly below `dir` starts with. */
  function DirPrefix(dir: str): str {
    if dir == ROOT then ROOT else dir + [SLASH]
  }

  predicate Below(dir: str, path: str) {
    path != dir && DirPrefix(dir) <= path
  }

  predicate Under(dir: str, path: str) {
    path == dir || Below(dir, path)
  }

  /** What is left of a path below a directory, after the directory. */
  function Remainder(dir: str, path: str): str
    requires Below(dir, path)
  {
    path[|DirPrefix(dir)|..]
  }

  /** Where a path under `source` goes when the subtree is placed at `destination`. */
  function Relocate(source: str, destination: str, path: str): str
    requires Under(source, path)
  {
    if path == source then destination
    else destination + [SLASH] + Remainder(source, path)
  }

  lemma PrefixSplit(dir: str, path: str)
    requires Below(dir, path)
    ensures path == DirPrefix(dir) + Remainder(dir, path)
    ensures dir != ROOT ==> |path| > |dir| && path[|dir|] == SLASH && path[..|dir|] == dir
  {
    var n := |DirPrefix(dir)|;
    assert path == path[..n] + path[n..];
    assert path[..n] == DirPrefix(dir);
    if dir != ROOT {
      assert path[..n][|dir|] == SLASH;
      assert path[..n][..|dir|] == dir;
      assert path[..|dir|] == path[..n][..|dir|];
    }
  }

  lemma ParentOfBelowRoot(path: str)
    requires IsValid(path) && path != ROOT && Below(ROOT, path)
    ensures Parent(path) == ROOT ==> Remainder(ROOT, path) == Base(path)
    ensures Parent(path) != ROOT ==>
              && Below(ROOT, Parent(path))
              && Remainder(ROOT, path) == Remainder(ROOT, Parent(path)) + [SLASH] + Base(path)
  {
    ParentAndBase(path);
    hide ValidFrom, IsValid, LastSlash;
    var i := LastSlash(path);
    if i > 0 {
      assert path[1..] == path[1..i] + [SLASH] + path[i + 1..];
      assert Parent(path)[1..] == path[1..i];
      assert Parent(path)[..1] == ROOT;
    }
  }

  lemma ParentOfBelowDirectory(dir: str, path: str)
    requires IsValid(dir) && IsValid(path) && dir != ROOT && path != ROOT && Below(dir, path)
    ensures Parent(path) == dir ==> Remainder(dir, path) == Base(path)
    ensures Parent(path) != dir ==>
              && Below(dir, Parent(path))
              && Remainder(dir, path) == Remainder(dir, Parent(path)) + [SLASH] + Base(path)
  {
    assert dir != [];
    hide ValidFrom, LastSlash, IsValid;
    PrefixSplit(dir, path);
    ParentAndBase(path);
    var i, n := LastSlash(path), |dir| + 1;
    if i < |dir| {
      assert false;
    } else if i > |dir| {
      var up := Parent(path);
      assert up == path[..i] && Base(path) == path[i + 1..];
      CutAt(path, n, i);
      assert up[..n] == DirPrefix(dir);
    }
  }

  lemma CutAt(path: str, n: nat, i: nat)
    requires n <= i < |path| && path[i] == SLASH
    ensures path[n..] == path[..i][n..] + [SLASH] + path[i + 1..]
    ensures path[..i][..n] == path[..n]
  {}

  /** The parent of a path below a directory is the directory itself or below it too. */
  lemma ParentOfBelow(dir: str, path: str)
    requires IsValid(dir) && IsValid(path) && path != ROOT && Below(dir, path)
    ensures Parent(path) == dir ==> Remainder(dir, path) == Base(path)
    ensures Parent(path) != dir ==>
              && Below(dir, Parent(path))
              && Remainder(dir, path) == Remainder(dir, Parent(path)) + [SLASH] + Base(path)
  {
    if dir == ROOT {
      ParentOfBelowRoot(path);
    } else {
      ParentOfBelowDirectory(dir, path);
    }
  }

  /** A path strictly below a directory has its parent under the directory, and is relocated by
      relocating its parent. */
  lemma RelocateStep(source: str, destination: str, path: str)
    requires IsValid(source) && IsValid(path) && path != ROOT
    requires Below(source, path) && |destination| > 1
    ensures Under(source, Parent(path))
    ensures Relocate(source, destination, path) == Child(Relocate(source, destination, Parent(path)), Base(path))
  {
    ParentOfBelow(source, path);
    hide Parent, Base, IsValid, Remainder, Below, DirPrefix;
    if Parent(path) != source {
      Rejoin(destination, Remainder(source, Parent(path)), Base(path));
    }
  }

  lemma Rejoin(d: str, r: str, name: str)
    ensures d + [SLASH] + (r + [SLASH] + name) == (d + [SLASH] + r) + [SLASH] + name
  {}

  /** Only the directory itself, or a path whose parent is under it, is under a directory. */
  lemma UnderViaParent(dir: str, path: str)
    requires IsValid(dir) && IsValid(path) && path != ROOT && path != dir
    ensures Under(dir, path) <==> Under(dir, Parent(path))
  {
    ParentAndBase(path);
    if Below(dir, path) {
      ParentOfBelow(dir, path);
    }
  }

  lemma RelocateInjective(source: str, destination: str, p: str, q: str)
    requires Under(source, p) && Under(source, q)
    requires Relocate(source, destination, p) == Relocate(source, destination, q)
    ensures p == q
  {
    if p != source && q != source {
      PrefixSplit(source, p);
      PrefixSplit(source, q);
      var r, t := Relocate(source, destination, p), |destination| + 1;
      assert r[t..] == Remainder(source, p);
      assert r[t..] == Remainder(source, q);
    }
  }

  /** Relocating there and back is the identity. */
  lemma RelocateBack(source: str, destination: str, path: str)
    requires Under(source, path) && destination != ROOT
    ensures Under(destination, Relocate(source, destination, path))
    ensures source != ROOT ==> Relocate(destination, source, Relocate(source, destination, path)) == path
  {
    if path != source {
      PrefixSplit(source, path);
      var t := Relocate(source, destination, path);
      assert t[..|destination| + 1] == DirPrefix(destination);
      assert t[|destination| + 1..] == Remainder(source, path);
    }
  }

  lemma {:induction false} UnderTransitive(a: str, b: str, c: str)
    requires IsValid(a) && IsValid(b) && IsValid(c)
    requires Under(a, b) && Under(b, c)
    ensures Under(a, c)
    decreases |c|
  {
    if b != c && c != ROOT {
      UnderViaParent(b, c);
      ParentAndBase(c);
      UnderTransitive(a, b, Parent(c));
      if a != c {
        UnderViaParent(a, c);
      }
    }
  }

  /** The step below `dir` on the way to a path strictly below it. */
  lemma {:induction false} StepTowards(dir: str, path: str) returns (q: str)
    requires IsValid(dir) && IsValid(path) && Under(dir, path) && path != dir && path != ROOT
    ensures IsValid(q) && q != ROOT && Parent(q) == dir && Under(q, path)
    decreases |path|
  {
    hide IsValid, Parent, Base, Under;
    ParentAndBase(path);
    UnderViaParent(dir, path);
    if Parent(path) == dir {
      q := path;
      UnderSelf(path);
    } else {
      StillBelow(dir, path);
      q := StepTowards(dir, Parent(path));
      StepUp(q, path);
    }
  }

  lemma UnderSelf(path: str)
    ensures Under(path, path)
  {}

  lemma StillBelow(dir: str, path: str)
    requires IsValid(dir) && IsValid(path) && path != ROOT && Under(dir, Parent(path)) && Parent(path) != dir
    ensures Parent(path) != ROOT
  {
    if Parent(path) == ROOT && dir != ROOT {
      PrefixSplit(dir, ROOT);
    }
  }

  lemma StepUp(q: str, path: str)
    requires IsValid(q) && IsValid(path) && path != ROOT && Under(q, Parent(path))
    ensures Under(q, path)
  {
    if q != path {
      UnderViaParent(q, path);
    }
  }

  /** The number of components: 0 for the root, else the number of slashes. */
  function Slashes(path: str): nat {
    if path == [] then 0 else (if path[|path| - 1] == SLASH then 1 else 0) + Slashes(path[..|path| - 1])
  }

  function Depth(path: str): nat {
    if path == ROOT then 0 else Slashes(path)
  }

  lemma {:induction false} SlashesConcat(a: str, b: str)
    ensures Slashes(a + b) == Slashes(a) + Slashes(b)
  {
    if b == [] {
      assert a + b == a;
    } else {
      assert (a + b)[..|a + b| - 1] == a + b[..|b| - 1];
      SlashesConcat(a, b[..|b| - 1]);
    }
  }

  lemma {:induction false} NoSlashes(name: str)
    requires SLASH !in name
    ensures Slashes(name) == 0
  {
    if name != [] {
      NoSlashes(name[..|name| - 1]);
    }
  }

  /** A path is one deeper than its parent. */
  lemma DepthOfParent(path: str)
    requires IsValid(path) && path != ROOT
    ensures Depth(path) == Depth(Parent(path)) + 1
  {
    ParentAndBase(path);
    hide IsValid, Parent, Base;
    var p, name := Parent(path), Base(path);
    NoSlashes(name);
    assert Slashes(ROOT) == 1 by {
      assert ROOT[..0] == [];
    }
    if p == ROOT {
      SlashesConcat(ROOT, name);
    } else {
      SlashesConcat(p + [SLASH], name);
      SlashesConcat(p, [SLASH]);
      assert [SLASH] == ROOT;
    }
  }

  /** A path of one letter, directly below the root. */
  lemma ShortPath(path: str, letter: byte)
    requires path == [SLASH, letter] && ValidName([letter])
    ensures IsValid(path) && path != ROOT && Parent(path) == ROOT
  {
    assert letter != SLASH;
    assert NextSlash(path, 1) == 2;
    assert path[1..2] == [letter];
    LastSlashUnique(path, 0);
    assert IsValid(ROOT);
  }
}
