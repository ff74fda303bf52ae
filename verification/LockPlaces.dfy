// Which paths have a lock node, and which one it is; and which paths are valid, spelled out.

module LockPlaces {
  // The lock tree reads paths more freely than the namespace: a slash may follow the last component,
  // and any component counts that is not empty.

  import opened Bytes
  import opened Paths
  import opened NamespaceLock

  predicate Plain(names: seq<str>) {
    forall i :: 0 <= i < |names| ==> names[i] != [] && SLASH !in names[i]
  }

  function Slashed(names: seq<str>): str {
    if names == [] then [] else [SLASH] + names[0] + Slashed(names[1..])
  }

  /** The names one after another, each behind a slash, and possibly one more slash at the end. */
  predicate Spells(s: str, names: seq<str>) {
    (names != [] && s == Slashed(names)) || s == Slashed(names) + [SLASH]
  }

  /** Which paths have a place, and which one: names without slashes, none of them empty. */
  lemma ComponentsIff(path: str, names: seq<str>)
    ensures Components(path) == Some(names) <==> Plain(names) && Spells(path, names)
  {
    if path != [] && path[0] == SLASH {
      assert path[0..] == path;
      if Components(path) == Some(names) {
        ComponentsSpell(path, 1);
      }
      if Plain(names) && Spells(path, names) {
        SpelledComponents(path, 1, names);
      }
    }
  }

  lemma {:induction false} ComponentsSpell(path: str, start: nat)
    requires 0 < start <= |path| && path[start - 1] == SLASH && ComponentsFrom(path, start) != None
    ensures Plain(ComponentsFrom(path, start).value) && Spells(path[start - 1..], ComponentsFrom(path, start).value)
    decreases |path| - start
  {
    if start == |path| {
      assert path[start - 1..] == [SLASH];
    } else {
      hide Spells, Plain, ComponentsFrom, NextSlash;
      var e := NextSlash(path, start);
      var name := path[start..e];
      NextSlashOf(path, start, e);
      assert path[start - 1..] == [SLASH] + name + path[e..];
      assert SLASH !in name;
      if e < |path| {
        ComponentsSpell(path, e + 1);
        OneMoreName(name, ComponentsFrom(path, e + 1).value, path[e..]);
      } else {
        OnlyName(name);
        assert [SLASH] + name + path[e..] == [SLASH] + name;
        assert [name] + [] == [name];
      }
    }
  }

  lemma OneMoreName(name: str, rest: seq<str>, tail: str)
    requires name != [] && SLASH !in name && Plain(rest) && Spells(tail, rest)
    ensures Plain([name] + rest) && Spells([SLASH] + name + tail, [name] + rest)
  {
    assert ([name] + rest)[1..] == rest;
  }

  lemma OnlyName(name: str)
    requires name != [] && SLASH !in name
    ensures Plain([name]) && Spells([SLASH] + name, [name])
  {
    assert Slashed([name]) == [SLASH] + name + Slashed([]);
  }

  lemma {:induction false} SpelledComponents(path: str, start: nat, names: seq<str>)
    requires 0 < start <= |path| && Plain(names) && Spells(path[start - 1..], names)
    ensures ComponentsFrom(path, start) == Some(names)
    decreases |names|
  {
    hide Spells, NextSlash, Slashed, Plain, ComponentsFrom;
    if names == [] {
      NoNames(path, start);
    } else {
      FirstSpelled(path, start, names);
      PlainRest(names);
      var e := start + |names[0]|;
      NextSlashOf(path, start, e);
      assert names == [names[0]] + names[1..];
      if e < |path| {
        SpelledComponents(path, e + 1, names[1..]);
      }
    }
  }

  lemma NoNames(path: str, start: nat)
    requires 0 < start <= |path| && Spells(path[start - 1..], [])
    ensures ComponentsFrom(path, start) == Some([])
  {
    assert |path[start - 1..]| == 1;
  }

  lemma PlainRest(names: seq<str>)
    requires Plain(names) && names != []
    ensures Plain(names[1..])
  {}

  lemma FirstSpelled(path: str, start: nat, names: seq<str>)
    requires 0 < start <= |path| && Plain(names) && Spells(path[start - 1..], names) && names != []
    ensures var e := start + |names[0]|;
            && start < e <= |path| && path[start..e] == names[0] && NextSlash(path, start) == e
            && (if e < |path| then Spells(path[e..], names[1..]) else names[1..] == [])
  {
    hide Slashed, NextSlash;
    FirstNamed(path[start - 1..], names);
    var n, e := |names[0]|, start + |names[0]|;
    assert path[start - 1..][1..1 + n] == path[start..e];
    assert path[start - 1..][1 + n..] == path[e..];
    SlashedStarts(names[1..]);
    NextSlashUnique(path, start, e);
  }

  /** A spelled name ends where the rest is spelled, or with the string. */
  lemma FirstNamed(s: str, names: seq<str>)
    requires Plain(names) && Spells(s, names) && names != []
    ensures var n := |names[0]|;
            && 0 < n && 1 + n <= |s| && s[1..1 + n] == names[0] && SLASH !in names[0]
            && var tail := s[1 + n..];
               (tail == Slashed(names[1..]) || tail == Slashed(names[1..]) + [SLASH])
  {
    SlashedCons(names);
    hide Slashed;
  }

  lemma SlashedCons(names: seq<str>)
    requires names != []
    ensures Slashed(names) == [SLASH] + names[0] + Slashed(names[1..])
  {}

  lemma SlashedStarts(names: seq<str>)
    ensures Slashed(names) == [] <==> names == []
    ensures names != [] ==> Slashed(names)[0] == SLASH
  {}

  /** A valid path has the place of its components. */
  lemma ComponentsOfValid(path: str)
    requires IsValid(path)
    ensures Components(path) == Some(Split(path))
  {
    if path != ROOT {
      SplitOfValid(path, 1);
    }
  }

  lemma {:induction false} SplitOfValid(path: str, start: nat)
    requires start <= |path| && ValidFrom(path, start)
    ensures ComponentsFrom(path, start) == Some(SplitFrom(path, start))
    decreases |path| - start
  {
    hide NextSlash, ComponentsFrom;
    var e := NextSlash(path, start);
    assert path[start..e] != [];
    NextSlashOf(path, start, e);
    if e < |path| {
      SplitOfValid(path, e + 1);
    } else {
      assert path[start..e] == path[start..];
      assert [path[start..e]] + [] == [path[start..e]];
    }
  }

  /** Valid paths, spelled out: the root, or names one after another, each behind a slash, none of them
      empty, "." or "..", and none containing a slash or the byte 0. */
  lemma ValidPathIff(path: str, names: seq<str>)
    ensures IsValid(path) && Split(path) == names <==>
              && path == (if names == [] then [0x2F] else Slashed(names))
              && forall i :: 0 <= i < |names| ==>
                   names[i] != [] && names[i] != [0x2E] && names[i] != [0x2E, 0x2E] && 0x2F !in names[i] && 0 !in names[i]
  {
    hide NextSlash, Slashed, ComponentsFrom, ValidFrom, SplitFrom;
    if IsValid(path) && Split(path) == names {
      ComponentsOfValid(path);
      ComponentsIff(path, names);
      SplitNames(path);
      if path == Slashed(names) + [SLASH] && path != ROOT {
        TrailingSlashIsInvalid(path, 1);
        assert false;
      }
      RootHasNoNames(path);
    }
    if path == (if names == [] then [0x2F] else Slashed(names)) && (forall i :: 0 <= i < |names| ==> ValidName(names[i])) {
      if names == [] {
        RootHasNoNames(path);
      } else {
        assert path[0..] == path;
        SlashedStarts(names);
        SlashedCons(names);
        SpelledIsValid(path, 1, names);
      }
    }
  }

  lemma RootHasNoNames(path: str)
    ensures IsValid(ROOT) && Split(ROOT) == []
    ensures Slashed([]) == []
  {}

  lemma {:induction false} SpelledIsValid(path: str, start: nat, names: seq<str>)
    requires 0 < start <= |path| && names != [] && path[start - 1..] == Slashed(names)
    requires forall i :: 0 <= i < |names| ==> ValidName(names[i])
    ensures ValidFrom(path, start) && SplitFrom(path, start) == names
    decreases |names|
  {
    hide NextSlash, Slashed, Spells, ValidFrom, SplitFrom, ValidName;
    PlainAndSpelled(path[start - 1..], names);
    FirstSpelled(path, start, names);
    SlashedCons(names);
    var e := start + |names[0]|;
    FirstOfPath(path, start);
    assert names == [names[0]] + names[1..];
    assert path[start - 1..][1 + |names[0]|..] == path[e..];
    SlashedStarts(names[1..]);
    if e < |path| {
      SpelledIsValid(path, e + 1, names[1..]);
    }
  }

  lemma FirstOfPath(path: str, start: nat)
    requires start < |path|
    ensures var e := NextSlash(path, start);
            && (ValidFrom(path, start) <==> ValidName(path[start..e]) && (e < |path| ==> ValidFrom(path, e + 1)))
            && SplitFrom(path, start) == [path[start..e]] + if e == |path| then [] else SplitFrom(path, e + 1)
  {
    hide NextSlash, ValidName;
    assert path[start..|path|] == path[start..];
  }

  lemma PlainAndSpelled(s: str, names: seq<str>)
    requires names != [] && s == Slashed(names) && forall i :: 0 <= i < |names| ==> ValidName(names[i])
    ensures Plain(names) && Spells(s, names)
  {
    hide Slashed;
  }
}
