// Sorting with a comparison function, and the orders that are sorted by.

module Sorting {
  import opened Bytes

  ghost predicate TotalPreorder<T(!new)>(le: (T, T) -> bool) {
    && (forall x, y :: le(x, y) || le(y, x))
    && (forall x, y, z :: le(x, y) && le(y, z) ==> le(x, z))
  }

  ghost predicate Sorted<T>(s: seq<T>, le: (T, T) -> bool) {
    forall i, j :: 0 <= i < j < |s| ==> le(s[i], s[j])
  }

  /** A sorted rearrangement of s (std::sort promises no more). */
  method Sort<T(!new)>(s: seq<T>, le: (T, T) -> bool) returns (r: seq<T>)
    requires TotalPreorder(le)
    ensures multiset(r) == multiset(s)
    ensures Sorted(r, le)
  {
    hide Inserted;
    r := [];
    for i := 0 to |s|
      invariant multiset(r) == multiset(s[..i])
      invariant Sorted(r, le)
    {
      var k := |r|;
      while k > 0 && !le(r[k - 1], s[i])
        invariant 0 <= k <= |r|
        invariant forall j :: k <= j < |r| ==> le(s[i], r[j])
      {
        k := k - 1;
      }
      assert s[..i + 1] == s[..i] + [s[i]];
      InsertKeepsSorted(r, le, k, s[i]);
      InsertAddsOne(r, k, s[i]);
      r := Inserted(r, k, s[i]);
    }
    assert s[..|s|] == s;
  }

  function Inserted<T>(s: seq<T>, k: nat, x: T): seq<T>
    requires k <= |s|
  {
    s[..k] + [x] + s[k..]
  }

  lemma InsertAddsOne<T>(s: seq<T>, k: nat, x: T)
    requires k <= |s|
    ensures multiset(Inserted(s, k, x)) == multiset(s) + multiset{x}
  {
    assert s == s[..k] + s[k..];
  }

  lemma InsertKeepsSorted<T(!new)>(s: seq<T>, le: (T, T) -> bool, k: nat, x: T)
    requires TotalPreorder(le) && Sorted(s, le) && k <= |s|
    requires k > 0 ==> le(s[k - 1], x)
    requires forall j :: k <= j < |s| ==> le(x, s[j])
    ensures Sorted(Inserted(s, k, x), le)
  {
    var r := Inserted(s, k, x);
    forall i, j | 0 <= i < j < |r|
      ensures le(r[i], r[j])
    {
      if i < k {
        assert i < k - 1 ==> le(s[i], s[k - 1]);
      }
      assert j < k ==> r[j] == s[j];
      assert j > k ==> r[j] == s[j - 1];
    }
  }

  /** Byte-string order, as std::string's operator<. */
  predicate Before(a: str, b: str) {
    b != [] && (a == [] || a[0] < b[0] || (a[0] == b[0] && Before(a[1..], b[1..])))
  }

  predicate NotAfter(a: str, b: str) {
    !Before(b, a)
  }

  lemma {:induction false} BeforeTotal(a: str, b: str)
    ensures Before(a, b) || Before(b, a) || a == b
    ensures !(Before(a, b) && Before(b, a))
  {
    if a != [] && b != [] && a[0] == b[0] {
      BeforeTotal(a[1..], b[1..]);
      if a[1..] == b[1..] {
        assert a == [a[0]] + a[1..] && b == [b[0]] + b[1..];
      }
    }
  }

  lemma {:induction false} BeforeTransitive(a: str, b: str, c: str)
    requires Before(a, b) && Before(b, c)
    ensures Before(a, c)
  {
    if a != [] && a[0] == b[0] && b[0] == c[0] {
      BeforeTransitive(a[1..], b[1..], c[1..]);
    }
  }

  lemma NotAfterIsOrder()
    ensures TotalPreorder(NotAfter)
  {
    forall a, b
      ensures NotAfter(a, b) || NotAfter(b, a)
    {
      BeforeTotal(a, b);
    }
    forall a, b, c | NotAfter(a, b) && NotAfter(b, c)
      ensures NotAfter(a, c)
    {
      BeforeTotal(a, b);
      BeforeTotal(b, c);
      if Before(c, a) {
        if a == b || b == c {
        } else {
          BeforeTransitive(a, b, c);
          BeforeTotal(a, c);
        }
      }
    }
  }
}
