/** Sorting by a strict order, and the order of names. The program's sorted() is modelled by an insertion sort. */
module Sorting {

  ghost predicate StrictTotal<T(!new)>(less: (T, T) -> bool) {
    && (forall x :: !less(x, x))
    && (forall x, y, z :: less(x, y) && less(y, z) ==> less(x, z))
    && (forall x, y :: x != y ==> less(x, y) || less(y, x))
  }

  /** Nothing later is less. */
  ghost predicate Ordered<T>(less: (T, T) -> bool, s: seq<T>) {
    forall i, j :: 0 <= i < j < |s| ==> !less(s[j], s[i])
  }

  ghost predicate Increasing<T>(less: (T, T) -> bool, s: seq<T>) {
    forall i, j :: 0 <= i < j < |s| ==> less(s[i], s[j])
  }

  /** A strict weak order: what a sort by a key is. */
  ghost predicate StrictWeak<T(!new)>(less: (T, T) -> bool) {
    && (forall x, y :: less(x, y) ==> !less(y, x))
    && (forall x, y, z {:trigger less(x, y), less(z, y)} {:trigger less(x, y), less(x, z)} ::
          less(x, y) ==> less(x, z) || less(z, y))
  }

  lemma TotalIsWeak<T(!new)>(less: (T, T) -> bool)
    requires StrictTotal(less)
    ensures StrictWeak(less)
  {
    forall x, y, z | less(x, y)
      ensures less(x, z) || less(z, y)
    {
      assert x == z || less(x, z) || less(z, x);
    }
  }

  function Insert<T>(less: (T, T) -> bool, x: T, s: seq<T>): seq<T> {
    if s == [] || less(x, s[0]) then [x] + s else [s[0]] + Insert(less, x, s[1..])
  }

  /** Stable: equal elements keep their order. */
  function Sort<T>(less: (T, T) -> bool, s: seq<T>): seq<T> {
    if s == [] then [] else Insert(less, s[|s| - 1], Sort(less, s[..|s| - 1]))
  }

  lemma StillAfter<T(!new)>(less: (T, T) -> bool, x: T, y: T, z: T)
    requires StrictWeak(less) && less(x, y) && !less(z, y)
    ensures !less(z, x)
  {
  }

  lemma {:induction false} InsertKeeps<T>(less: (T, T) -> bool, x: T, s: seq<T>)
    ensures multiset(Insert(less, x, s)) == multiset(s) + multiset{x}
  {
    if s != [] && !less(x, s[0]) {
      InsertKeeps(less, x, s[1..]);
      assert s == [s[0]] + s[1..];
    }
  }

  lemma {:induction false} InsertOrdered<T(!new)>(less: (T, T) -> bool, x: T, s: seq<T>)
    requires StrictWeak(less) && Ordered(less, s)
    ensures Ordered(less, Insert(less, x, s))
  {
    var r := Insert(less, x, s);
    if s == [] {
    } else if less(x, s[0]) {
      assert r == [x] + s;
      forall j | 0 < j < |r|
        ensures !less(r[j], x)
      {
        assert r[j] == s[j - 1];
        StillAfter(less, x, s[0], r[j]);
      }
    } else {
      var t := s[1..];
      InsertOrdered(less, x, t);
      InsertKeeps(less, x, t);
      hide StrictWeak;
      forall j | 0 < j < |r|
        ensures !less(r[j], s[0])
      {
        assert r[j] in multiset(Insert(less, x, t));
        assert r[j] == x || r[j] in t;
      }
    }
  }

  lemma NothingSorted<T(!new)>(less: (T, T) -> bool)
    ensures Sort(less, []) == [] && Ordered(less, [])
  {
  }

  lemma {:induction false} SortOrdered<T(!new)>(less: (T, T) -> bool, s: seq<T>)
    requires StrictWeak(less)
    ensures Ordered(less, Sort(less, s)) && multiset(Sort(less, s)) == multiset(s) && |Sort(less, s)| == |s|
  {
    hide Ordered, StrictWeak, Insert;
    if s == [] {
      NothingSorted(less);
    } else {
      var init, last := s[..|s| - 1], s[|s| - 1];
      SortOrdered(less, init);
      InsertOrdered(less, last, Sort(less, init));
      InsertKeeps(less, last, Sort(less, init));
      assert s == init + [last];
      assert Sort(less, s) == Insert(less, last, Sort(less, init));
      assert |Sort(less, s)| == |multiset(Sort(less, s))| == |multiset(s)|;
    }
  }

  lemma SortMembers<T(!new)>(less: (T, T) -> bool, s: seq<T>)
    requires StrictWeak(less)
    ensures forall x :: x in Sort(less, s) <==> x in s
  {
    SortOrdered(less, s);
    assert forall x :: x in s <==> x in multiset(s);
    assert forall x :: x in Sort(less, s) <==> x in multiset(Sort(less, s));
  }

  ghost predicate Distinct<T>(s: seq<T>) {
    forall i, j :: 0 <= i < j < |s| ==> s[i] != s[j]
  }

  /** An increasing sequence is determined by its elements: sorting a set of records does not depend on their order. */
  lemma {:induction false} IncreasingUnique<T(!new)>(less: (T, T) -> bool, s: seq<T>, t: seq<T>)
    requires StrictWeak(less) && Increasing(less, s) && Increasing(less, t)
    requires forall x :: x in s <==> x in t
    ensures s == t
  {
    assert t != [] ==> t[0] in t;
    if s != [] {
      assert s[0] in t;
      assert t[0] in s;
      assert s[0] == t[0];
      assert forall x :: x in s[1..] ==> less(s[0], x);
      assert forall x :: x in t[1..] ==> less(t[0], x);
      forall x
        ensures x in s[1..] <==> x in t[1..]
      {
        assert x in s <==> x == s[0] || x in s[1..];
        assert x in t <==> x == t[0] || x in t[1..];
      }
      IncreasingUnique(less, s[1..], t[1..]);
    }
  }

  /** A duplicate-free listing, sorted, is increasing. */
  lemma DistinctSorted<T(!new)>(less: (T, T) -> bool, s: seq<T>)
    requires StrictTotal(less) && Distinct(s)
    ensures Increasing(less, Sort(less, s))
  {
    TotalIsWeak(less);
    SortOrdered(less, s);
    var r := Sort(less, s);
    forall i, j | 0 <= i < j < |r|
      ensures less(r[i], r[j])
    {
      if r[i] == r[j] {
        TwiceIn(r, i, j);
        OnceIn(s, r[i]);
        assert false;
      }
    }
  }

  lemma TwiceIn<T>(s: seq<T>, i: nat, j: nat)
    requires i < j < |s| && s[i] == s[j]
    ensures multiset(s)[s[i]] >= 2
  {
    assert s == s[..j] + [s[j]] + s[j + 1..];
    assert s[i] in s[..j];
  }

  lemma {:induction false} OnceIn<T>(s: seq<T>, x: T)
    requires Distinct(s)
    ensures multiset(s)[x] <= 1
  {
    if s != [] {
      var t := s[..|s| - 1];
      OnceIn(t, x);
      assert s == t + [s[|s| - 1]];
      if x == s[|s| - 1] {
        assert x !in t;
        assert multiset(t)[x] == 0;
      }
    }
  }

  /** The first of each name, in order. */
  function Dedup(s: seq<string>): (r: seq<string>)
    ensures Distinct(r) && (forall x :: x in r <==> x in s)
  {
    if s == [] then []
    else
      assert s == s[..|s| - 1] + [s[|s| - 1]];
      var d := Dedup(s[..|s| - 1]);
      if s[|s| - 1] in d then d else d + [s[|s| - 1]]
  }

  /** sorted() of a set. */
  method SortSet<T(!new, ==)>(less: (T, T) -> bool, S: set<T>) returns (r: seq<T>)
    requires StrictTotal(less)
    ensures Increasing(less, r) && forall x :: x in r <==> x in S
  {
    var rest, listed := S, [];
    while rest != {}
      invariant rest <= S && Distinct(listed)
      invariant forall x :: x in listed <==> x in S && x !in rest
      decreases rest
    {
      var x :| x in rest;
      rest, listed := rest - {x}, listed + [x];
    }
    TotalIsWeak(less);
    DistinctSorted(less, listed);
    SortMembers(less, listed);
    r := Sort(less, listed);
  }

  // ---- Names are compared character by character -----------------------------------------------------------------

  predicate NameLess(a: string, b: string) {
    if b == "" then false
    else if a == "" then true
    else if a[0] != b[0] then a[0] < b[0]
    else NameLess(a[1..], b[1..])
  }

  lemma {:induction false} NameTrans(a: string, b: string, c: string)
    requires NameLess(a, b) && NameLess(b, c)
    ensures NameLess(a, c)
  {
    if a != "" && a[0] == b[0] == c[0] {
      NameTrans(a[1..], b[1..], c[1..]);
    }
  }

  lemma {:induction false} NameTotal(a: string, b: string)
    ensures a == b || NameLess(a, b) || NameLess(b, a)
  {
    if a != "" && b != "" && a[0] == b[0] {
      NameTotal(a[1..], b[1..]);
      assert a == [a[0]] + a[1..] && b == [b[0]] + b[1..];
    }
  }

  lemma {:induction a} NameIrreflexive(a: string)
    ensures !NameLess(a, a)
  {
  }

  lemma NamesStrictTotal()
    ensures StrictTotal(NameLess)
  {
    forall a
      ensures !NameLess(a, a)
    {
      NameIrreflexive(a);
    }
    forall a, b | a != b
      ensures NameLess(a, b) || NameLess(b, a)
    {
      NameTotal(a, b);
    }
    forall a, b, c | NameLess(a, b) && NameLess(b, c)
      ensures NameLess(a, c)
    {
      NameTrans(a, b, c);
    }
  }
}
