/** Ordering helpers used to model the store's `sort` clauses: enumerating a
    finite set of identifiers in ascending order (the store's natural order)
    and a stable sort by a numeric key, newest first. */
module Sorting {

  /** `m` is the least element of `s`. */
  predicate IsLeast(m: nat, s: set<nat>) {
    m in s && forall j :: j in s ==> m <= j
  }

  /** Every finite, non-empty set of naturals has a least element. */
  lemma {:induction false} HasLeast(s: set<nat>)
    requires s != {}
    ensures exists m :: IsLeast(m, s)
  {
    var x :| x in s;
    if s == {x} {
      assert IsLeast(x, s);
    } else {
      var rest := s - {x};
      HasLeast(rest);
      var m :| IsLeast(m, rest);
      var least := if x < m then x else m;
      forall j | j in s
        ensures least <= j
      {
        if j != x {
          assert j in rest;
        }
      }
      assert IsLeast(least, s);
    }
  }

  /** The least element of a non-empty set. */
  function Least(s: set<nat>): (m: nat)
    requires s != {}
    ensures IsLeast(m, s)
  {
    HasLeast(s);
    var m :| IsLeast(m, s); m
  }

  /** The elements of `s` in strictly ascending order. */
  function Ascending(s: set<nat>): (r: seq<nat>)
    ensures forall i, j :: 0 <= i < j < |r| ==> r[i] < r[j]
    ensures forall x :: x in r <==> x in s
    decreases s
  {
    if s == {} then []
    else
      var m := Least(s);
      [m] + Ascending(s - {m})
  }

  /** No element occurs twice. */
  predicate Distinct<T(==)>(s: seq<T>) {
    forall i, j :: 0 <= i < j < |s| ==> s[i] != s[j]
  }

  /** Non-increasing by `key`: the store's `sort({ field: -1 })`. */
  predicate SortedDesc<T>(s: seq<T>, key: T -> int) {
    forall i, j :: 0 <= i < j < |s| ==> key(s[i]) >= key(s[j])
  }

  lemma TailFacts<T>(s: seq<T>, key: T -> int)
    requires |s| > 0
    ensures SortedDesc(s, key) ==> SortedDesc(s[1..], key)
    ensures SortedDesc(s, key) ==> forall k :: 0 <= k < |s| - 1 ==> key(s[1..][k]) <= key(s[0])
  {
    if SortedDesc(s, key) {
      forall i, j | 0 <= i < j < |s| - 1
        ensures key(s[1..][i]) >= key(s[1..][j])
      {
        assert s[1..][i] == s[i + 1] && s[1..][j] == s[j + 1];
      }
      forall k | 0 <= k < |s| - 1
        ensures key(s[1..][k]) <= key(s[0])
      {
        assert s[1..][k] == s[k + 1];
      }
    }
  }

  lemma TailDistinct<T>(s: seq<T>)
    requires |s| > 0 && Distinct(s)
    ensures Distinct(s[1..]) && s[0] !in s[1..]
  {
    forall i, j | 0 <= i < j < |s| - 1
      ensures s[1..][i] != s[1..][j]
    {
      assert s[1..][i] == s[i + 1] && s[1..][j] == s[j + 1];
    }
    forall k | 0 <= k < |s| - 1
      ensures s[1..][k] != s[0]
    {
      assert s[1..][k] == s[k + 1];
    }
  }

  lemma ConsFacts<T>(h: T, rest: seq<T>, key: T -> int)
    ensures SortedDesc(rest, key) && (forall k :: 0 <= k < |rest| ==> key(rest[k]) <= key(h))
            ==> SortedDesc([h] + rest, key)
    ensures Distinct(rest) && h !in rest ==> Distinct([h] + rest)
  {
    var r := [h] + rest;
    forall k | 0 < k < |r|
      ensures r[k] == rest[k - 1]
    {
    }
  }

  /** Inserts `x` in front of the first element whose key does not exceed
      its own, so that `x` precedes the elements it ties with. */
  function Insert<T(==,!new)>(x: T, s: seq<T>, key: T -> int): (r: seq<T>)
    requires SortedDesc(s, key)
    ensures SortedDesc(r, key)
    ensures multiset(r) == multiset(s) + multiset{x}
    ensures forall y :: y in r <==> y == x || y in s
    ensures Distinct(s) && x !in s ==> Distinct(r)
  {
    if s == [] || key(x) >= key(s[0]) then
      ConsFacts(x, s, key);
      [x] + s
    else
      var rest := Insert(x, s[1..], key);
      PrependHead(x, s, rest, key);
      [s[0]] + rest
  }

  /** Putting the head of `s` back in front of `x` inserted into the tail
      gives `x` inserted into `s`, when `x` goes behind the head. */
  lemma PrependHead<T>(x: T, s: seq<T>, rest: seq<T>, key: T -> int)
    requires |s| > 0 && SortedDesc(s, key) && key(x) < key(s[0])
    requires SortedDesc(rest, key)
    requires multiset(rest) == multiset(s[1..]) + multiset{x}
    requires forall y :: y in rest <==> y == x || y in s[1..]
    requires Distinct(s[1..]) && x !in s[1..] ==> Distinct(rest)
    ensures SortedDesc([s[0]] + rest, key)
    ensures multiset([s[0]] + rest) == multiset(s) + multiset{x}
    ensures forall y :: y in [s[0]] + rest <==> y == x || y in s
    ensures Distinct(s) && x !in s ==> Distinct([s[0]] + rest)
  {
    TailFacts(s, key);
    assert s == [s[0]] + s[1..];
    forall k | 0 <= k < |rest|
      ensures key(rest[k]) <= key(s[0])
    {
      assert rest[k] in rest;
    }
    if Distinct(s) && x !in s {
      TailDistinct(s);
    }
    ConsFacts(s[0], rest, key);
  }

  /** Stable insertion sort, largest key first: elements with equal keys keep
      their relative order. */
  function SortDesc<T(==,!new)>(s: seq<T>, key: T -> int): (r: seq<T>)
    ensures SortedDesc(r, key)
    ensures multiset(r) == multiset(s)
    ensures forall y :: y in r <==> y in s
    ensures Distinct(s) ==> Distinct(r)
  {
    if s == [] then []
    else
      assert s == [s[0]] + s[1..];
      Insert(s[0], SortDesc(s[1..], key), key)
  }
}
