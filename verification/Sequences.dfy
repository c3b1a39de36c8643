/** Sequences without repetition, as used for linked lists of cache elements. */
module Sequences {

  ghost predicate Distinct<T>(s: seq<T>) {
    forall i, j :: 0 <= i < j < |s| ==> s[i] != s[j]
  }

  function IndexOf<T(==)>(s: seq<T>, x: T): (i: nat)
    requires x in s
    ensures i < |s| && s[i] == x
  {
    if s[0] == x then 0 else 1 + IndexOf(s[1..], x)
  }

  function RemoveAt<T>(s: seq<T>, i: nat): (r: seq<T>)
    requires i < |s|
    ensures |r| == |s| - 1
    ensures forall k :: 0 <= k < |r| ==> r[k] == if k < i then s[k] else s[k + 1]
  {
    s[..i] + s[i + 1..]
  }

  /** Unlinking `x` from a list. */
  function Minus<T(==)>(s: seq<T>, x: T): (r: seq<T>) {
    if x in s then RemoveAt(s, IndexOf(s, x)) else s
  }

  lemma {:induction false} MinusDistinct<T>(s: seq<T>, x: T)
    requires Distinct(s)
    ensures Distinct(Minus(s, x))
    ensures forall y :: y in Minus(s, x) <==> y in s && y != x
    ensures |Minus(s, x)| == |s| - if x in s then 1 else 0
  {
    if x in s {
      var i := IndexOf(s, x);
      var r := RemoveAt(s, i);
      forall y | y in s && y != x
        ensures y in r
      {
        var k :| 0 <= k < |s| && s[k] == y;
        assert y == r[if k < i then k else k - 1];
      }
    }
  }

  /** Linking `x` at position `i`. */
  function InsertAt<T>(s: seq<T>, i: nat, x: T): (r: seq<T>)
    requires i <= |s|
    ensures |r| == |s| + 1
    ensures forall k :: 0 <= k < |r| ==> r[k] == if k < i then s[k] else if k == i then x else s[k - 1]
  {
    s[..i] + [x] + s[i..]
  }

  lemma {:induction false} InsertDistinct<T>(s: seq<T>, i: nat, x: T)
    requires Distinct(s) && x !in s && i <= |s|
    ensures Distinct(InsertAt(s, i, x))
    ensures forall y :: y in InsertAt(s, i, x) <==> y in s || y == x
  {
    var r := InsertAt(s, i, x);
    assert r[i] == x;
    forall y | y in s
      ensures y in r
    {
      var k :| 0 <= k < |s| && s[k] == y;
      assert y == r[if k < i then k else k + 1];
    }
  }

  /** `p` holds on a prefix. */
  ghost predicate PrefixOf<T>(s: seq<T>, p: set<T>) {
    forall i, j :: 0 <= i < j < |s| && s[j] in p ==> s[i] in p
  }

  lemma PrefixMinus<T>(s: seq<T>, p: set<T>, x: T)
    requires PrefixOf(s, p)
    ensures PrefixOf(Minus(s, x), p)
  {
  }

  lemma {:induction false} IndexUnique<T>(s: seq<T>, i: nat)
    requires Distinct(s) && i < |s|
    ensures IndexOf(s, s[i]) == i
  {
  }

  /** `r` is `s` with `z` unlinked: everything else stands in the same order. */
  ghost predicate Unlinked<T(!new)>(s: seq<T>, z: T, r: seq<T>) {
    && Distinct(r) && z in s && (forall x :: x in r <==> x in s && x != z)
    && (forall x :: x in s && x != z ==>
          IndexOf(r, x) == IndexOf(s, x) - if IndexOf(s, z) < IndexOf(s, x) then 1 else 0)
  }

  /** `r` is `s` with `z` linked at position `i`. */
  ghost predicate LinkedAt<T(!new)>(s: seq<T>, i: nat, z: T, r: seq<T>) {
    && Distinct(r) && (forall x :: x in r <==> x in s || x == z)
    && IndexOf(r, z) == i
    && (forall x :: x in s ==> IndexOf(r, x) == IndexOf(s, x) + if i <= IndexOf(s, x) then 1 else 0)
  }

  lemma {:induction false} MinusUnlinks<T(!new)>(s: seq<T>, z: T)
    requires Distinct(s) && z in s
    ensures Unlinked(s, z, Minus(s, z))
  {
    MinusDistinct(s, z);
    hide IndexOf;
    var r := Minus(s, z);
    forall x | x in s && x != z
      ensures IndexOf(r, x) == IndexOf(s, x) - if IndexOf(s, z) < IndexOf(s, x) then 1 else 0
    {
      var i := IndexOf(s, x);
      IndexUnique(r, if IndexOf(s, z) < i then i - 1 else i);
    }
  }

  lemma {:induction false} InsertLinks<T(!new)>(s: seq<T>, i: nat, z: T)
    requires Distinct(s) && z !in s && i <= |s|
    ensures LinkedAt(s, i, z, InsertAt(s, i, z))
  {
    InsertDistinct(s, i, z);
    hide IndexOf;
    var r := InsertAt(s, i, z);
    IndexUnique(r, i);
    forall x | x in s
      ensures IndexOf(r, x) == IndexOf(s, x) + if i <= IndexOf(s, x) then 1 else 0
    {
      var k := IndexOf(s, x);
      IndexUnique(r, if i <= k then k + 1 else k);
    }
  }

  lemma {:induction false} FrontLinks<T(!new)>(s: seq<T>)
    requires Distinct(s) && |s| > 0
    ensures LinkedAt(s[1..], 0, s[0], s)
  {
    InsertLinks(s[1..], 0, s[0]);
    assert InsertAt(s[1..], 0, s[0]) == s;
  }
}
