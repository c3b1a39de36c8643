/**
 The order in which a database is walked (src/gdbmseq.c, src/gdbmcount.c, and the directory
 step of src/recover.c): bucket after bucket as the directory has them, slot after slot inside
 a bucket.
 */
module Traversal {
  import opened Bits
  import opened Layout
  import opened Sequences
  import opened HashTable
  import opened Directory
  import opened Content

  // ----- the runs of a directory -----

  /** The first directory index after `i` with another bucket. */
  function RunEnd(dir: seq<nat>, i: nat): (j: nat)
    requires i < |dir|
    ensures i < j <= |dir| && forall k :: i <= k < j ==> dir[k] == dir[i]
    ensures j < |dir| ==> dir[j] != dir[i]
    decreases |dir| - i
  {
    if i + 1 < |dir| && dir[i + 1] == dir[i] then RunEnd(dir, i + 1) else i + 1
  }

  /** _gdbm_next_bucket_dir */
  method NextBucketDir(dir: seq<nat>, i: nat) returns (j: nat)
    requires i < |dir|
    ensures j == RunEnd(dir, i)
  {
    var cur := dir[i];
    j := i + 1;
    while j < |dir| && cur == dir[j]
      invariant i < j <= |dir| && forall k :: i <= k < j ==> dir[k] == cur
    {
      j := j + 1;
    }
    RunEndUnique(dir, i, j);
  }

  lemma {:induction false} RunEndUnique(dir: seq<nat>, i: nat, j: nat)
    requires i < j <= |dir| && (forall k :: i <= k < j ==> dir[k] == dir[i]) && (j < |dir| ==> dir[j] != dir[i])
    ensures RunEnd(dir, i) == j
    decreases j - i
  {
    if i + 1 < j {
      RunEndUnique(dir, i + 1, j);
    }
  }

  /** Once past its run, a bucket does not come back. */
  lemma RunsContiguous(dir: seq<nat>, dirBits: nat, depth: map<nat, nat>, i: nat, k: nat, j: nat)
    requires DirOk(dir, dirBits, depth) && i <= k <= j < |dir| && dir[i] == dir[j]
    ensures dir[k] == dir[i]
  {
    hide Pow2, Shr;
    assert SharedRun(dir, dirBits, depth, i, j) && SharedRun(dir, dirBits, depth, i, k);
    var d := dirBits - depth[dir[i]];
    ShrMonotonic(i, k, d);
    ShrMonotonic(k, j, d);
  }

  lemma ShrMonotonic(x: nat, y: nat, n: nat)
    requires x <= y
    ensures Shr(x, n) <= Shr(y, n)
  {
    ShrInterval(x, n, Shr(x, n));
    ShrInterval(y, n, Shr(y, n));
    if Shr(y, n) < Shr(x, n) {
      MulMonotonic(Shr(y, n) + 1, Shr(x, n), Pow2(n));
    }
  }

  lemma BeyondRun(dir: seq<nat>, dirBits: nat, depth: map<nat, nat>, i: nat, j: nat)
    requires DirOk(dir, dirBits, depth) && i < |dir| && RunEnd(dir, i) <= j < |dir|
    ensures dir[j] != dir[i]
  {
    if dir[j] == dir[i] {
      RunsContiguous(dir, dirBits, depth, i, RunEnd(dir, i), j);
    }
  }

  // ----- the slots in order -----

  /** The elements of a table from index `e` on. */
  ghost function Taken(t: seq<Slot>, e: nat): (r: seq<Slot>)
    decreases |t| - e
  {
    if e >= |t| then [] else (if t[e].Elem? then [t[e]] else []) + Taken(t, e + 1)
  }

  ghost function TableOf(s: Catalog, i: nat): seq<Slot> {
    if i < |s.dir| && s.dir[i] in s.buckets then s.buckets[s.dir[i]].table else []
  }

  /** The elements of all buckets from directory index `i` on. */
  ghost function SlotsFrom(s: Catalog, i: nat): seq<Slot>
    decreases |s.dir| - i
  {
    if i >= |s.dir| then [] else Taken(TableOf(s, i), 0) + SlotsFrom(s, RunEnd(s.dir, i))
  }

  lemma {:induction false} TakenElems(t: seq<Slot>, e: nat)
    ensures forall x :: x in Taken(t, e) <==> exists i :: e <= i < |t| && t[i] == x && x.Elem?
    decreases |t| - e
  {
    if e < |t| {
      TakenElems(t, e + 1);
      var r := Taken(t, e + 1);
      assert Taken(t, e) == (if t[e].Elem? then [t[e]] else []) + r;
    }
  }

  lemma {:induction false} TakenDistinct(t: seq<Slot>, e: nat)
    requires forall i, j :: 0 <= i < j < |t| && t[i].Elem? ==> t[i] != t[j]
    ensures Distinct(Taken(t, e))
    decreases |t| - e
  {
    if e < |t| {
      TakenDistinct(t, e + 1);
      TakenElems(t, e + 1);
    }
  }

  lemma {:induction false} TakenCount(t: seq<Slot>, e: nat)
    requires e <= |t|
    ensures |Taken(t, e)| == Occupied(t[e..])
    decreases |t| - e
  {
    if e < |t| {
      TakenCount(t, e + 1);
      assert t[e..] == [t[e]] + t[e + 1..];
    } else {
      assert t[e..] == [];
    }
  }

  lemma NoRepeats(b: Bucket, n: nat)
    requires BucketOk(b, n)
    ensures forall i, j :: 0 <= i < j < |b.table| && b.table[i].Elem? ==> b.table[i] != b.table[j]
  {
    hide Probeable;
    var t := b.table;
    forall i, j | 0 <= i < j < |t| && t[i].Elem?
      ensures t[i] != t[j]
    {
      var m := multiset(t);
      assert t == t[..j] + [t[j]] + t[j + 1..];
      assert m == multiset(t[..j]) + multiset{t[j]} + multiset(t[j + 1..]);
      assert t[i] in t[..j];
      assert multiset(t[..j])[t[i]] > 0;
      assert m[t[i]] == 1;
    }
  }

  /** The elements from index `i` on are those of the buckets found there, each once. */
  lemma {:induction false} SlotsFromElems(s: Catalog, n: nat, i: nat)
    requires s.Ok(n)
    ensures forall x :: x in SlotsFrom(s, i) <==> exists j :: i <= j < |s.dir| && x in TableOf(s, j) && x.Elem?
    ensures Distinct(SlotsFrom(s, i))
    decreases |s.dir| - i
  {
    if i < |s.dir| {
      hide Distinct, Catalog.Ok;
      var j := RunEnd(s.dir, i);
      SlotsFromElems(s, n, j);
      BucketRun(s, n, i);
      RunDisjoint(s, n, i);
      DistinctConcat(Taken(TableOf(s, i), 0), SlotsFrom(s, j));
      forall x
        ensures x in SlotsFrom(s, i) <==> exists k :: i <= k < |s.dir| && x in TableOf(s, k) && x.Elem?
      {
        RunMembers(s, i, j, x);
      }
    }
  }

  lemma BucketRun(s: Catalog, n: nat, i: nat)
    requires s.Ok(n) && i < |s.dir|
    ensures Distinct(Taken(TableOf(s, i), 0)) && s.dir[i] in s.buckets
  {
    hide Pow2, Hash, LookUp, Shr, Probeable, SharedRun, Distinct;
    assert s.dir[i] in s.dir;
    assert BucketOk(s.buckets[s.dir[i]], n);
    NoRepeats(s.buckets[s.dir[i]], n);
    TakenDistinct(TableOf(s, i), 0);
  }

  lemma RunDisjoint(s: Catalog, n: nat, i: nat)
    requires s.Ok(n) && i < |s.dir|
    requires forall x :: x in SlotsFrom(s, RunEnd(s.dir, i)) ==>
              exists j :: RunEnd(s.dir, i) <= j < |s.dir| && x in TableOf(s, j) && x.Elem?
    ensures forall x :: x in SlotsFrom(s, RunEnd(s.dir, i)) ==> x !in Taken(TableOf(s, i), 0)
  {
    hide Pow2, Hash, LookUp, Shr, BucketOk, SharedRun;
    var j := RunEnd(s.dir, i);
    TakenElems(TableOf(s, i), 0);
    forall x | x in SlotsFrom(s, j)
      ensures x !in Taken(TableOf(s, i), 0)
    {
      var k :| j <= k < |s.dir| && x in TableOf(s, k) && x.Elem?;
      BeyondRun(s.dir, s.dirBits, Depths(s.buckets), i, k);
      assert s.SlotPlaced(s.dir[k], x);
      assert x in TableOf(s, i) ==> s.SlotPlaced(s.dir[i], x);
    }
  }

  lemma DistinctConcat<T>(a: seq<T>, b: seq<T>)
    requires Distinct(a) && Distinct(b) && forall x :: x in b ==> x !in a
    ensures Distinct(a + b)
  {
    var c := a + b;
    forall i, j | 0 <= i < j < |c|
      ensures c[i] != c[j]
    {
      assert i < |a| <= j ==> b[j - |a|] in b && a[i] in a;
    }
  }

  lemma RunMembers(s: Catalog, i: nat, j: nat, x: Slot)
    requires i < |s.dir| && j == RunEnd(s.dir, i)
    requires x in SlotsFrom(s, j) <==> exists k :: j <= k < |s.dir| && x in TableOf(s, k) && x.Elem?
    ensures x in SlotsFrom(s, i) <==> exists k :: i <= k < |s.dir| && x in TableOf(s, k) && x.Elem?
  {
    TakenElems(TableOf(s, i), 0);
    assert forall k :: i <= k < j ==> TableOf(s, k) == TableOf(s, i);
    assert SlotsFrom(s, i) == Taken(TableOf(s, i), 0) + SlotsFrom(s, j);
  }

  /** The whole walk meets every key's slot exactly once. */
  lemma WalkComplete(s: Catalog, n: nat)
    requires s.Ok(n)
    ensures Distinct(SlotsFrom(s, 0)) && (forall x :: x in SlotsFrom(s, 0) <==> x in s.loc.Values)
    ensures |SlotsFrom(s, 0)| == |s.data|
  {
    hide SlotsFrom, Catalog.Shaped, Catalog.KeyPlaced, Catalog.SlotPlaced, Distinct;
    SlotsFromElems(s, n, 0);
    forall x
      ensures x in SlotsFrom(s, 0) <==> x in s.loc.Values
    {
      SlotVisited(s, n, x);
    }
    DistinctSize(SlotsFrom(s, 0), s.loc.Values);
    SameSize(s.data.Keys, s.loc, s.loc.Values);
  }

  lemma SlotVisited(s: Catalog, n: nat, x: Slot)
    requires s.Ok(n) && (x in SlotsFrom(s, 0) <==> exists j :: 0 <= j < |s.dir| && x in TableOf(s, j) && x.Elem?)
    ensures x in SlotsFrom(s, 0) <==> x in s.loc.Values
  {
    hide Pow2, Hash, Shr, Probeable, SharedRun, Describes, BucketOk;
    if x in SlotsFrom(s, 0) {
      var j :| 0 <= j < |s.dir| && x in TableOf(s, j) && x.Elem?;
      assert s.SlotPlaced(s.dir[j], x);
    }
    if x in s.loc.Values {
      var k :| k in s.loc && s.loc[k] == x;
      assert s.KeyPlaced(k);
      HashBound(k);
      BucketExists(s, n, Hash(k));
      var j := BucketDir(Hash(k), s.dirBits);
      assert x in TableOf(s, j);
      DescribesElem(s, k);
    }
  }

  lemma DescribesElem(s: Catalog, k: Key)
    requires s.Filled() && k in s.data
    ensures s.loc[k].Elem?
  {
    hide Hash, LookUp;
    assert s.KeyPlaced(k);
  }

  lemma {:induction false} DistinctSize<T>(q: seq<T>, m: set<T>)
    requires Distinct(q) && forall x :: x in q <==> x in m
    ensures |q| == |m|
    decreases |q|
  {
    if |q| == 0 {
      assert m == {};
    } else {
      var x := q[0];
      forall y
        ensures y in q[1..] <==> y in m - {x}
      {
        assert y in q <==> y == x || y in q[1..];
      }
      DistinctSize(q[1..], m - {x});
    }
  }

  // ----- a place in the walk -----

  /** What is still to come after slot `e` of the bucket at directory index `i`. */
  ghost function Ahead(s: Catalog, i: nat, e: nat): seq<Slot> {
    if i < |s.dir| then Taken(TableOf(s, i), e) + SlotsFrom(s, RunEnd(s.dir, i)) else []
  }

  /** Every place is a suffix of the whole walk. */
  lemma {:induction false} SuffixFrom(s: Catalog, i: nat, k: nat, e: nat)
    requires i <= k < |s.dir|
    ensures exists p :: 0 <= p <= |SlotsFrom(s, i)| && SlotsFrom(s, i)[p..] == Ahead(s, k, e)
    decreases |s.dir| - i
  {
    var j := RunEnd(s.dir, i);
    var all := SlotsFrom(s, i);
    var head, tail := Taken(TableOf(s, i), 0), SlotsFrom(s, j);
    assert all == head + tail;
    if k < j {
      RunEndUnique(s.dir, k, j);
      assert Ahead(s, k, e) == Taken(TableOf(s, i), e) + tail;
      hide Taken, SlotsFrom, RunEnd, Ahead;
      var p := TakenSuffix(TableOf(s, i), 0, e);
      TailOfConcat(head, tail, p);
    } else {
      SuffixFrom(s, j, k, e);
      hide Taken, SlotsFrom, RunEnd, Ahead;
      var p :| 0 <= p <= |tail| && tail[p..] == Ahead(s, k, e);
      TailOfConcat(head, tail, |head| + p);
    }
  }

  lemma TailOfConcat(a: seq<Slot>, b: seq<Slot>, p: nat)
    requires p <= |a| + |b|
    ensures (a + b)[p..] == if p <= |a| then a[p..] + b else b[p - |a|..]
  {
  }

  lemma {:induction false} TakenSuffix(t: seq<Slot>, i: nat, e: nat) returns (p: nat)
    requires i <= e || e >= |t|
    ensures p <= |Taken(t, i)| && Taken(t, i)[p..] == Taken(t, e)
    decreases |t| - i
  {
    if i >= |t| || i == e {
      p := 0;
      assert Taken(t, i)[0..] == Taken(t, i);
    } else {
      p := TakenSuffix(t, i + 1, e);
      var r := Taken(t, i + 1);
      if t[i].Elem? {
        assert Taken(t, i) == [t[i]] + r;
        p := p + 1;
      } else {
        assert Taken(t, i) == [] + r;
      }
    }
  }
}
