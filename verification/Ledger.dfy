/**
 Who owns which part of the file, over the whole database: every byte of the space in use
 belongs to exactly one of the header, the directory, a bucket, a record, a spilled free
 table, a free table's entry, or the bytes given up as slivers or forgotten by a pop.
 */
module Ledger {
  import opened Space
  import opened Content

  datatype Region = Region(adr: nat, len: nat)

  /** Everything that is supposed to own space.  `olds` are directories replaced during a
      split and not released yet. */
  datatype Books = Books(dir: Region, olds: map<nat, Region>, buckets: set<nat>, recs: map<Key, Region>, size: nat)

  ghost predicate Within(x: nat, r: Region) {
    r.adr <= x < r.adr + r.len
  }

  ghost predicate Given(own: seq<Owner>, r: Region, o: Owner) {
    Painted(own, r.adr, r.len, o)
  }

  /** Every owner has its region... */
  ghost predicate Granted(own: seq<Owner>, b: Books) {
    && Given(own, b.dir, Directory)
    && (forall i :: i in b.olds ==> Given(own, b.olds[i], OldDirectory(i)))
    && (forall a :: a in b.buckets ==> Given(own, Region(a, b.size), BucketAt(a)))
    && (forall k :: k in b.recs ==> Given(own, b.recs[k], Record(k)))
  }

  /** ...and nothing else: byte `x` may have owner `o`. */
  ghost predicate Rightful(x: nat, o: Owner, b: Books, spare: Region) {
    match o
    case FileHeader => x < b.size
    case Directory => Within(x, b.dir)
    case OldDirectory(i) => i in b.olds && Within(x, b.olds[i])
    case BucketAt(a) => a in b.buckets && Within(x, Region(a, b.size))
    case Record(k) => k in b.recs && Within(x, b.recs[k])
    case Reserved => Within(x, spare)
    case Unstacked => false
    case Free(BucketTable(a)) => a in b.buckets
    case _ => true
  }

  /** The books are right; `spare` has been handed out but not put to use. */
  ghost predicate Balanced(own: seq<Owner>, b: Books, spare: Region) {
    && Granted(own, b) && Given(own, spare, Reserved)
    && forall x :: 0 <= x < |own| ==> Rightful(x, own[x], b, spare)
  }

  const NOTHING := Region(0, 0)

  /** Repainting one owner's region leaves every other owner's region alone. */
  lemma ElsewhereKept(own: seq<Owner>, r: Region, from: Owner, to: Owner, own': seq<Owner>)
    requires Given(own, r, from) && own' == Paint(own, r.adr, r.len, to)
    ensures Given(own', r, to)
    ensures forall r2, o :: o != from && Given(own, r2, o) ==> Given(own', r2, o)
  {
    forall r2, o | o != from && Given(own, r2, o)
      ensures Given(own', r2, o)
    {
      forall x | r2.adr <= x < r2.adr + r2.len
        ensures own'[x] == o
      {
        assert own[x] == o;
      }
    }
  }

  /** An allocation: the books stay right, with the new region to spare. */
  lemma Allocated(own: seq<Owner>, own': seq<Owner>, b: Books, r: Region, cur: nat)
    requires Balanced(own, b, NOTHING) && cur in b.buckets && Given(own', r, Reserved) && Settled(own')
    requires Frame(own, Paint(own', r.adr, r.len, Sliver), cur)
    ensures Balanced(own', b, r)
  {
    forall x | 0 <= x < |own'|
      ensures Rightful(x, own'[x], b, r)
    {
      assert own'[x] != Unstacked;
      if !Within(x, r) {
        assert Paint(own', r.adr, r.len, Sliver)[x] == own'[x];
      }
    }
    forall x | 0 <= x < |own| && Pinned(own[x], cur)
      ensures own'[x] == own[x]
    {
      assert Paint(own', r.adr, r.len, Sliver)[x] == own[x];
    }
  }

  /** A release: the spare region goes back to the allocator. */
  lemma Released(own: seq<Owner>, own': seq<Owner>, b: Books, r: Region, cur: nat)
    requires Balanced(own, b, r) && cur in b.buckets && Settled(own')
    requires Frame(Paint(own, r.adr, r.len, Sliver), own', cur)
    ensures Balanced(own', b, NOTHING)
  {
    var own1 := Paint(own, r.adr, r.len, Sliver);
    forall x | 0 <= x < |own'|
      ensures Rightful(x, own'[x], b, NOTHING)
    {
      assert own'[x] != Unstacked;
      if x < |own| && Pinned(own1[x], cur) {
        assert own'[x] == own[x] && Rightful(x, own[x], b, r);
      }
    }
    forall x | 0 <= x < |own| && Pinned(own[x], cur) && own[x] != Reserved
      ensures own'[x] == own[x]
    {
      assert own1[x] == own[x];
    }
  }

  /** The spare region becomes a bucket. */
  lemma BucketGranted(own: seq<Owner>, b: Books, adr: nat)
    requires Balanced(own, b, Region(adr, b.size)) && b.size > 0
    ensures adr !in b.buckets
    ensures Balanced(Paint(own, adr, b.size, BucketAt(adr)), b.(buckets := b.buckets + {adr}), NOTHING)
  {
    assert own[adr] == Reserved;
    assert adr in b.buckets ==> Given(own, Region(adr, b.size), BucketAt(adr));
    var own', b', r := Paint(own, adr, b.size, BucketAt(adr)), b.(buckets := b.buckets + {adr}), Region(adr, b.size);
    ElsewhereKept(own, r, Reserved, BucketAt(adr), own');
    assert Given(own', NOTHING, Reserved);
    hide Given;
    forall a | a in b'.buckets
      ensures Given(own', Region(a, b.size), BucketAt(a))
    {
      assert a != adr ==> Given(own, Region(a, b.size), BucketAt(a));
    }
    forall x | 0 <= x < |own'|
      ensures Rightful(x, own'[x], b', NOTHING)
    {
      assert Rightful(x, own[x], b, r);
    }
  }

  /** The spare region becomes a record. */
  lemma RecordGranted(own: seq<Owner>, b: Books, r: Region, k: Key)
    requires Balanced(own, b, r) && k !in b.recs
    ensures Balanced(Paint(own, r.adr, r.len, Record(k)), b.(recs := b.recs[k := r]), NOTHING)
  {
    var own', b' := Paint(own, r.adr, r.len, Record(k)), b.(recs := b.recs[k := r]);
    ElsewhereKept(own, r, Reserved, Record(k), own');
    assert Given(own', NOTHING, Reserved);
    hide Given;
    forall l | l in b'.recs
      ensures Given(own', b'.recs[l], Record(l))
    {
      assert l != k ==> Given(own, b.recs[l], Record(l));
    }
    forall x | 0 <= x < |own'|
      ensures Rightful(x, own'[x], b', NOTHING)
    {
      assert Rightful(x, own[x], b, r);
    }
  }

  /** A record gives its region back. */
  lemma RecordReturned(own: seq<Owner>, b: Books, k: Key)
    requires Balanced(own, b, NOTHING) && k in b.recs
    ensures var r := b.recs[k];
            Balanced(Paint(own, r.adr, r.len, Reserved), b.(recs := b.recs - {k}), r)
  {
    var r := b.recs[k];
    var own' := Paint(own, r.adr, r.len, Reserved);
    ElsewhereKept(own, r, Record(k), Reserved, own');
    hide Given;
    forall x | 0 <= x < |own'|
      ensures Rightful(x, own'[x], b.(recs := b.recs - {k}), r)
    {
      assert Rightful(x, own[x], b, NOTHING);
    }
  }

  /** The spare region becomes the directory; the old one, number `n`, awaits its release. */
  lemma DirectoryMoved(own: seq<Owner>, b: Books, r: Region, n: nat)
    requires Balanced(own, b, r) && n !in b.olds
    ensures var own1 := Paint(own, b.dir.adr, b.dir.len, OldDirectory(n));
            Balanced(Paint(own1, r.adr, r.len, Directory), b.(dir := r, olds := b.olds[n := b.dir]), NOTHING)
  {
    var b' := b.(dir := r, olds := b.olds[n := b.dir]);
    var own1 := Paint(own, b.dir.adr, b.dir.len, OldDirectory(n));
    var own' := Paint(own1, r.adr, r.len, Directory);
    ElsewhereKept(own, b.dir, Directory, OldDirectory(n), own1);
    ElsewhereKept(own1, r, Reserved, Directory, own');
    hide Given;
    forall x | 0 <= x < |own'|
      ensures Rightful(x, own'[x], b', NOTHING)
    {
      assert Rightful(x, own[x], b, r);
    }
  }

  /** Old directory `n` is about to be released. */
  lemma DirectoryReturned(own: seq<Owner>, b: Books, n: nat)
    requires Balanced(own, b, NOTHING) && n in b.olds
    ensures var r := b.olds[n];
            Balanced(Paint(own, r.adr, r.len, Reserved), b.(olds := b.olds - {n}), r)
  {
    var r, b' := b.olds[n], b.(olds := b.olds - {n});
    var own' := Paint(own, r.adr, r.len, Reserved);
    ElsewhereKept(own, r, OldDirectory(n), Reserved, own');
    hide Given;
    forall x | 0 <= x < |own'|
      ensures Rightful(x, own'[x], b', r)
    {
      assert Rightful(x, own[x], b, NOTHING);
    }
  }
}
