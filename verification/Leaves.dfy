/**
 The buckets of a directory as the leaves of a tree of hash prefixes.  A database that is only
 filled has no leaf it does not need: wherever it is split, a bucket could not hold the keys.  So
 it has no more buckets than any other database with the same keys and buckets no larger.
 */
module Leaves {
  import opened Bits
  import opened Layout
  import opened Directory
  import opened Content
  import opened Growth

  datatype Leaf = Leaf(depth: nat, prefix: nat)

  /** The two hashes agree on the first `d` bits. */
  predicate Alike(g: nat, h: nat, d: nat) {
    d <= HASH_BITS && Shr(g, HASH_BITS - d) == Shr(h, HASH_BITS - d)
  }

  lemma AlikeLess(g: nat, h: nat, d: nat, e: nat)
    requires Alike(g, h, d) && e <= d
    ensures Alike(g, h, e)
  {
    hide Shr;
    ShrShr(g, HASH_BITS - d, d - e);
    ShrShr(h, HASH_BITS - d, d - e);
  }

  ghost function LeafOf(s: Shape, h: nat): Leaf {
    var d := Depth(s, h);
    Leaf(d, Shr(h, if d <= HASH_BITS then HASH_BITS - d else 0))
  }

  ghost function AllLeaves(s: Shape): set<Leaf> {
    set h | 0 <= h < Pow2(HASH_BITS) :: LeafOf(s, h)
  }

  /** Hashes that agree on as many bits as one of their buckets is deep are in the same bucket. */
  ghost predicate Uniform(s: Shape) {
    forall g, h :: 0 <= g < Pow2(HASH_BITS) && 0 <= h < Pow2(HASH_BITS) && Alike(g, h, Depth(s, h)) ==>
          Depth(s, g) == Depth(s, h)
  }

  ghost predicate Tree(s: Shape) {
    && s.bits <= MAX_DIR_BITS && |s.depths| == Pow2(s.bits)
    && (forall h :: 0 <= h < Pow2(HASH_BITS) ==> Depth(s, h) <= s.bits)
    && Uniform(s) && s.count == |AllLeaves(s)|
  }

  lemma FirstTree(bits: nat)
    requires bits <= MAX_DIR_BITS
    ensures Tree(FirstShape(bits))
  {
    assert Pow2(0) == 1;
    hide Pow2;
    var s := FirstShape(bits);
    forall h: nat | h < Pow2(HASH_BITS)
      ensures Depth(s, h) == 0 && LeafOf(s, h) == Leaf(0, 0)
    {
      ShrBound(h, HASH_BITS, 0);
    }
    assert LeafOf(s, 0) in AllLeaves(s);
    assert AllLeaves(s) == {Leaf(0, 0)};
  }

  /** What one round does to the depth of every hash. */
  lemma RoundDepth(s: Shape, hash: nat, g: nat)
    requires |s.depths| == Pow2(s.bits) && s.bits < HASH_BITS && hash < Pow2(HASH_BITS) && g < Pow2(HASH_BITS)
    requires Depth(s, hash) <= s.bits
    ensures Depth(Round(s, hash), g) == if Alike(g, hash, Depth(s, hash)) then Depth(s, hash) + 1 else Depth(s, g)
    ensures |Round(s, hash).depths| == Pow2(Round(s, hash).bits) && Round(s, hash).bits <= s.bits + 1
    ensures Round(s, hash).bits == if Depth(s, hash) == s.bits then s.bits + 1 else s.bits
  {
    hide Pow2, Shr;
    var d := Depth(s, hash);
    var t := if d == s.bits then Grown(s) else s;
    Pow2Successor(s.bits);
    DoubledLookup(s.depths, s.bits, hash);
    DoubledLookup(s.depths, s.bits, g);
    assert Depth(t, hash) == d && Depth(t, g) == Depth(s, g);
    var i := BucketDir(g, t.bits);
    ShrShr(g, HASH_BITS - t.bits, t.bits - d);
    assert Covers(i, t.bits, hash, d) == Alike(g, hash, d);
  }

  lemma RoundUniform(s: Shape, hash: nat)
    requires Tree(s) && s.bits < HASH_BITS && hash < Pow2(HASH_BITS)
    ensures Uniform(Round(s, hash))
  {
    hide Pow2, Shr, Round, Depth;
    var t, d := Round(s, hash), Depth(s, hash);
    forall g: nat, h: nat | g < Pow2(HASH_BITS) && h < Pow2(HASH_BITS) && Alike(g, h, Depth(t, h))
      ensures Depth(t, g) == Depth(t, h)
    {
      RoundDepth(s, hash, g);
      RoundDepth(s, hash, h);
      var e := Depth(t, h);
      if Alike(h, hash, d) {
        AlikeLess(g, h, e, d);
      } else {
        assert Depth(s, g) == Depth(s, h);
      }
    }
  }

  /** The leaf of the hash gives way to two. */
  lemma RoundLeaves(s: Shape, hash: nat)
    requires Tree(s) && s.bits < HASH_BITS && hash < Pow2(HASH_BITS)
    ensures var d := Depth(s, hash);
            var p := Shr(hash, HASH_BITS - d);
            && Leaf(d, p) in AllLeaves(s)
            && Leaf(d + 1, 2 * p) !in AllLeaves(s) && Leaf(d + 1, 2 * p + 1) !in AllLeaves(s)
            && AllLeaves(Round(s, hash)) == AllLeaves(s) - {Leaf(d, p)} + {Leaf(d + 1, 2 * p), Leaf(d + 1, 2 * p + 1)}
  {
    hide Pow2, Shr, Round, Depth;
    var t, d := Round(s, hash), Depth(s, hash);
    var p := Shr(hash, HASH_BITS - d);
    assert LeafOf(s, hash) == Leaf(d, p);
    var two := {Leaf(d + 1, 2 * p), Leaf(d + 1, 2 * p + 1)};
    forall h: nat | h < Pow2(HASH_BITS)
      ensures LeafOf(t, h) == if Alike(h, hash, d) then Leaf(d + 1, Shr(h, HASH_BITS - d - 1)) else LeafOf(s, h)
      ensures Alike(h, hash, d) ==> LeafOf(t, h) in two && LeafOf(s, h) == Leaf(d, p)
      ensures LeafOf(s, h) !in two && (!Alike(h, hash, d) ==> LeafOf(s, h) != Leaf(d, p))
    {
      RoundDepth(s, hash, h);
      ShrHalf(h, HASH_BITS - d - 1);
      LeafApart(s, hash, h);
    }
    var h0, h1 := BothHalves(hash, d);
    assert LeafOf(t, h0) in AllLeaves(t) && LeafOf(t, h1) in AllLeaves(t);
    forall l
      ensures l in AllLeaves(t) <==> l in AllLeaves(s) - {Leaf(d, p)} + two
    {
      if l in AllLeaves(s) - {Leaf(d, p)} {
        var h: nat :| h < Pow2(HASH_BITS) && LeafOf(s, h) == l;
        assert LeafOf(t, h) == l;
      }
    }
  }

  lemma LeafApart(s: Shape, hash: nat, h: nat)
    requires Tree(s) && s.bits < HASH_BITS && hash < Pow2(HASH_BITS) && h < Pow2(HASH_BITS)
    ensures var d := Depth(s, hash);
            var p := Shr(hash, HASH_BITS - d);
            && LeafOf(s, h) !in {Leaf(d + 1, 2 * p), Leaf(d + 1, 2 * p + 1)}
            && (LeafOf(s, h) == Leaf(d, p) <==> Alike(h, hash, d))
  {
    hide Pow2, Shr, Depth;
    ShrHalf(h, HASH_BITS - Depth(s, hash) - 1);
  }

  /** Both values of the next bit occur. */
  lemma BothHalves(hash: nat, d: nat) returns (h0: nat, h1: nat)
    requires d < HASH_BITS && hash < Pow2(HASH_BITS)
    ensures h0 < Pow2(HASH_BITS) && h1 < Pow2(HASH_BITS) && Alike(h0, hash, d) && Alike(h1, hash, d)
    ensures var p := Shr(hash, HASH_BITS - d);
            Shr(h0, HASH_BITS - d - 1) == 2 * p && Shr(h1, HASH_BITS - d - 1) == 2 * p + 1
  {
    hide Pow2, Shr;
    var p, n := Shr(hash, HASH_BITS - d), HASH_BITS - d - 1;
    ShrBound(hash, HASH_BITS - d, d);
    Pow2Successor(d);
    Pow2Add(d + 1, n);
    h0, h1 := Shl(2 * p, n), Shl(2 * p + 1, n);
    MulMonotonic(2 * p + 2, Pow2(d + 1), Pow2(n));
    assert (2 * p + 1) * Pow2(n) == 2 * p * Pow2(n) + Pow2(n);
    assert (2 * p + 2) * Pow2(n) == (2 * p + 1) * Pow2(n) + Pow2(n);
    ShrInterval(h0, n, 2 * p);
    ShrInterval(h1, n, 2 * p + 1);
    ShrHalf(h0, n);
    ShrHalf(h1, n);
  }

  lemma RoundTree(s: Shape, hash: nat)
    requires Tree(s) && hash < Pow2(HASH_BITS) && Depth(s, hash) < MAX_DIR_BITS
    ensures Tree(Round(s, hash))
  {
    hide Pow2, Shr, Round, Depth, AllLeaves, Uniform;
    var t := Round(s, hash);
    RoundUniform(s, hash);
    RoundLeaves(s, hash);
    RoundCount(s, hash);
    forall h: nat | h < Pow2(HASH_BITS)
      ensures Depth(t, h) <= t.bits
    {
      RoundDepth(s, hash, h);
    }
    RoundDepth(s, hash, hash);
  }

  lemma RoundCount(s: Shape, hash: nat)
    ensures Round(s, hash).count == s.count + 1
  {
  }

  // ----- every leaf is needed -----

  /** Wherever the tree is split, more than `n` keys share the prefix. */
  ghost predicate Needed(s: Shape, m: map<Key, Value>, n: nat) {
    forall h, j :: 0 <= h < Pow2(HASH_BITS) && 0 <= j < Depth(s, h) ==> Sharing(m, h, j) > n
  }

  lemma SharingMore(m: map<Key, Value>, m': map<Key, Value>, h: nat, j: nat)
    requires m.Keys <= m'.Keys
    ensures Sharing(m, h, j) <= Sharing(m', h, j)
  {
    var a, b := set k | k in m && Agree(k, h, j), set k | k in m' && Agree(k, h, j);
    assert a <= b;
    Fewer(a, b);
  }

  lemma {:induction false} Fewer<T>(a: set<T>, b: set<T>)
    requires a <= b
    ensures |a| <= |b|
    decreases a
  {
    if a != {} {
      var x :| x in a;
      Fewer(a - {x}, b - {x});
    }
  }

  lemma SharingAlike(m: map<Key, Value>, g: nat, h: nat, j: nat)
    requires Alike(g, h, j)
    ensures Sharing(m, g, j) == Sharing(m, h, j)
  {
    assert (set k | k in m && Agree(k, g, j)) == (set k | k in m && Agree(k, h, j));
  }

  lemma SharingNew(m: map<Key, Value>, k: Key, v: Value, j: nat)
    requires k !in m && j <= HASH_BITS
    ensures Sharing(m[k := v], Hash(k), j) == Sharing(m, Hash(k), j) + 1
  {
    hide Hash, Shr;
    assert (set l | l in m[k := v] && Agree(l, Hash(k), j)) == (set l | l in m && Agree(l, Hash(k), j)) + {k};
  }

  /** Making room for a new key splits only where it is needed. */
  lemma {:induction false} RoomNeeded(s: Shape, m: map<Key, Value>, k: Key, v: Value, d: nat, n: nat)
    requires Tree(s) && k !in m && Needed(s, m[k := v], n) && d == Depth(s, Hash(k))
    ensures Tree(WithRoom(s, m, Hash(k), d, n)) && Needed(WithRoom(s, m, Hash(k), d, n), m[k := v], n)
    decreases MAX_DIR_BITS - d
  {
    hide Pow2, Shr, Round, Depth, AllLeaves, Uniform, Sharing, Hash;
    HashBound(k);
    if d < MAX_DIR_BITS && Sharing(m, Hash(k), d) >= n {
      var t, more := Round(s, Hash(k)), m[k := v];
      RoundTree(s, Hash(k));
      RoundDepth(s, Hash(k), Hash(k));
      SharingNew(m, k, v, d);
      forall h, j | 0 <= h < Pow2(HASH_BITS) && 0 <= j < Depth(t, h)
        ensures Sharing(more, h, j) > n
      {
        RoundDepth(s, Hash(k), h);
        SplitNeeded(s, more, Hash(k), h, j, n);
      }
      RoomNeeded(t, m, k, v, d + 1, n);
    }
  }

  lemma SplitNeeded(s: Shape, m: map<Key, Value>, hash: nat, h: nat, j: nat, n: nat)
    requires Tree(s) && Needed(s, m, n) && hash < Pow2(HASH_BITS) && h < Pow2(HASH_BITS)
    requires Sharing(m, hash, Depth(s, hash)) > n
    requires j < if Alike(h, hash, Depth(s, hash)) then Depth(s, hash) + 1 else Depth(s, h)
    ensures Sharing(m, h, j) > n
  {
    hide Pow2, Shr, Depth, AllLeaves, Sharing;
    var d := Depth(s, hash);
    if Alike(h, hash, d) {
      assert Depth(s, h) == d;
      if j == d {
        SharingAlike(m, h, hash, d);
      }
    }
  }

  // ----- no more leaves than another database has buckets -----

  /** A database that holds those keys is at least as deep everywhere. */
  lemma NoDeeper(s: Shape, m: map<Key, Value>, n: nat, c: Catalog, slots: nat, h: nat)
    requires Tree(s) && Needed(s, m, n) && c.Ok(slots) && slots <= n && m.Keys <= c.data.Keys && h < Pow2(HASH_BITS)
    ensures c.BucketOf(h) in c.buckets && Depth(s, h) <= c.buckets[c.BucketOf(h)].bits
  {
    hide Pow2, Shr, Depth, AllLeaves, Sharing, LookUp, DirOk, Catalog.Filled, Uniform;
    CountSharing(c, slots, h);
    var b := c.buckets[c.BucketOf(h)];
    TableCount(b, slots);
    if b.bits < Depth(s, h) {
      SharingMore(m, c.data, h, b.bits);
    }
  }

  lemma TableCount(b: Bucket, n: nat)
    requires BucketOk(b, n)
    ensures b.count <= n
  {
  }

  ghost function Witness(s: Shape, l: Leaf): (h: nat)
    requires l in AllLeaves(s)
    ensures h < Pow2(HASH_BITS) && LeafOf(s, h) == l
  {
    var h: nat :| h < Pow2(HASH_BITS) && LeafOf(s, h) == l;
    h
  }

  lemma {:induction false} OneToOne(a: set<Leaf>, f: map<Leaf, nat>, b: set<nat>)
    requires a <= f.Keys && (forall l :: l in a ==> f[l] in b)
    requires forall l, k :: l in a && k in a && f[l] == f[k] ==> l == k
    ensures |a| <= |b|
    decreases a
  {
    if a != {} {
      var l :| l in a;
      OneToOne(a - {l}, f, b - {f[l]});
    }
  }

  /** A tree that needs all its leaves has no more of them than the database has buckets. */
  lemma NoMoreLeaves(s: Shape, m: map<Key, Value>, n: nat, c: Catalog, slots: nat)
    requires Tree(s) && Needed(s, m, n) && c.Ok(slots) && slots <= n && m.Keys <= c.data.Keys
    ensures s.count <= |c.buckets|
  {
    hide Pow2, Shr, Depth, Needed, LookUp, Catalog.Ok, AllLeaves;
    var f := map l | l in AllLeaves(s) :: c.BucketOf(Witness(s, l));
    forall l | l in AllLeaves(s)
      ensures f[l] in c.buckets
    {
      NoDeeper(s, m, n, c, slots, Witness(s, l));
    }
    forall l, k | l in AllLeaves(s) && k in AllLeaves(s) && f[l] == f[k]
      ensures l == k
    {
      SameLeaf(s, m, n, c, slots, Witness(s, l), Witness(s, k));
    }
    OneToOne(AllLeaves(s), f, c.buckets.Keys);
    assert |c.buckets.Keys| == |c.buckets|;
  }

  lemma SameLeaf(s: Shape, m: map<Key, Value>, n: nat, c: Catalog, slots: nat, g: nat, h: nat)
    requires Tree(s) && Needed(s, m, n) && c.Ok(slots) && slots <= n && m.Keys <= c.data.Keys
    requires g < Pow2(HASH_BITS) && h < Pow2(HASH_BITS) && c.BucketOf(g) == c.BucketOf(h)
    ensures LeafOf(s, g) == LeafOf(s, h)
  {
    hide Pow2, Shr, Depth, Needed, LookUp, Catalog.Filled, AllLeaves, BucketOk, DirOk;
    NoDeeper(s, m, n, c, slots, h);
    HashRun(c.dir, c.dirBits, Depths(c.buckets), h, g);
    var b := c.buckets[c.BucketOf(h)].bits;
    AlikeLess(g, h, b, Depth(s, h));
  }
}
