/**
 The extendible-hash directory (src/bucket.c, src/hash.c): 2^dirBits bucket addresses indexed
 by the top bits of a hash.  A bucket of depth b is shared by one aligned run of
 2^(dirBits - b) entries.
 */
module Directory {
  import opened Bits
  import opened Layout

  /** The largest directory depth: GDBM_MAX_DIR_HALF stops the directory from growing further. */
  const MAX_DIR_BITS: nat := 27

  /** _gdbm_bucket_dir */
  function BucketDir(hash: nat, dirBits: nat): (i: nat)
    requires hash < Pow2(HASH_BITS) && dirBits <= HASH_BITS
    ensures i < Pow2(dirBits)
  {
    ShrBound(hash, HASH_BITS - dirBits, dirBits);
    Shr(hash, HASH_BITS - dirBits)
  }

  /** Two entries share a bucket exactly when they agree on the bucket's depth of index bits. */
  ghost predicate SharedRun(dir: seq<nat>, dirBits: nat, depth: map<nat, nat>, i: nat, j: nat)
    requires i < |dir| && j < |dir|
  {
    && dir[i] in depth && depth[dir[i]] <= dirBits
    && (dir[i] == dir[j] <==> Shr(i, dirBits - depth[dir[i]]) == Shr(j, dirBits - depth[dir[i]]))
  }

  /** The directory invariant; `depth` gives the depth of every bucket. */
  ghost predicate DirOk(dir: seq<nat>, dirBits: nat, depth: map<nat, nat>) {
    && dirBits <= HASH_BITS && |dir| == Pow2(dirBits)
    && (forall a :: a in depth <==> a in dir)
    && (forall a :: a in depth ==> depth[a] <= dirBits)
    && (forall i, j :: 0 <= i < |dir| && 0 <= j < |dir| ==> SharedRun(dir, dirBits, depth, i, j))
  }

  // ----- doubling -----

  function Doubled(dir: seq<nat>): (d: seq<nat>)
    ensures |d| == 2 * |dir| && forall i :: 0 <= i < |d| ==> d[i] == dir[i / 2]
  {
    seq(2 * |dir|, i requires 0 <= i < 2 * |dir| => dir[i / 2])
  }

  /** The copying loop of the doubling. */
  method Double(dir: seq<nat>) returns (d: seq<nat>)
    ensures d == Doubled(dir)
  {
    d := [];
    var index := 0;
    while index < |dir|
      invariant 0 <= index <= |dir| && |d| == 2 * index
      invariant forall i :: 0 <= i < |d| ==> d[i] == dir[i / 2]
    {
      d := d + [dir[index], dir[index]];
      index := index + 1;
    }
  }

  lemma DoubledOk(dir: seq<nat>, dirBits: nat, depth: map<nat, nat>)
    requires DirOk(dir, dirBits, depth) && dirBits < HASH_BITS
    ensures DirOk(Doubled(dir), dirBits + 1, depth)
  {
    hide Shr, Pow2;
    Pow2Successor(dirBits);
    var d, bits := Doubled(dir), dirBits + 1;
    forall a
      ensures a in dir <==> a in d
    {
      if a in dir {
        var i :| 0 <= i < |dir| && dir[i] == a;
        assert d[2 * i] == a;
      }
    }
    forall i, j | 0 <= i < |d| && 0 <= j < |d|
      ensures SharedRun(d, bits, depth, i, j)
    {
      assert SharedRun(dir, dirBits, depth, i / 2, j / 2);
      var k := dirBits - depth[d[i]];
      assert d[i] == dir[i / 2] && d[j] == dir[j / 2];
      ShrOne(i, k);
      ShrOne(j, k);
    }
  }

  lemma DoubledLookup(dir: seq<nat>, dirBits: nat, hash: nat)
    requires |dir| == Pow2(dirBits) && dirBits < HASH_BITS && hash < Pow2(HASH_BITS)
    ensures BucketDir(hash, dirBits + 1) < |Doubled(dir)|
    ensures Doubled(dir)[BucketDir(hash, dirBits + 1)] == dir[BucketDir(hash, dirBits)]
  {
    hide Shr, Pow2;
    Pow2Successor(dirBits);
    ShrHalf(hash, HASH_BITS - dirBits - 1);
  }

  // ----- splitting one run -----

  /** Where the run of index `i` splits at depth `bits`: [start0, start1) and [start1, end). */
  ghost predicate Halves(i: nat, dirBits: nat, bits: nat, start0: nat, start1: nat, end: nat)
    requires 0 < bits <= dirBits
  {
    var k := dirBits - bits;
    var g := Shr(i, k + 1);
    start0 == Shl(2 * g, k) && start1 == Shl(2 * g + 1, k) && end == Shl(2 * g + 2, k)
  }

  /** The directory after the run has been divided between two new buckets. */
  ghost function Divided(dir: seq<nat>, start0: nat, start1: nat, end: nat, adr0: nat, adr1: nat): (d: seq<nat>)
    ensures |d| == |dir|
    ensures forall i :: 0 <= i < |d| ==>
              d[i] == if start0 <= i < start1 then adr0 else if start1 <= i < end then adr1 else dir[i]
  {
    seq(|dir|, i requires 0 <= i < |dir| =>
      if start0 <= i < start1 then adr0 else if start1 <= i < end then adr1 else dir[i])
  }

  /** Entries that agree with `index` but for the last `k` + 1 bits go by the first of these bits. */
  ghost function ByNextBit(dir: seq<nat>, index: nat, k: nat, adr0: nat, adr1: nat, i: nat): nat
    requires i < |dir|
  {
    if Shr(i, k + 1) != Shr(index, k + 1) then dir[i] else if Shr(i, k) % 2 == 0 then adr0 else adr1
  }

  /** The run arithmetic and the two update loops of _gdbm_split_bucket. */
  method Divide(dir: seq<nat>, bucketDir: nat, dirBits: nat, bits: nat, adr0: nat, adr1: nat)
    returns (d: seq<nat>, ghost start0: nat, ghost start1: nat, ghost end: nat)
    requires 0 < bits <= dirBits && |dir| == Pow2(dirBits) && bucketDir < |dir|
    ensures Halves(bucketDir, dirBits, bits, start0, start1, end)
    ensures start0 < start1 < end <= |dir|
    ensures d == Divided(dir, start0, start1, end, adr0, adr1)
    ensures |d| == |dir| && forall i :: 0 <= i < |d| ==>
              d[i] == ByNextBit(dir, bucketDir, dirBits - bits, adr0, adr1, i)
  {
    hide Shr, Shl, Pow2;
    var k := dirBits - bits;
    RunBounds(bucketDir, dirBits, bits);
    var dirStart1 := OrOne(Shr(bucketDir, k));
    var dirEnd := Shl(dirStart1 + 1, k);
    dirStart1 := Shl(dirStart1, k);
    var dirStart0 := dirStart1 - (dirEnd - dirStart1);
    start0, start1, end := dirStart0, dirStart1, dirEnd;
    d := dir;
    var index := dirStart0;
    while index < dirStart1
      invariant dirStart0 <= index <= dirStart1 && |d| == |dir|
      invariant forall i :: 0 <= i < |d| ==> d[i] == if dirStart0 <= i < index then adr0 else dir[i]
    {
      d := d[index := adr0];
      index := index + 1;
    }
    while index < dirEnd
      invariant dirStart1 <= index <= dirEnd && |d| == |dir|
      invariant forall i :: 0 <= i < |d| ==>
                  d[i] == if dirStart0 <= i < dirStart1 then adr0 else if dirStart1 <= i < index then adr1 else dir[i]
    {
      d := d[index := adr1];
      index := index + 1;
    }
    forall i | 0 <= i < |d|
      ensures d[i] == ByNextBit(dir, bucketDir, k, adr0, adr1, i)
    {
      InHalves(bucketDir, i, dirBits, bits, start0, start1, end);
    }
  }

  lemma RunBounds(i: nat, dirBits: nat, bits: nat)
    requires 0 < bits <= dirBits && i < Pow2(dirBits)
    ensures var k := dirBits - bits;
            var g := Shr(i, k + 1);
            && OrOne(Shr(i, k)) == 2 * g + 1
            && Shl(2 * g, k) == Shl(2 * g + 1, k) - Pow2(k)
            && Shl(2 * g + 2, k) == Shl(2 * g + 1, k) + Pow2(k)
            && Shl(2 * g + 2, k) <= Pow2(dirBits)
  {
    var k := dirBits - bits;
    var g := Shr(i, k + 1);
    ShrHalf(i, k);
    ShrBound(i, k + 1, bits - 1);
    MulMonotonic(2 * g + 2, Pow2(bits), Pow2(k));
    Pow2Add(bits, k);
    assert (2 * g + 1) * Pow2(k) == 2 * g * Pow2(k) + Pow2(k);
    assert (2 * g + 2) * Pow2(k) == (2 * g + 1) * Pow2(k) + Pow2(k);
  }

  /** Membership in the run and in its halves, by the index bits. */
  lemma InHalves(i: nat, j: nat, dirBits: nat, bits: nat, start0: nat, start1: nat, end: nat)
    requires 0 < bits <= dirBits && Halves(i, dirBits, bits, start0, start1, end)
    ensures var k := dirBits - bits;
            var g := Shr(i, k + 1);
            && (start0 <= j < start1 <==> Shr(j, k) == 2 * g)
            && (start1 <= j < end <==> Shr(j, k) == 2 * g + 1)
            && (start0 <= j < end <==> Shr(j, k + 1) == g)
  {
    var k := dirBits - bits;
    var g := Shr(i, k + 1);
    ShrInterval(j, k, 2 * g);
    ShrInterval(j, k, 2 * g + 1);
    ShrInterval(j, k + 1, g);
    ShlDouble(g, k);
    ShlDouble(g + 1, k);
  }

  ghost function DividedDepth(depth: map<nat, nat>, a: nat, bits: nat, adr0: nat, adr1: nat): map<nat, nat> {
    (depth - {a})[adr0 := bits][adr1 := bits]
  }

  lemma DividedOk(dir: seq<nat>, dirBits: nat, depth: map<nat, nat>, i0: nat, start0: nat, start1: nat, end: nat,
                  adr0: nat, adr1: nat)
    requires DirOk(dir, dirBits, depth) && i0 < |dir| && depth[dir[i0]] < dirBits
    requires Halves(i0, dirBits, depth[dir[i0]] + 1, start0, start1, end) && start0 < start1 < end <= |dir|
    requires adr0 != adr1 && adr0 !in depth && adr1 !in depth
    ensures DirOk(Divided(dir, start0, start1, end, adr0, adr1), dirBits,
                  DividedDepth(depth, dir[i0], depth[dir[i0]] + 1, adr0, adr1))
  {
    hide Shr, Shl, Pow2, Halves;
    var bits := depth[dir[i0]] + 1;
    var d := Divided(dir, start0, start1, end, adr0, adr1);
    var depth' := DividedDepth(depth, dir[i0], bits, adr0, adr1);
    DividedMembers(dir, dirBits, depth, i0, start0, start1, end, adr0, adr1);
    hide SharedRun, DividedDepth;
    forall i, j | 0 <= i < |d| && 0 <= j < |d|
      ensures SharedRun(d, dirBits, depth', i, j)
    {
      DividedPair(dir, dirBits, depth, i0, start0, start1, end, adr0, adr1, i, j);
    }
  }

  lemma DividedMembers(dir: seq<nat>, dirBits: nat, depth: map<nat, nat>, i0: nat, start0: nat, start1: nat, end: nat,
                       adr0: nat, adr1: nat)
    requires DirOk(dir, dirBits, depth) && i0 < |dir| && depth[dir[i0]] < dirBits
    requires Halves(i0, dirBits, depth[dir[i0]] + 1, start0, start1, end) && start0 < start1 < end <= |dir|
    requires adr0 != adr1 && adr0 !in depth && adr1 !in depth
    ensures var depth' := DividedDepth(depth, dir[i0], depth[dir[i0]] + 1, adr0, adr1);
            && (forall b :: b in depth' <==> b in Divided(dir, start0, start1, end, adr0, adr1))
            && (forall b :: b in depth' ==> depth'[b] <= dirBits)
  {
    hide Shr, Shl, Pow2, Halves;
    var a, bits := dir[i0], depth[dir[i0]] + 1;
    var d := Divided(dir, start0, start1, end, adr0, adr1);
    var depth' := DividedDepth(depth, a, bits, adr0, adr1);
    forall j | 0 <= j < |dir|
      ensures dir[j] == a <==> start0 <= j < end
    {
      InHalves(i0, j, dirBits, bits, start0, start1, end);
      assert SharedRun(dir, dirBits, depth, i0, j);
    }
    assert d[start0] == adr0 && d[start1] == adr1;
    forall b | b in depth'
      ensures b in d
    {
      if b != adr0 && b != adr1 {
        var j :| 0 <= j < |dir| && dir[j] == b;
        assert d[j] == b;
      }
    }
    forall b | b in d
      ensures b in depth'
    {
      var j :| 0 <= j < |d| && d[j] == b;
      assert dir[j] in depth;
    }
  }

  lemma DividedPair(dir: seq<nat>, dirBits: nat, depth: map<nat, nat>, i0: nat, start0: nat, start1: nat, end: nat,
                    adr0: nat, adr1: nat, i: nat, j: nat)
    requires DirOk(dir, dirBits, depth) && i0 < |dir| && depth[dir[i0]] < dirBits
    requires Halves(i0, dirBits, depth[dir[i0]] + 1, start0, start1, end) && start0 < start1 < end <= |dir|
    requires adr0 != adr1 && adr0 !in depth && adr1 !in depth && i < |dir| && j < |dir|
    ensures var bits := depth[dir[i0]] + 1;
            var d, depth' := Divided(dir, start0, start1, end, adr0, adr1),
                DividedDepth(depth, dir[i0], bits, adr0, adr1);
            SharedRun(d, dirBits, depth', i, j)
  {
    hide Shr, Shl, Pow2, Halves;
    var bits := depth[dir[i0]] + 1;
    InHalves(i0, i, dirBits, bits, start0, start1, end);
    InHalves(i0, j, dirBits, bits, start0, start1, end);
    assert SharedRun(dir, dirBits, depth, i, j) && SharedRun(dir, dirBits, depth, i0, i) && SharedRun(dir, dirBits,
        depth, i0, j);
    if !(start0 <= i < end) && start0 <= j < end {
      assert dir[i] != dir[j];
    }
  }

  /** A hash that led to the old bucket leads to the new one its next bit selects; any other
      hash still leads where it did. */
  lemma DividedLookup(dir: seq<nat>, dirBits: nat, depth: map<nat, nat>, i0: nat, start0: nat, start1: nat, end: nat,
                      adr0: nat, adr1: nat, hash: nat)
    requires DirOk(dir, dirBits, depth) && i0 < |dir| && depth[dir[i0]] < dirBits
    requires Halves(i0, dirBits, depth[dir[i0]] + 1, start0, start1, end)
    requires hash < Pow2(HASH_BITS)
    ensures var i := BucketDir(hash, dirBits);
            Divided(dir, start0, start1, end, adr0, adr1)[i] ==
            if dir[i] != dir[i0] then dir[i]
            else if Shr(hash, HASH_BITS - (depth[dir[i0]] + 1)) % 2 == 0 then adr0 else adr1
  {
    hide Shr, Shl, Pow2, Halves;
    var bits := depth[dir[i0]] + 1;
    var i := BucketDir(hash, dirBits);
    InHalves(i0, i, dirBits, bits, start0, start1, end);
    ShrShr(hash, HASH_BITS - dirBits, dirBits - bits);
    ShrHalf(i, dirBits - bits);
    InHalves(i0, i0, dirBits, bits, start0, start1, end);
    assert SharedRun(dir, dirBits, depth, i0, i);
  }
}
