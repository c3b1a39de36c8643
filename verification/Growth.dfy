/**
 How the directory grows.  Its depth, the depths of the buckets its entries lead to and the
 number of buckets depend on nothing but the keys stored, so that a caller can work out
 beforehand how many buckets every split will find.
 */
module Growth {
  import opened Bits
  import opened Layout
  import opened Directory
  import opened Content

  /** The directory's depth, the depth of the bucket each entry leads to, the number of buckets. */
  datatype Shape = Shape(bits: nat, depths: seq<nat>, count: nat)

  function Zeros(n: nat): (s: seq<nat>)
    ensures |s| == n && forall i :: 0 <= i < n ==> s[i] == 0
  {
    seq(n, _ => 0)
  }

  /** A new database: every entry leads to the one bucket of depth 0. */
  function FirstShape(bits: nat): Shape {
    Shape(bits, Zeros(Pow2(bits)), 1)
  }

  /** The depth of the bucket a hash belongs to. */
  function Depth(s: Shape, hash: nat): nat {
    LookUp(s.depths, s.bits, hash)
  }

  /** Entry `i` of a directory of depth `bits` agrees with the hash on the first `d` bits. */
  predicate Covers(i: nat, bits: nat, hash: nat, d: nat) {
    d <= bits <= HASH_BITS && Shr(i, bits - d) == Shr(hash, HASH_BITS - d)
  }

  function Raised(depths: seq<nat>, bits: nat, hash: nat, d: nat): (r: seq<nat>)
    ensures |r| == |depths|
    ensures forall i :: 0 <= i < |r| ==> r[i] == if Covers(i, bits, hash, d) then d + 1 else depths[i]
  {
    seq(|depths|, i requires 0 <= i < |depths| => if Covers(i, bits, hash, d) then d + 1 else depths[i])
  }

  /** The directory is doubled. */
  function Grown(s: Shape): Shape {
    s.(bits := s.bits + 1, depths := Doubled(s.depths))
  }

  /** The bucket of the hash is replaced by two deeper ones. */
  function Deepened(s: Shape, hash: nat): Shape {
    Shape(s.bits, Raised(s.depths, s.bits, hash, Depth(s, hash)), s.count + 1)
  }

  /** One round of a split; the directory is doubled if the bucket is as deep as it. */
  function Round(s: Shape, hash: nat): Shape {
    Deepened(if Depth(s, hash) == s.bits then Grown(s) else s, hash)
  }

  predicate Agree(k: Key, hash: nat, d: nat) {
    d <= HASH_BITS && Shr(Hash(k), HASH_BITS - d) == Shr(hash, HASH_BITS - d)
  }

  /** How many keys agree with the hash on the first `d` bits. */
  function Sharing(m: map<Key, Value>, hash: nat, d: nat): nat {
    |set k | k in m && Agree(k, hash, d)|
  }

  /** The shape once the bucket of the hash, of depth `d`, has been split until it has room. */
  function WithRoom(s: Shape, m: map<Key, Value>, hash: nat, d: nat, slots: nat): Shape
    decreases MAX_DIR_BITS - d
  {
    if d >= MAX_DIR_BITS || Sharing(m, hash, d) < slots then s else WithRoom(Round(s, hash), m, hash, d + 1, slots)
  }

  /** A cache of 2^cacheBits elements that may grow as deep as the directory has room for all
      buckets and the two that a round adds. */
  predicate Comfortable(s: Shape, cacheBits: nat) {
    s.count + 1 < Pow2(cacheBits) || s.count + 1 < Pow2(s.bits)
  }

  /** Every round of the split begins comfortably. */
  predicate Easy(s: Shape, m: map<Key, Value>, hash: nat, d: nat, slots: nat, cacheBits: nat)
    decreases MAX_DIR_BITS - d
  {
    Sharing(m, hash, d) < slots
    || (Comfortable(s, cacheBits) && (d >= MAX_DIR_BITS || Easy(Round(s, hash), m, hash, d + 1, slots, cacheBits)))
  }

  /** What a new key does to the shape, and when it is easy to make room for it. */
  function Widened(s: Shape, m: map<Key, Value>, hash: nat, slots: nat): Shape {
    WithRoom(s, m, hash, Depth(s, hash), slots)
  }

  predicate Easily(s: Shape, m: map<Key, Value>, hash: nat, slots: nat, cacheBits: nat) {
    Easy(s, m, hash, Depth(s, hash), slots, cacheBits)
  }

  /** One round, seen from outside. */
  lemma NextRound(s: Shape, t: Shape, m: map<Key, Value>, hash: nat, d: nat, slots: nat, a: nat, b: nat)
    requires Sharing(m, hash, d) >= slots && a <= b
    ensures Easy(s, m, hash, d, slots, a) ==> Comfortable(s, a)
    ensures t == Round(s, hash) && d < MAX_DIR_BITS ==>
              WithRoom(s, m, hash, d, slots) == WithRoom(t, m, hash, d + 1, slots)
    ensures t == Round(s, hash) && d < MAX_DIR_BITS && Easy(s, m, hash, d, slots, a) ==>
              Easy(t, m, hash, d + 1, slots, b)
  {
    hide Sharing, Round, Pow2, Comfortable;
    if t == Round(s, hash) && d < MAX_DIR_BITS && Easy(s, m, hash, d, slots, a) {
      EasierStill(t, m, hash, d + 1, slots, a, b);
    }
  }

  lemma NoRound(s: Shape, m: map<Key, Value>, hash: nat, d: nat, slots: nat)
    ensures Sharing(m, hash, d) < slots ==> WithRoom(s, m, hash, d, slots) == s
  {
  }

  lemma {:induction false} EasierStill(s: Shape, m: map<Key, Value>, hash: nat, d: nat, slots: nat, a: nat, b: nat)
    requires Easy(s, m, hash, d, slots, a) && a <= b
    ensures Easy(s, m, hash, d, slots, b)
    decreases MAX_DIR_BITS - d
  {
    hide Sharing, Round, Pow2;
    Pow2Monotonic(a, b);
    if Sharing(m, hash, d) >= slots && d < MAX_DIR_BITS {
      EasierStill(Round(s, hash), m, hash, d + 1, slots, a, b);
    }
  }

  lemma EasilyStill(s: Shape, m: map<Key, Value>, hash: nat, slots: nat, a: nat, b: nat)
    requires a <= b
    ensures Easily(s, m, hash, slots, a) ==> Easily(s, m, hash, slots, b)
  {
    if Easily(s, m, hash, slots, a) {
      EasierStill(s, m, hash, Depth(s, hash), slots, a, b);
    }
  }

  /** Directories and the number of buckets only grow. */
  lemma {:induction false} OnlyGrows(s: Shape, m: map<Key, Value>, hash: nat, d: nat, slots: nat)
    ensures WithRoom(s, m, hash, d, slots).bits >= s.bits && WithRoom(s, m, hash, d, slots).count >= s.count
    decreases MAX_DIR_BITS - d
  {
    hide Sharing, Raised, Doubled, LookUp, Pow2;
    if d < MAX_DIR_BITS && Sharing(m, hash, d) >= slots {
      OnlyGrows(Round(s, hash), m, hash, d + 1, slots);
    }
  }

  /** Every split that leaves fewer than 2^b - 1 buckets is easy, if the directory or the
      cache had at least that many entries to begin with. */
  lemma {:induction false} EasyIfSmall(s: Shape, m: map<Key, Value>, hash: nat, d: nat, slots: nat, cacheBits: nat,
                                       b: nat)
    requires b <= cacheBits || b <= s.bits
    requires WithRoom(s, m, hash, d, slots).count + 1 < Pow2(b)
    ensures Easy(s, m, hash, d, slots, cacheBits)
    decreases MAX_DIR_BITS - d
  {
    hide Sharing, Raised, Doubled, Pow2;
    OnlyGrows(s, m, hash, d, slots);
    Pow2Monotonic(b, if b <= cacheBits then cacheBits else s.bits);
    if d < MAX_DIR_BITS && Sharing(m, hash, d) >= slots {
      EasyIfSmall(Round(s, hash), m, hash, d + 1, slots, cacheBits, b);
    }
  }

  // ----- the shape of a directory -----

  ghost function EntryDepths(dir: seq<nat>, depth: map<nat, nat>): (r: seq<nat>)
    ensures |r| == |dir| && forall i :: 0 <= i < |r| ==> r[i] == if dir[i] in depth then depth[dir[i]] else 0
  {
    seq(|dir|, i requires 0 <= i < |dir| => if dir[i] in depth then depth[dir[i]] else 0)
  }

  ghost function ShapeOf(dir: seq<nat>, dirBits: nat, depth: map<nat, nat>): Shape {
    Shape(dirBits, EntryDepths(dir, depth), |depth|)
  }

  lemma DepthOf(dir: seq<nat>, dirBits: nat, depth: map<nat, nat>, hash: nat)
    requires LookUp(dir, dirBits, hash) in depth && hash < Pow2(HASH_BITS) && DirOk(dir, dirBits, depth)
    ensures Depth(ShapeOf(dir, dirBits, depth), hash) == depth[LookUp(dir, dirBits, hash)]
  {
    hide Pow2, SharedRun;
  }

  lemma ShapeGrown(dir: seq<nat>, dirBits: nat, depth: map<nat, nat>)
    ensures ShapeOf(Doubled(dir), dirBits + 1, depth) == Grown(ShapeOf(dir, dirBits, depth))
  {
    assert EntryDepths(Doubled(dir), depth) == Doubled(EntryDepths(dir, depth));
  }

  /** An entry leads to the bucket of the hash exactly if it agrees with it on the bucket's depth of bits. */
  lemma InRun(dir: seq<nat>, dirBits: nat, depth: map<nat, nat>, hash: nat, i: nat)
    requires DirOk(dir, dirBits, depth) && hash < Pow2(HASH_BITS) && i < |dir|
    ensures var a := LookUp(dir, dirBits, hash);
            a in depth && (dir[i] == a <==> Covers(i, dirBits, hash, depth[a]))
  {
    hide Pow2, Shr;
    var j := BucketDir(hash, dirBits);
    assert dir[j] in dir;
    assert SharedRun(dir, dirBits, depth, j, i);
    ShrShr(hash, HASH_BITS - dirBits, dirBits - depth[dir[j]]);
  }

  /** Dividing the bucket of the hash. */
  lemma ShapeDivided(dir: seq<nat>, dirBits: nat, depth: map<nat, nat>, d: seq<nat>, index: nat, adr0: nat, adr1: nat,
                     hash: nat)
    requires DirOk(dir, dirBits, depth) && hash < Pow2(HASH_BITS) && index < |dir|
    requires dir[index] == LookUp(dir, dirBits, hash)
    requires depth[dir[index]] < dirBits && adr0 != adr1 && adr0 !in depth && adr1 !in depth
    requires |d| == |dir|
    requires forall i :: 0 <= i < |d| ==>
              d[i] == ByNextBit(dir, index, dirBits - (depth[dir[index]] + 1), adr0, adr1, i)
    ensures ShapeOf(d, dirBits, DividedDepth(depth, dir[index], depth[dir[index]] + 1, adr0, adr1)) ==
            Deepened(ShapeOf(dir, dirBits, depth), hash)
  {
    hide Pow2, Shr, LookUp, Covers;
    var a, s := dir[index], ShapeOf(dir, dirBits, depth);
    var depth' := DividedDepth(depth, a, depth[a] + 1, adr0, adr1);
    DepthOf(dir, dirBits, depth, hash);
    DividedCount(depth, a, depth[a] + 1, adr0, adr1);
    forall i | 0 <= i < |d|
      ensures (if d[i] in depth' then depth'[d[i]] else 0) == if Covers(i, dirBits, hash,
                depth[a]) then depth[a] + 1 else s.depths[i]
    {
      InRun(dir, dirBits, depth, hash, i);
      assert SharedRun(dir, dirBits, depth, index, i);
      assert dir[i] in dir;
    }
    assert EntryDepths(d, depth') == Raised(s.depths, dirBits, hash, depth[a]);
  }

  lemma DividedCount(depth: map<nat, nat>, a: nat, bits: nat, adr0: nat, adr1: nat)
    requires a in depth && adr0 != adr1 && adr0 !in depth && adr1 !in depth
    ensures |DividedDepth(depth, a, bits, adr0, adr1)| == |depth| + 1
  {
    var d := DividedDepth(depth, a, bits, adr0, adr1);
    assert d.Keys == depth.Keys - {a} + {adr0, adr1};
    assert |depth| == |depth.Keys| && |d| == |d.Keys|;
  }

  /** A bucket's count is the number of keys that agree with its hashes on its depth of bits. */
  lemma CountSharing(s: Catalog, n: nat, hash: nat)
    requires s.Ok(n) && hash < Pow2(HASH_BITS)
    ensures s.BucketOf(hash) in s.buckets
    ensures s.buckets[s.BucketOf(hash)].count == Sharing(s.data, hash, s.buckets[s.BucketOf(hash)].bits)
  {
    hide Pow2, Shr, BucketOk, Catalog.Filled, Hash, LookUp, DirOk;
    BucketExists(s, n, hash);
    var a := s.BucketOf(hash);
    BucketKeys(s, n, a);
    forall k | k in s.data
      ensures s.BucketOf(Hash(k)) == a <==> Agree(k, hash, s.buckets[a].bits)
    {
      HashBound(k);
      BucketExists(s, n, Hash(k));
      HashRun(s.dir, s.dirBits, Depths(s.buckets), hash, Hash(k));
    }
    assert KeysOf(s, a) == set k | k in s.data && Agree(k, hash, s.buckets[a].bits);
  }

  lemma HashRun(dir: seq<nat>, dirBits: nat, depth: map<nat, nat>, hash: nat, other: nat)
    requires DirOk(dir, dirBits, depth) && hash < Pow2(HASH_BITS) && other < Pow2(HASH_BITS)
    ensures var a := LookUp(dir, dirBits, hash);
            && a in depth && depth[a] <= dirBits <= HASH_BITS
            && (LookUp(dir, dirBits, other) == a <==>
                  Shr(other, HASH_BITS - depth[a]) == Shr(hash, HASH_BITS - depth[a]))
  {
    hide Pow2, Shr;
    var i := BucketDir(other, dirBits);
    InRun(dir, dirBits, depth, hash, i);
    ShrShr(other, HASH_BITS - dirBits, dirBits - depth[LookUp(dir, dirBits, hash)]);
  }
}
