/**
 Whole runs: a GDBM database answers every sequence of stores, deletions and fetches as a finite
 map would.
 */
module Runs {
  import opened Bits
  import opened Layout
  import opened Content
  import opened Growth
  import opened Logarithm
  import opened Database

  datatype Operation =
    | StoreKey(key: Key, value: Value, replace: bool)
    | DeleteKey(key: Key)
    | FetchKey(key: Key)

  datatype Answer = Code(rc: int) | Fetched(value: Option<Value>)

  /** The specification: a finite map, or nothing after a directory overflow. */
  datatype Spec = Up(m: map<Key, Value>) | Down

  /** The store needs a bucket for more neighbours than one can hold. */
  predicate Overflows(s: Spec, op: Operation, slots: nat) {
    s.Up? && op.StoreKey? && op.key !in s.m && Crowded(s.m, op.key, slots)
  }

  function Step(s: Spec, op: Operation, slots: nat): Spec {
    if s.Down? || Overflows(s, op, slots) then Down
    else match op
      case StoreKey(k, v, replace) => if k in s.m && !replace then s else Up(s.m[k := v])
      case DeleteKey(k) => Up(s.m - {k})
      case FetchKey(_) => s
  }

  function Reply(s: Spec, op: Operation, slots: nat): Answer {
    match op
    case StoreKey(k, v, replace) =>
      if s.Down? || Overflows(s, op, slots) then Code(-1) else Code(if k in s.m && !replace then 1 else 0)
    case DeleteKey(k) => Code(if s.Up? && k in s.m then 0 else -1)
    case FetchKey(k) => Fetched(if s.Up? && k in s.m then Some(s.m[k]) else None)
  }

  function After(s: Spec, ops: seq<Operation>, slots: nat): Spec {
    if |ops| == 0 then s else Step(After(s, ops[..|ops| - 1], slots), ops[|ops| - 1], slots)
  }

  function Replies(s: Spec, ops: seq<Operation>, slots: nat): (r: seq<Answer>)
    ensures |r| == |ops|
  {
    if |ops| == 0 then []
    else Replies(s, ops[..|ops| - 1], slots) + [Reply(After(s, ops[..|ops| - 1], slots), ops[|ops| - 1], slots)]
  }

  // ----- how the directory grows in a run -----

  /** A new key may need room in its bucket; nothing else changes the shape of the directory. */
  predicate Inserts(s: Spec, op: Operation) {
    s.Up? && op.StoreKey? && op.key !in s.m
  }

  function NextShape(sh: Shape, s: Spec, op: Operation, slots: nat): Shape {
    if Inserts(s, op) then Widened(sh, s.m, Hash(op.key), slots) else sh
  }

  function ShapeAfter(sh: Shape, s: Spec, ops: seq<Operation>, slots: nat): Shape {
    if |ops| == 0 then sh
    else
      var n := |ops| - 1;
      NextShape(ShapeAfter(sh, s, ops[..n], slots), After(s, ops[..n], slots), ops[n], slots)
  }

  predicate SmoothStep(sh: Shape, s: Spec, op: Operation, slots: nat, cacheBits: nat) {
    Inserts(s, op) ==> Easily(sh, s.m, Hash(op.key), slots, cacheBits)
  }

  /** Whenever a bucket is split, a cache that may grow as deep as the directory has room for
      every bucket.  This depends on the operations alone. */
  predicate Smooth(sh: Shape, s: Spec, ops: seq<Operation>, slots: nat, cacheBits: nat) {
    |ops| == 0
    || (var n := |ops| - 1;
        && Smooth(sh, s, ops[..n], slots, cacheBits)
        && SmoothStep(ShapeAfter(sh, s, ops[..n], slots), After(s, ops[..n], slots), ops[n], slots, cacheBits))
  }

  lemma {:induction false} SmoothSoFar(sh: Shape, s: Spec, ops: seq<Operation>, slots: nat, cacheBits: nat, i: nat)
    requires Smooth(sh, s, ops, slots, cacheBits) && i <= |ops|
    ensures Smooth(sh, s, ops[..i], slots, cacheBits)
    decreases |ops|
  {
    if i < |ops| {
      SmoothSoFar(sh, s, ops[..|ops| - 1], slots, cacheBits, i);
      assert ops[..|ops| - 1][..i] == ops[..i];
    } else {
      assert ops[..i] == ops;
    }
  }

  lemma SmoothStill(sh: Shape, s: Spec, op: Operation, slots: nat, a: nat, b: nat)
    requires a <= b && SmoothStep(sh, s, op, slots, a)
    ensures SmoothStep(sh, s, op, slots, b)
  {
    if Inserts(s, op) {
      EasilyStill(sh, s.m, Hash(op.key), slots, a, b);
    }
  }

  lemma {:induction false} RunOnlyGrows(sh: Shape, s: Spec, ops: seq<Operation>, slots: nat)
    ensures ShapeAfter(sh, s, ops, slots).bits >= sh.bits && ShapeAfter(sh, s, ops, slots).count >= sh.count
    decreases |ops|
  {
    hide WithRoom, Depth, Step;
    if |ops| > 0 {
      var n := |ops| - 1;
      RunOnlyGrows(sh, s, ops[..n], slots);
      var mid, now := ShapeAfter(sh, s, ops[..n], slots), After(s, ops[..n], slots);
      if Inserts(now, ops[n]) {
        OnlyGrows(mid, now.m, Hash(ops[n].key), Depth(mid, Hash(ops[n].key)), slots);
      }
    }
  }

  /** A run is smooth if it ends with fewer buckets, by two, than the directory or the cache had
      entries to begin with. */
  lemma {:induction false} FewBucketsSmooth(sh: Shape, s: Spec, ops: seq<Operation>, slots: nat, cacheBits: nat, b: nat)
    requires b <= cacheBits || b <= sh.bits
    requires ShapeAfter(sh, s, ops, slots).count + 1 < Pow2(b)
    ensures Smooth(sh, s, ops, slots, cacheBits)
    decreases |ops|
  {
    hide WithRoom, Depth, Step, Easy, Pow2;
    if |ops| > 0 {
      var n := |ops| - 1;
      var mid, now := ShapeAfter(sh, s, ops[..n], slots), After(s, ops[..n], slots);
      RunOnlyGrows(sh, s, ops[..n], slots);
      if Inserts(now, ops[n]) {
        var hash := Hash(ops[n].key);
        OnlyGrows(mid, now.m, hash, Depth(mid, hash), slots);
        EasyIfSmall(mid, now.m, hash, Depth(mid, hash), slots, cacheBits, b);
      }
      FewBucketsSmooth(sh, s, ops[..n], slots, cacheBits, b);
    }
  }

  // ----- databases and their specification -----

  /** The database stands for the specification's state. */
  ghost predicate StandsFor(db: DatabaseFile, s: Spec)
    reads db, db.space, db.cache
  {
    match db.health
    case Good => db.Valid() && s == Up(db.data)
    case NeedsRecovery => s == Down
    case Dead => false
  }

  /** Nothing is known about a database that needs recovery, except that it answers with errors. */
  ghost predicate Usable(db: DatabaseFile)
    reads db, db.space, db.cache
  {
    db.health != Dead && (db.health == Good ==> db.Valid())
  }

  /** The directory has the shape `sh`, and the cache has not become smaller. */
  ghost predicate Tracks(db: DatabaseFile, sh: Shape, bits: nat)
    reads db, db.cache
  {
    db.health == Good ==> db.ShapeNow() == sh && bits <= db.cache.bits
  }

  /** One operation.  Only a cache that resizes itself can go wrong, and only if a split has
      to evict something from it. */
  method Perform(db: DatabaseFile, op: Operation, ghost s: Spec) returns (a: Answer)
    requires Usable(db)
    modifies db, db.cache, db.space
    ensures db.health != Dead ==> Usable(db)
    ensures (old(db.cache.orphaned) ==> db.cache.orphaned) && (db.health == Good ==> old(db.health) == Good)
    ensures old(StandsFor(db, s)) && (db.health == Good || !(db.cache.auto && db.cache.orphaned)) ==>
              StandsFor(db, Step(s, op, db.slots)) && a == Reply(s, op, db.slots)
    ensures old(StandsFor(db, s)) ==> Tracks(db, NextShape(old(db.ShapeNow()), s, op, db.slots), old(db.cache.bits))
    ensures old(StandsFor(db, s)) && db.cache.auto && !old(db.cache.orphaned)
            && (old(db.health) == Good ==> SmoothStep(old(db.ShapeNow()), s, op, db.slots, old(db.cache.bits))) ==>
              !db.cache.orphaned
  {
    hide DatabaseFile.Valid, Crowded, Widened, Easily, DatabaseFile.ShapeNow;
    match op {
      case StoreKey(k, v, replace) =>
        var rc := db.Store(k, v, replace);
        a := Code(rc);
      case DeleteKey(k) =>
        var rc := db.Delete(k);
        a := Code(rc);
      case FetchKey(k) =>
        var r := db.Fetch(k);
        a := Fetched(r);
    }
  }

  /** A run.  With a cache of fixed size every answer is the specification's.  With one that
      resizes itself the same holds if every split finds room in it, which can be worked out
      from the operations; and in any case as long as the database does not fail. */
  method Run(db: DatabaseFile, ops: seq<Operation>, ghost s: Spec) returns (answers: seq<Answer>)
    requires StandsFor(db, s)
    modifies db, db.cache, db.space
    ensures db.health == Good || !(db.cache.auto && db.cache.orphaned) ==>
              StandsFor(db, After(s, ops, db.slots)) && answers == Replies(s, ops, db.slots)
    ensures !db.cache.auto || (!old(db.cache.orphaned) && Smooth(old(db.ShapeNow()), s, ops, db.slots,
              old(db.cache.bits))) ==>
              StandsFor(db, After(s, ops, db.slots)) && answers == Replies(s, ops, db.slots)
  {
    hide DatabaseFile.Valid, Step, Reply, NextShape, SmoothStep, DatabaseFile.ShapeNow;
    answers := [];
    ghost var sh, bits := db.ShapeNow(), db.cache.bits;
    ghost var easy := db.cache.auto && !db.cache.orphaned && Smooth(sh, s, ops, db.slots, bits);
    var i := 0;
    while i < |ops| && db.health != Dead
      invariant i <= |ops| && (db.health != Dead ==> Usable(db))
      invariant db.health == Good || !(db.cache.auto && db.cache.orphaned) ==>
                  StandsFor(db, After(s, ops[..i], db.slots)) && answers == Replies(s, ops[..i], db.slots)
      invariant easy ==> !db.cache.orphaned && Tracks(db, ShapeAfter(sh, s, ops[..i], db.slots), bits)
    {
      ghost var before, mid := After(s, ops[..i], db.slots), ShapeAfter(sh, s, ops[..i], db.slots);
      assert ops[..i + 1][..i] == ops[..i];
      if easy {
        SmoothSoFar(sh, s, ops, db.slots, bits, i + 1);
        if db.health == Good {
          SmoothStill(mid, before, ops[i], db.slots, bits, db.cache.bits);
        }
      }
      var a := Perform(db, ops[i], before);
      answers := answers + [a];
      i := i + 1;
    }
    assert i == |ops| ==> ops[..i] == ops;
  }

  /** From a new file on: any sequence of operations gives a finite map's answers.  A cache
      size of 0 asks for a cache that resizes itself, which is what gdbm_open sets up. */
  method Session(blockSize: nat, statBlockSize: nat, numsync: bool, cacheSize: bv32, coalesce: bool,
                 centralFree: bool, ops: seq<Operation>)
    returns (answers: seq<Answer>, slots: nat, bits: nat)
    requires statBlockSize >= MIN_BLOCK_SIZE && cacheSize <= 0x8000_0000
    ensures blockSize >= MIN_BLOCK_SIZE ==> DepthFor(blockSize, bits)
    ensures blockSize < MIN_BLOCK_SIZE ==> DepthFor(statBlockSize, bits)
    ensures var n := SIZEOF_OFF_T * Pow2(bits);
            && n >= MIN_BLOCK_SIZE && slots >= 16
            && SIZEOF_HASH_BUCKET + (slots - 1) * SIZEOF_BUCKET_ELEMENT <= n
            && n < SIZEOF_HASH_BUCKET + slots * SIZEOF_BUCKET_ELEMENT
    ensures cacheSize != 0 || Smooth(FirstShape(bits), Up(map[]), ops, slots, CacheBits(cacheSize) as nat) ==>
              answers == Replies(Up(map[]), ops, slots)
  {
    hide DatabaseFile.Valid, Smooth, CacheBits, DatabaseFile.ShapeNow;
    CacheBitsFit(cacheSize);
    var db := new DatabaseFile(blockSize, statBlockSize, numsync, cacheSize == 0, CacheBits(cacheSize) as nat,
        coalesce, centralFree);
    slots, bits := db.slots, db.dirBits;
    db.Healthy();
    answers := Run(db, ops, Up(map[]));
  }
}
