/**
 Runs with snapshots: groups of operations, each followed by gdbm_sync, on a database in fast mode
 with crash tolerance.  Whenever the system crashes, the snapshot that is selected has the map that
 the specification gives after the last group that was synchronised, or after the one whose
 synchronisation was under way.
 */
module CrashRuns {
  import opened Layout
  import opened Database
  import opened Reopen
  import opened Snapshot
  import opened Restore
  import opened Runs

  /** What the specification has come to after the first `j` groups. */
  ghost function Stage(groups: seq<seq<Operation>>, j: nat, slots: nat): Spec
    requires j <= |groups|
  {
    if j == 0 then Up(map[]) else After(Stage(groups, j - 1, slots), groups[j - 1], slots)
  }

  /** `kept[j]` is the database as snapshot number `j` + 1 found it, after `j` groups. */
  ghost predicate Kept(kept: seq<DatabaseFile>, images: seq<seq<Cell>>, groups: seq<seq<Operation>>, slots: nat)
    reads kept, set j | 0 <= j < |kept| :: kept[j].space, set j | 0 <= j < |kept| :: kept[j].cache
  {
    && |kept| == |images| && |kept| <= |groups| + 1
    && forall j :: 0 <= j < |kept| ==> IsKept(kept[j], images[j], groups, j, slots)
  }

  ghost predicate IsKept(w: DatabaseFile, image: seq<Cell>, groups: seq<seq<Operation>>, j: nat, slots: nat)
    requires j <= |groups|
    reads w, w.space, w.cache
  {
    w.Valid() && w.space.file == image && Stage(groups, j, slots) == Up(w.data)
  }

  /** Nothing of `db` belongs to the databases that are kept. */
  ghost predicate Apart(db: DatabaseFile, kept: seq<DatabaseFile>) {
    forall j :: 0 <= j < |kept| ==> kept[j] != db && kept[j].space != db.space && kept[j].cache != db.cache
  }

  /** The clone of a database, as gdbm_open would set it up. */
  method Freeze(db: DatabaseFile) returns (w: DatabaseFile)
    requires db.Valid()
    ensures fresh(w) && fresh(w.space) && fresh(w.cache)
    ensures w.Valid() && w.data == db.data && w.space.file == db.space.file
  {
    hide DatabaseFile.Valid, DatabaseFile.Clonable;
    db.CanBeCloned();
    var h := Header(db.extended, db.space.blockSize, db.dirAdr, |db.dir| * SIZEOF_OFF_T, db.dirBits, db.slots,
                    db.space.nextBlock, AvailBlock(db.space.capacity, db.space.availNext, db.space.avail));
    w := new DatabaseFile.Existing(db.space.file, h, db.dir, true, 9, false, false, db);
  }

  /** The time of the last snapshot before group `i` is synchronised. */
  function LastTime(start: nat, times: seq<nat>, i: nat): nat
    requires i <= |times|
  {
    if i == 0 then start else times[i - 1]
  }

  ghost predicate Ticking(start: nat, times: seq<nat>) {
    forall i :: 0 <= i < |times| ==> LastTime(start, times, i) < times[i]
  }

  /** Between groups: the database is in good state, and the last snapshot is safe. */
  ghost predicate Between(db: DatabaseFile, s: Snapshots, stage: Spec, n: nat, mtime: nat)
    reads db, db.space, db.cache, s
  {
    && db.health == Good && db.Valid() && stage == Up(db.data)
    && s.Idle() && s.Counted() && s.done == n && s.fastWrite && s.files.disk[1 - s.eo].mtime == mtime
  }

  /** One group of operations, and gdbm_sync. */
  method Transaction(db: DatabaseFile, s: Snapshots, group: seq<Operation>, mtime: nat, readable: bool,
                     ghost stage: Spec, ghost before: nat) returns (ok: bool, w: DatabaseFile?)
    requires Between(db, s, stage, s.done, before) && before < mtime
    modifies db, db.cache, db.space, s
    ensures ok ==> Between(db, s, After(stage, group, db.slots), old(s.done) + 1, mtime)
    ensures ok ==> s.images == old(s.images) + [db.space.file]
    ensures ok ==> w != null && fresh(w) && fresh(w.space) && fresh(w.cache)
    ensures ok ==> w.Valid() && w.space.file == db.space.file && w.data == db.data
    ensures !ok ==> s.Idle() && s.done == old(s.done) && s.images == old(s.images)
    ensures !ok && !db.cache.auto ==> After(stage, group, db.slots).Down?
  {
    hide DatabaseFile.Valid, After, Safe, Recent, DatabaseFile.ShapeNow, Smooth, Replies;
    w := null;
    var answers := Run(db, group, stage);
    ok := db.health == Good;
    if ok {
      s.Sync(mtime, mtime + 1, readable, db.space.file);
      w := Freeze(db);
    }
  }

  /** A new database with crash tolerance: a first snapshot of nothing. */
  method Begin(blockSize: nat, statBlockSize: nat, extended: bool, auto: bool, cacheBits: nat, coalesce: bool,
               centralFree: bool, numsync: nat, start: nat, readable: bool)
    returns (db: DatabaseFile, s: Snapshots, w: DatabaseFile)
    requires statBlockSize >= MIN_BLOCK_SIZE && 2 <= cacheBits <= HASH_BITS && numsync <= UINT_MAX
    ensures fresh(db) && fresh(db.space) && fresh(db.cache) && fresh(s) && fresh(w) && fresh(w.space) && fresh(w.cache)
    ensures w != db && w.space != db.space && w.cache != db.cache && db.cache.auto == auto
    ensures Between(db, s, Up(map[]), 1, start) && s.images == [db.space.file]
    ensures w.Valid() && w.space.file == db.space.file && w.data == map[]
  {
    hide DatabaseFile.Valid, Safe, Recent, DatabaseFile.ShapeNow, DatabaseFile.Blank;
    db := new DatabaseFile(blockSize, statBlockSize, extended, auto, cacheBits, coalesce, centralFree);
    s := new Snapshots(extended, true, numsync, start, readable, db.space.file);
    w := Freeze(db);
    db.Healthy();
  }

  /** `i` groups have been carried out and synchronised. */
  ghost predicate Underway(db: DatabaseFile, s: Snapshots, kept: seq<DatabaseFile>, groups: seq<seq<Operation>>, i: nat,
                           mtime: nat)
    reads db, db.space, db.cache, s
    reads kept, set j | 0 <= j < |kept| :: kept[j].space, set j | 0 <= j < |kept| :: kept[j].cache
  {
    && i <= |groups| && Between(db, s, Stage(groups, i, db.slots), i + 1, mtime)
    && Apart(db, kept) && Kept(kept, s.images, groups, db.slots)
  }

  /** One more group. */
  method Advance(db: DatabaseFile, s: Snapshots, ghost kept: seq<DatabaseFile>, groups: seq<seq<Operation>>, i: nat,
                 mtime: nat, readable: bool, ghost before: nat) returns (ok: bool, ghost kept': seq<DatabaseFile>)
    requires i < |groups| && before < mtime && Underway(db, s, kept, groups, i, before)
    modifies db, db.cache, db.space, s
    ensures ok ==> Underway(db, s, kept', groups, i + 1, mtime)
    ensures !ok ==> s.Idle() && s.done == i + 1 && Kept(kept', s.images, groups, db.slots)
    ensures !ok && !db.cache.auto ==> Stage(groups, i + 1, db.slots).Down?
  {
    hide DatabaseFile.Valid, After, IsKept, Snapshots.Counted, Safe;
    ghost var images, slots := s.images, db.slots;
    var w;
    ok, w := Transaction(db, s, groups[i], mtime, readable, Stage(groups, i, slots), before);
    assert forall j :: 0 <= j < |kept| ==> IsKept(kept[j], images[j], groups, j, slots);
    kept' := kept;
    if ok {
      OneKept(w, db.space.file, groups, i + 1, slots);
      kept' := kept + [w];
    }
  }

  /** The groups are carried out and synchronised one after the other, until the database fails. */
  method Transactions(blockSize: nat, statBlockSize: nat, extended: bool, auto: bool, cacheBits: nat, coalesce: bool,
                      centralFree: bool, numsync: nat, start: nat, readable: bool, groups: seq<seq<Operation>>,
                      times: seq<nat>)
    returns (s: Snapshots, slots: nat, done: nat, ghost kept: seq<DatabaseFile>)
    requires statBlockSize >= MIN_BLOCK_SIZE && 2 <= cacheBits <= HASH_BITS && numsync <= UINT_MAX
    requires |times| == |groups| && Ticking(start, times)
    ensures done <= |groups| && s.Idle() && s.done == done + 1 && Kept(kept, s.images, groups, slots)
    ensures !auto && done < |groups| ==> Stage(groups, done + 1, slots).Down?
  {
    hide Underway, Kept, Stage, Snapshots.Idle;
    var db;
    db, s, kept := Start(blockSize, statBlockSize, extended, auto, cacheBits, coalesce, centralFree, numsync, start,
                         readable, groups);
    slots := db.slots;
    done := 0;
    while done < |groups|
      invariant done <= |groups| && fresh(s) && fresh(db) && fresh(db.space) && fresh(db.cache)
      invariant db.slots == slots && db.cache.auto == auto
      invariant Underway(db, s, kept, groups, done, LastTime(start, times, done))
    {
      assert LastTime(start, times, done) < times[done];
      var ok;
      ok, kept := Advance(db, s, kept, groups, done, times[done], readable, LastTime(start, times, done));
      if !ok {
        return;
      }
      done := done + 1;
    }
    Finished(db, s, kept, groups, done, LastTime(start, times, done));
  }

  method Start(blockSize: nat, statBlockSize: nat, extended: bool, auto: bool, cacheBits: nat, coalesce: bool,
               centralFree: bool, numsync: nat, start: nat, readable: bool, groups: seq<seq<Operation>>)
    returns (db: DatabaseFile, s: Snapshots, ghost kept: seq<DatabaseFile>)
    requires statBlockSize >= MIN_BLOCK_SIZE && 2 <= cacheBits <= HASH_BITS && numsync <= UINT_MAX
    ensures fresh(db) && fresh(db.space) && fresh(db.cache) && fresh(s) && db.cache.auto == auto
    ensures Underway(db, s, kept, groups, 0, start)
  {
    hide DatabaseFile.Valid, IsKept, Snapshots.Counted, Safe;
    var w;
    db, s, w := Begin(blockSize, statBlockSize, extended, auto, cacheBits, coalesce, centralFree, numsync, start,
                      readable);
    OneKept(w, db.space.file, groups, 0, db.slots);
    kept := [w];
  }

  lemma Finished(db: DatabaseFile, s: Snapshots, kept: seq<DatabaseFile>, groups: seq<seq<Operation>>, i: nat,
                 mtime: nat)
    requires Underway(db, s, kept, groups, i, mtime)
    ensures s.Idle() && s.done == i + 1 && Kept(kept, s.images, groups, db.slots)
  {
    hide DatabaseFile.Valid;
  }

  lemma OneKept(w: DatabaseFile, image: seq<Cell>, groups: seq<seq<Operation>>, j: nat, slots: nat)
    requires j <= |groups| && w.Valid() && w.space.file == image && Stage(groups, j, slots) == Up(w.data)
    ensures IsKept(w, image, groups, j, slots)
  {
  }

  /** A crash at moment `k`, of which `f` is what is found on disk. */
  method AfterCrash(s: Snapshots, k: nat, f: seq<SnapFile>, auto: bool, cacheBits: nat, coalesce: bool,
                    centralFree: bool, ghost kept: seq<DatabaseFile>, ghost groups: seq<seq<Operation>>,
                    ghost slots: nat)
    returns (rc: OpenStatus, db: DatabaseFile?, ghost j: nat)
    requires s.Idle() && Kept(kept, s.images, groups, slots) && 2 <= cacheBits <= HASH_BITS
    requires k < |s.trace| && s.trace[k].done > 0 && Outcome(s.trace[k].files, f)
    ensures j <= |groups| && j + 1 in {s.trace[k].done, |s.trace[k].images|} && j < |kept|
    ensures rc == Opened <==> kept[j].dirAdr + |kept[j].dir| * SIZEOF_OFF_T < |kept[j].space.file|
    ensures rc == Opened ==> db != null && db.Valid() && Stage(groups, j, slots) == Up(db.data)
  {
    hide DatabaseFile.Valid, DatabaseFile.Clonable, Safe, Outcome, Found, Recent, After;
    var m := s.trace[k];
    SafeMeans(m, f);
    ghost var last, next := kept[m.done - 1], kept[|m.images| - 1];
    last.CanBeCloned();
    next.CanBeCloned();
    rc, db := OpenLatest(f, auto, cacheBits, coalesce, centralFree, m.done, m.images, last, next);
    j := if ChosenId(f) == m.done then m.done - 1 else |m.images| - 1;
  }
}
