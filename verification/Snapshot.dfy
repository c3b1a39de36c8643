/**
 The crash-tolerance protocol (src/gdbmsync.c).  Two snapshot files take turns; a file's
 permission bits say whether it holds a complete clone of the database.  A crash may strike
 after any system call, and what reached the disk by then is any mixture of what had been
 synchronised and what had not.
 */
module Snapshot {
  import opened Layout

  // ----- the files -----

  /** Type and owner permission bits of a file. */
  datatype Mode = Mode(regular: bool, r: bool, w: bool, x: bool)

  const MISSING := Mode(false, false, false, false)    // there is no such file
  const WRITE_ONLY := Mode(true, false, true, false)   // S_IWUSR
  const READ_ONLY := Mode(true, true, false, false)    // S_IRUSR

  /** What a snapshot file holds: nothing, part of a clone, or the clone made by snapshot `id`, cell
      for cell.  `numsync` is what gdbm_numsync reads from it, if it can. */
  datatype Clone = Blank | Torn | Whole(id: nat, numsync: Option<nat>, cells: seq<Cell>)

  datatype SnapFile = SnapFile(mode: Mode, content: Clone, mtime: nat)

  /** The two files, as the running system sees them and as they are on disk. */
  datatype Files = Files(seen: seq<SnapFile>, disk: seq<SnapFile>)

  ghost predicate Survives(seen: SnapFile, disk: SnapFile, f: SnapFile) {
    && f.mode in {seen.mode, disk.mode}
    && ((f.content == seen.content && f.mtime == seen.mtime) || (f.content == disk.content && f.mtime == disk.mtime)
        || (seen.content != disk.content && f.content == Torn))
  }

  /** `f` is what may be found after a crash. */
  ghost predicate Outcome(s: Files, f: seq<SnapFile>) {
    |s.seen| == 2 && |s.disk| == 2 && |f| == 2 && forall i :: 0 <= i < 2 ==> Survives(s.seen[i], s.disk[i], f[i])
  }

  // ----- choosing a snapshot -----

  const UINT_MAX: nat := 0xffff_ffff

  datatype Verdict = Ok(file: nat) | Bad | Same | Suspicious | Err

  /** check_snapshot_mode */
  predicate ModeOk(m: Mode) {
    m.regular && !m.x && (if m.r then !m.w else m.w)
  }

  function Numsync(c: Clone): Option<nat> {
    if c.Whole? then c.numsync else None
  }

  /** gdbm_numsync_cmp */
  function NumsyncCmp(a: Clone, b: Clone): int {
    if Numsync(a).Some? && Numsync(b).Some? then
      var na, nb := Numsync(a).value, Numsync(b).value;
      if na == UINT_MAX && nb == 0 then -1
      else if na == 0 && nb == UINT_MAX then 1
      else if na < nb then (if na + 1 == nb then -1 else -2)
      else if na > nb then (if na == nb + 1 then 1 else 2)
      else 0
    else 0
  }

  /** gdbm_latest_snapshot for two different file names */
  function Latest(even: SnapFile, odd: SnapFile): Verdict {
    if !ModeOk(even.mode) || !ModeOk(odd.mode) then Err
    else if even.mode.r then
      if !odd.mode.r then Ok(0)
      else
        var c := NumsyncCmp(even.content, odd.content);
        if c == -1 then Ok(1)
        else if c == 1 then Ok(0)
        else if c == -2 || c == 2 then Suspicious
        else if even.mtime < odd.mtime then Ok(1)
        else if even.mtime > odd.mtime then Ok(0)
        else Same
    else if odd.mode.r then Ok(1)
    else Bad
  }

  /** Two clones that can both be read: `b` is taken for the later one exactly when its count is
      the successor, modulo 2^32, of `a`'s, or when the counts do not tell and its time does. */
  lemma LaterChosen(a: SnapFile, b: SnapFile)
    requires a.mode == READ_ONLY && b.mode == READ_ONLY
    requires forall n :: n in {Numsync(a.content), Numsync(b.content)} && n.Some? ==> n.value <= UINT_MAX
    ensures Latest(a, b) == Ok(1) <==> Later(a, b)
    ensures Latest(b, a) == Ok(0) <==> Later(a, b)
  {
  }

  /** Every verdict: a file that is not in one of the two states of the protocol is an error, none
      to recover from is bad, and two are told apart unless their counts are more than one step
      apart or neither counts nor times differ. */
  lemma Verdicts(a: SnapFile, b: SnapFile)
    requires forall n :: n in {Numsync(a.content), Numsync(b.content)} && n.Some? ==> n.value <= UINT_MAX
    ensures Latest(a, b) == Err <==> a.mode !in {WRITE_ONLY, READ_ONLY} || b.mode !in {WRITE_ONLY, READ_ONLY}
    ensures Latest(a, b) == Bad <==> a.mode == WRITE_ONLY && b.mode == WRITE_ONLY
    ensures Latest(a, b) == Ok(0) <==> Preferred(a, b)
    ensures Latest(a, b) == Ok(1) <==> Preferred(b, a)
    ensures Latest(a, b) == Same <==> BothReadable(a, b) && !CountsDiffer(a, b) && a.mtime == b.mtime
    ensures Latest(a, b) == Suspicious <==> BothReadable(a, b) && CountsDiffer(a, b) && !Later(a, b) && !Later(b, a)
  {
    ModeStates(a.mode);
    ModeStates(b.mode);
    if BothReadable(a, b) {
      LaterChosen(a, b);
      LaterChosen(b, a);
    }
  }

  /** The protocol's two states are all that check_snapshot_mode accepts. */
  lemma ModeStates(m: Mode)
    ensures ModeOk(m) <==> m in {WRITE_ONLY, READ_ONLY}
    ensures !ModeOk(MISSING)
  {
  }

  ghost predicate BothReadable(a: SnapFile, b: SnapFile) {
    a.mode == READ_ONLY && b.mode == READ_ONLY
  }

  /** `a` can be recovered from, and `b` cannot or is the earlier one. */
  ghost predicate Preferred(a: SnapFile, b: SnapFile) {
    a.mode == READ_ONLY && (b.mode == WRITE_ONLY || (b.mode == READ_ONLY && Later(b, a)))
  }

  /** Both counts can be read, and they are different. */
  ghost predicate CountsDiffer(a: SnapFile, b: SnapFile) {
    Numsync(a.content).Some? && Numsync(b.content).Some? && Numsync(a.content) != Numsync(b.content)
  }

  ghost predicate Later(a: SnapFile, b: SnapFile) {
    var na, nb := Numsync(a.content), Numsync(b.content);
    if CountsDiffer(a, b) then nb.value == (na.value + 1) % (UINT_MAX + 1)
    else a.mtime < b.mtime
  }

  // ----- the protocol -----

  /** A moment at which a crash may strike: so many snapshots have been completed, and `images`
      are the database files cloned by these and by the one that has begun, if any. */
  datatype Moment = Moment(files: Files, done: nat, images: seq<seq<Cell>>)

  /** What recovery is to find: the whole clone of the last snapshot or of the one being made.
      Before the first snapshot is complete it may find none: it reports an error while a file is
      missing, and bad snapshots from then on. */
  ghost predicate Recovered(f: seq<SnapFile>, done: nat, images: seq<seq<Cell>>)
    requires |f| == 2
  {
    match Latest(f[0], f[1])
    case Ok(file) => file < 2 && IsClone(f[file], done, images)
    case Bad => done == 0 && !Absent(f)
    case Err => done == 0 && images == [] && Absent(f)
    case Same => false
    case Suspicious => false
  }

  ghost predicate Absent(f: seq<SnapFile>)
    requires |f| == 2
  {
    f[0].mode == MISSING || f[1].mode == MISSING
  }

  /** The file is, cell for cell, the database as it was when that snapshot was taken. */
  ghost predicate IsClone(f: SnapFile, done: nat, images: seq<seq<Cell>>) {
    && f.content.Whole? && f.content.id in {done, |images|} && 0 < f.content.id <= |images|
    && f.content.cells == images[f.content.id - 1]
  }

  ghost predicate Safe(m: Moment) {
    forall f: seq<SnapFile> :: Outcome(m.files, f) ==> Recovered(f, m.done, m.images)
  }

  /** Whatever reached the disk, recovery comes to this verdict. */
  ghost predicate LeadsTo(files: Files, v: Verdict) {
    forall f: seq<SnapFile> :: Outcome(files, f) ==> Latest(f[0], f[1]) == v
  }

  class Snapshots {
    const extended: bool      // the database has an extended header
    const fastWrite: bool
    var eo: nat
    var files: Files
    var numsync: nat
    var done: nat             // snapshots completed
    ghost var images: seq<seq<Cell>>   // the database as each snapshot found it
    ghost var trace: seq<Moment>

    /** Every moment so far was safe. */
    ghost predicate AllSafe()
      reads this
    {
      forall k :: 0 <= k < |trace| ==>
        Safe(trace[k]) && trace[k].images <= images && trace[k].done <= |trace[k].images|
    }

    /** Between snapshots: everything is on disk, the file to be written next is not to be
        recovered from, and the other one holds the last clone. */
    ghost predicate Idle()
      reads this
    {
      && eo <= 1 && |files.disk| == 2 && files.seen == files.disk && numsync <= UINT_MAX && |images| == done
      && files.disk[eo].mode == WRITE_ONLY
      && LastClone(files.disk[1 - eo], done, images) && |trace| == 4 + 9 * done
      && (done > 0 && Numsync(files.disk[1 - eo].content).Some? ==>
            extended && Recent(Numsync(files.disk[1 - eo].content).value, numsync))
      && AllSafe()
    }

    /** The last snapshot has the count the database has now. */
    ghost predicate Counted()
      reads this
    {
      eo <= 1 && |files.disk| == 2
      && (done > 0 && Numsync(files.disk[1 - eo].content).Some? ==>
            Numsync(files.disk[1 - eo].content).value == numsync)
    }

    method FChmod(i: nat, mode: Mode)
      requires i < 2 && |files.seen| == 2 && |files.disk| == 2
      modifies this`files, this`trace
      ensures files == old(files).(seen := old(files).seen[i := old(files).seen[i].(mode := mode)])
      ensures trace == old(trace) + [Moment(files, done, images)]
    {
      files := files.(seen := files.seen[i := files.seen[i].(mode := mode)]);
      trace := trace + [Moment(files, done, images)];
    }

    method FSync(i: nat)
      requires i < 2 && |files.seen| == 2 && |files.disk| == 2
      modifies this`files, this`trace
      ensures files == old(files).(disk := old(files).disk[i := old(files).seen[i]])
      ensures trace == old(trace) + [Moment(files, done, images)]
    {
      files := files.(disk := files.disk[i := files.seen[i]]);
      trace := trace + [Moment(files, done, images)];
    }

    /** ioctl FICLONE */
    method FiClone(i: nat, clone: Clone, mtime: nat)
      requires i < 2 && |files.seen| == 2 && |files.disk| == 2
      modifies this`files, this`trace
      ensures files == old(files).(seen := old(files).seen[i := old(files).seen[i].(content := clone, mtime := mtime)])
      ensures trace == old(trace) + [Moment(files, done, images)]
    {
      files := files.(seen := files.seen[i := files.seen[i].(content := clone, mtime := mtime)]);
      trace := trace + [Moment(files, done, images)];
    }

    /** The first half of _gdbm_snapshot: the clone is made in file `s`, which is marked as not to
        be recovered from. */
    method WriteClone(s: nat, clone: Clone, mtime: nat)
      requires s <= 1 && |files.disk| == 2 && files.seen == files.disk && files.disk[s].mode == WRITE_ONLY && AllSafe()
      requires |images| == done + 1 && LastClone(files.disk[1 - s], done, images)
      modifies this`files, this`trace
      ensures files.seen == files.disk && files.disk == old(files.disk)[s := SnapFile(WRITE_ONLY, clone, mtime)]
      ensures AllSafe() && old(trace) <= trace && |trace| == |old(trace)| + 4
      ensures forall k :: |old(trace)| <= k < |trace| ==>
                LeadsTo(trace[k].files, if done == 0 then Bad else Ok(1 - s))
    {
      hide Safe, LeadsTo;
      ghost var last := files.disk[1 - s];
      FChmod(s, WRITE_ONLY);
      BeforeCommit(files, s, last, done, images);
      FSync(s);
      BeforeCommit(files, s, last, done, images);
      FiClone(s, clone, mtime);
      BeforeCommit(files, s, last, done, images);
      FSync(s);
      BeforeCommit(files, s, last, done, images);
    }

    /** The second half: the new clone is marked as good, and then the old one as obsolete.  From
        the moment that the first mark is on disk, it is the new clone that recovery takes. */
    method CommitClone(s: nat, clone: Clone, mtime: nat)
      requires s <= 1 && |files.disk| == 2 && files.seen == files.disk
      requires files.disk[s] == SnapFile(WRITE_ONLY, clone, mtime) && AllSafe()
      requires |images| == done + 1 && IsClone(files.disk[s], done + 1, images)
      requires LastClone(files.disk[1 - s], done, images)
      requires numsync <= UINT_MAX && (clone.numsync.Some? ==> clone.numsync.value == numsync) && clone.id == done + 1
      requires Precedes(files.disk[1 - s], done, mtime, numsync)
      modifies this`files, this`trace
      ensures files.seen == files.disk && |files.disk| == 2
      ensures files.disk[s] == SnapFile(READ_ONLY, clone, mtime) && files.disk[1 - s].mode == WRITE_ONLY
      ensures AllSafe() && old(trace) <= trace && |trace| == |old(trace)| + 4
      ensures forall k :: |old(trace)| < k < |trace| ==> LeadsTo(trace[k].files, Ok(s))
    {
      hide Safe, Recent, LeadsTo;
      ghost var last := files.disk[1 - s];
      FChmod(s, READ_ONLY);
      Committing(files, s, last, clone, mtime, done, images, numsync);
      FSync(s);
      Committing(files, s, last, clone, mtime, done, images, numsync);
      FChmod(1 - s, WRITE_ONLY);
      Committing(files, s, last, clone, mtime, done, images, numsync);
      FSync(1 - s);
      Committing(files, s, last, clone, mtime, done, images, numsync);
    }

    /** _gdbm_snapshot of the database `cells` at time `mtime`; `readable` says whether gdbm_numsync
        will be able to open the clone. */
    method TakeSnapshot(mtime: nat, readable: bool, cells: seq<Cell>)
      requires Idle() && (done > 0 ==> files.disk[1 - eo].mtime < mtime)
      modifies this`eo, this`files, this`done, this`images, this`trace
      ensures Idle() && Counted() && done == old(done) + 1 && files.disk[1 - eo].mtime == mtime && old(trace) < trace
      ensures eo == 1 - old(eo) && |trace| == |old(trace)| + 9 && images == old(images) + [cells]
      ensures forall k :: |old(trace)| <= k < |old(trace)| + 4 ==>
                LeadsTo(trace[k].files, if done == 1 then Bad else Ok(eo))
      ensures forall k :: |old(trace)| + 4 < k < |trace| ==> LeadsTo(trace[k].files, Ok(1 - eo))
    {
      hide Safe, Recent, LeadsTo;
      var clone := Whole(done + 1, if extended && readable then Some(numsync) else None, cells);
      var s := eo;
      eo := 1 - eo;
      images := images + [cells];
      WriteClone(s, clone, mtime);
      CommitClone(s, clone, mtime);
      done := done + 1;
      Committed(files, s, clone, done, images);
      SameCount(numsync);
      trace := trace + [Moment(files, done, images)];
    }

    /** gdbm_file_sync, as an update does it when the database is not in fast mode */
    method FileSync(mtime: nat, readable: bool, cells: seq<Cell>)
      requires Idle() && Counted() && (done > 0 ==> files.disk[1 - eo].mtime < mtime)
      modifies this`eo, this`files, this`done, this`images, this`trace
      ensures Idle() && Counted() && done == old(done) + 1 && files.disk[1 - eo].mtime == mtime && old(trace) < trace
      ensures images == old(images) + [cells]
    {
      TakeSnapshot(mtime, readable, cells);
    }

    /** gdbm_sync: the count goes up by one, modulo 2^32, and the header that holds it is written;
        outside fast mode that write takes a snapshot of its own. */
    method Sync(mtime: nat, mtime': nat, readable: bool, cells: seq<Cell>)
      requires Idle() && Counted() && (done > 0 ==> files.disk[1 - eo].mtime < mtime) && mtime < mtime'
      modifies this`eo, this`files, this`done, this`images, this`trace, this`numsync
      ensures Idle() && Counted() && files.disk[1 - eo].mtime <= mtime' && old(trace) < trace
      ensures numsync == if extended then (old(numsync) + 1) % (UINT_MAX + 1) else old(numsync)
      ensures done == old(done) + if extended && !fastWrite then 2 else 1
      ensures images == old(images) + if extended && !fastWrite then [cells, cells] else [cells]
      ensures files.disk[1 - eo].mtime == if extended && !fastWrite then mtime' else mtime
    {
      if extended {
        numsync := if numsync == UINT_MAX then 0 else numsync + 1;
      }
      if extended && !fastWrite {
        TakeSnapshot(mtime, readable, cells);
        TakeSnapshot(mtime', readable, cells);
      } else {
        TakeSnapshot(mtime, readable, cells);
      }
    }

    method Happen(e: Event)
      requires Idle() && Counted() && (done > 0 ==> files.disk[1 - eo].mtime < e.mtime)
      requires e.Synchronize? ==> e.mtime < e.mtime'
      modifies this`eo, this`files, this`done, this`images, this`trace, this`numsync
      ensures Idle() && Counted() && done > old(done) && files.disk[1 - eo].mtime <= EventEnd(e)
      ensures images == old(images) + EventImages(e, extended && !fastWrite)
    {
      hide Safe, Recent;
      match e {
        case Update(mtime, r, c) => FileSync(mtime, r, c);
        case Synchronize(mtime, mtime', r, c) => Sync(mtime, mtime', r, c);
      }
    }

    /** open with O_CREAT | O_EXCL */
    method Create(i: nat)
      requires i < 2 && |files.seen| == 2 && |files.disk| == 2
      modifies this`files, this`trace
      ensures files == old(files).(seen := old(files).seen[i := SnapFile(WRITE_ONLY, Blank, 0)])
      ensures trace == old(trace) + [Moment(files, done, images)]
    {
      files := files.(seen := files.seen[i := SnapFile(WRITE_ONLY, Blank, 0)]);
      trace := trace + [Moment(files, done, images)];
    }

    /** The first half of gdbm_failure_atomic: two new, empty files that are not to be recovered
        from, made durable up to the root. */
    method CreateFiles()
      requires done == 0 && images == [] && trace == [] && files == NoFiles()
      modifies this`files, this`trace
      ensures files == Files([EMPTY, EMPTY], [EMPTY, EMPTY]) && AllSafe() && |trace| == 4
      ensures LeadsTo(trace[0].files, Err) && LeadsTo(trace[3].files, Bad)
    {
      hide Safe;
      Create(0);
      NothingYet(files);
      Create(1);
      NothingYet(files);
      FSync(0);
      NothingYet(files);
      FSync(1);
      NothingYet(files);
    }

    /** gdbm_failure_atomic: the two files, and a first snapshot. */
    constructor (extended: bool, fastWrite: bool, numsync: nat, mtime: nat, readable: bool, cells: seq<Cell>)
      requires numsync <= UINT_MAX
      ensures Idle() && Counted() && done == 1 && this.extended == extended && this.fastWrite == fastWrite
      ensures files.disk[1 - eo].mtime == mtime && images == [cells] && |trace| == 13
    {
      this.extended, this.fastWrite, this.numsync := extended, fastWrite, numsync;
      eo, files, done := 0, NoFiles(), 0;
      images, trace := [], [];
      new;
      CreateFiles();
      TakeSnapshot(mtime, readable, cells);
    }
  }

  // ----- runs -----

  datatype Event =
    | Update(mtime: nat, readable: bool, cells: seq<Cell>)
    | Synchronize(mtime: nat, mtime': nat, readable: bool, cells: seq<Cell>)

  function EventEnd(e: Event): nat {
    if e.Update? then e.mtime else e.mtime'
  }

  /** The database files that an event clones. */
  function EventImages(e: Event, twice: bool): seq<seq<Cell>> {
    if e.Synchronize? && twice then [e.cells, e.cells] else [e.cells]
  }

  function AllImages(events: seq<Event>, twice: bool): seq<seq<Cell>> {
    if |events| == 0 then []
    else AllImages(events[..|events| - 1], twice) + EventImages(events[|events| - 1], twice)
  }

  /** When the last clone before event `i` was made, at the latest. */
  function Before(events: seq<Event>, start: nat, i: nat): nat
    requires i <= |events|
  {
    if i == 0 then start else EventEnd(events[i - 1])
  }

  ghost predicate InTime(events: seq<Event>, start: nat, i: nat)
    requires i < |events|
  {
    Before(events, start, i) < events[i].mtime && (events[i].Synchronize? ==> events[i].mtime < events[i].mtime')
  }

  /** The clock never stands still between two clones. */
  ghost predicate Ordered(events: seq<Event>, start: nat) {
    forall i :: 0 <= i < |events| ==> InTime(events, start, i)
  }

  /** Any number of updates and synchronisations after gdbm_failure_atomic, with any starting
      count: whatever the moment of the crash and whatever reached the disk, recovery finds the
      database, cell for cell, as the last snapshot or the one under way has found it. */
  method CrashAnywhere(extended: bool, fastWrite: bool, numsync: nat, start: nat, readable: bool, cells: seq<Cell>,
                       events: seq<Event>)
    returns (s: Snapshots)
    requires numsync <= UINT_MAX && Ordered(events, start)
    ensures s.Idle() && s.done > |events| && s.images == [cells] + AllImages(events, extended && !fastWrite)
    ensures |s.trace| == 4 + 9 * s.done
    ensures forall k, f :: 0 <= k < |s.trace| && s.trace[k].done > 0 && Outcome(s.trace[k].files, f) ==>
              Found(f, s.trace[k].done, s.trace[k].images) && s.trace[k].images <= s.images
    ensures forall k :: 0 <= k < |s.trace| ==> Safe(s.trace[k])
  {
    hide Safe, Outcome, Recent, Found, IsClone;
    s := new Snapshots(extended, fastWrite, numsync, start, readable, cells);
    var i := 0;
    ghost var twice := extended && !fastWrite;
    while i < |events|
      invariant i <= |events| && s.Idle() && s.Counted() && s.done > i && fresh(s) && s.extended == extended
      invariant s.fastWrite == fastWrite
      invariant s.files.disk[1 - s.eo].mtime <= Before(events, start, i)
      invariant s.images == [cells] + AllImages(events[..i], twice)
    {
      assert events[..i + 1][..i] == events[..i];
      assert InTime(events, start, i);
      s.Happen(events[i]);
      i := i + 1;
    }
    assert events[..i] == events;
    forall k, f | 0 <= k < |s.trace| && s.trace[k].done > 0 && Outcome(s.trace[k].files, f)
      ensures Found(f, s.trace[k].done, s.trace[k].images)
    {
      SafeMeans(s.trace[k], f);
    }
  }

  /** Recovery finds a file to recover from, and that is such a clone. */
  ghost predicate Found(f: seq<SnapFile>, done: nat, images: seq<seq<Cell>>) {
    && |f| == 2 && Latest(f[0], f[1]).Ok? && Latest(f[0], f[1]).file < 2
    && IsClone(f[Latest(f[0], f[1]).file], done, images)
  }

  lemma SafeMeans(m: Moment, f: seq<SnapFile>)
    requires Safe(m) && Outcome(m.files, f) && m.done > 0
    ensures Found(f, m.done, m.images)
  {
  }

  const EMPTY := SnapFile(WRITE_ONLY, Blank, 0)

  function NoFiles(): Files {
    var none := SnapFile(MISSING, Blank, 0);
    Files([none, none], [none, none])
  }

  /** Files that are missing, or not to be recovered from. */
  lemma NothingYet(files: Files)
    requires |files.seen| == 2 && |files.disk| == 2
    requires forall i :: 0 <= i < 2 ==>
              files.seen[i].mode in {MISSING, WRITE_ONLY} && files.disk[i].mode in {MISSING, WRITE_ONLY}
    ensures Safe(Moment(files, 0, []))
  {
    forall f: seq<SnapFile> | Outcome(files, f)
      ensures Recovered(f, 0, [])
    {
      assert Survives(files.seen[0], files.disk[0], f[0]) && Survives(files.seen[1], files.disk[1], f[1]);
    }
  }

  /** The file that was written last: not to be recovered from yet, or the last clone. */
  ghost predicate LastClone(f: SnapFile, done: nat, images: seq<seq<Cell>>) {
    if done == 0 then f.mode == WRITE_ONLY
    else
      && f.mode == READ_ONLY && f.content.Whole? && f.content.id == done
      && done <= |images| && f.content.cells == images[done - 1]
  }

  /** It is older than a clone made at `mtime` with the count `numsync`. */
  ghost predicate Precedes(f: SnapFile, done: nat, mtime: nat, numsync: nat) {
    done > 0 ==> f.mtime < mtime && (Numsync(f.content).Some? ==> Recent(Numsync(f.content).value, numsync))
  }

  lemma SameCount(n: nat)
    requires n <= UINT_MAX
    ensures Recent(n, n)
  {
  }

  /** As long as the new clone is not marked, recovery takes the old one. */
  lemma BeforeCommit(files: Files, s: nat, last: SnapFile, done: nat, images: seq<seq<Cell>>)
    requires s <= 1 && |files.seen| == 2 && |files.disk| == 2 && files.seen[1 - s] == last && files.disk[1 - s] == last
    requires files.seen[s].mode == WRITE_ONLY && files.disk[s].mode == WRITE_ONLY && LastClone(last, done, images)
    ensures Safe(Moment(files, done, images)) && LeadsTo(files, if done == 0 then Bad else Ok(1 - s))
  {
    forall f: seq<SnapFile> | Outcome(files, f)
      ensures Recovered(f, done, images) && Latest(f[0], f[1]) == if done == 0 then Bad else Ok(1 - s)
    {
      assert Survives(files.seen[s], files.disk[s], f[s]) && Survives(files.seen[1 - s], files.disk[1 - s], f[1 - s]);
    }
  }

  /** While the marks change, both clones are whole and the newer one can be told. */
  lemma Committing(files: Files, s: nat, last: SnapFile, clone: Clone, mtime: nat, done: nat, images: seq<seq<Cell>>,
                   numsync: nat)
    requires s <= 1 && |files.seen| == 2 && |files.disk| == 2 && numsync <= UINT_MAX && |images| == done + 1
    requires clone.Whole? && clone.id == done + 1 && clone.cells == images[done]
    requires (clone.numsync.Some? ==> clone.numsync.value == numsync)
    requires forall f :: f in {files.seen[s], files.disk[s]} ==>
              f.content == clone && f.mtime == mtime && f.mode in {WRITE_ONLY, READ_ONLY}
    requires forall f :: f in {files.seen[1 - s], files.disk[1 - s]} ==>
              f.content == last.content && f.mtime == last.mtime && f.mode in {WRITE_ONLY, READ_ONLY}
    requires (files.seen[s].mode == READ_ONLY && files.disk[s].mode == READ_ONLY) ||
             (files.seen[1 - s] == last && files.disk[1 - s] == last)
    requires LastClone(last, done, images) && Precedes(last, done, mtime, numsync)
    requires done == 0 ==> files.seen[1 - s].mode == WRITE_ONLY && files.disk[1 - s].mode == WRITE_ONLY
    ensures Safe(Moment(files, done, images))
    ensures files.seen[s].mode == READ_ONLY && files.disk[s].mode == READ_ONLY ==> LeadsTo(files, Ok(s))
  {
    forall f: seq<SnapFile> | Outcome(files, f)
      ensures Recovered(f, done, images) && (f[s].mode == READ_ONLY ==> Latest(f[0], f[1]) == Ok(s))
      ensures f[s].mode in {files.seen[s].mode, files.disk[s].mode}
    {
      assert Survives(files.seen[s], files.disk[s], f[s]) && Survives(files.seen[1 - s], files.disk[1 - s], f[1 - s]);
      BothWhole(f, s, clone, mtime, last, done, images, numsync);
    }
  }

  lemma BothWhole(f: seq<SnapFile>, s: nat, clone: Clone, mtime: nat, last: SnapFile, done: nat,
                  images: seq<seq<Cell>>, numsync: nat)
    requires s <= 1 && |f| == 2 && numsync <= UINT_MAX && |images| == done + 1
    requires clone.Whole? && clone.id == done + 1 && clone.cells == images[done]
    requires (clone.numsync.Some? ==> clone.numsync.value == numsync)
    requires f[s].content == clone && f[s].mtime == mtime && f[s].mode in {WRITE_ONLY, READ_ONLY}
    requires f[1 - s].content == last.content && f[1 - s].mtime == last.mtime
    requires f[1 - s].mode in {WRITE_ONLY, READ_ONLY}
    requires f[s].mode == READ_ONLY || f[1 - s] == last
    requires LastClone(last, done, images) && Precedes(last, done, mtime, numsync)
    requires done == 0 ==> f[1 - s].mode == WRITE_ONLY
    ensures Recovered(f, done, images) && (f[s].mode == READ_ONLY ==> Latest(f[0], f[1]) == Ok(s))
  {
  }

  lemma Committed(files: Files, s: nat, clone: Clone, done: nat, images: seq<seq<Cell>>)
    requires s <= 1 && |files.disk| == 2 && files.seen == files.disk && done > 0 && clone.Whole? && clone.id == done
    requires |images| == done && clone.cells == images[done - 1]
    requires files.disk[s].mode == READ_ONLY && files.disk[s].content == clone && files.disk[1 - s].mode == WRITE_ONLY
    ensures Safe(Moment(files, done, images)) && LeadsTo(files, Ok(s))
  {
    forall f: seq<SnapFile> | Outcome(files, f)
      ensures Recovered(f, done, images) && Latest(f[0], f[1]) == Ok(s)
    {
      assert Survives(files.seen[s], files.disk[s], f[s]) && Survives(files.seen[1 - s], files.disk[1 - s], f[1 - s]);
    }
  }

  /** `n` is the count `now`, or the one before. */
  ghost predicate Recent(n: nat, now: nat) {
    n <= UINT_MAX && (now == n || now == (n + 1) % (UINT_MAX + 1))
  }
}
