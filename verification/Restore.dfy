/**
 After a crash: the snapshot that gdbm_latest_snapshot selects is opened in place of the database.
 */
module Restore {
  import opened Layout
  import opened Database
  import opened Reopen
  import opened Snapshot

  ghost function ChosenId(f: seq<SnapFile>): nat {
    if |f| == 2 && Latest(f[0], f[1]).Ok? && Latest(f[0], f[1]).file < 2 && f[Latest(f[0], f[1]).file].content.Whole?
    then f[Latest(f[0], f[1]).file].content.id else 0
  }

  /** `last` and `next` are the databases as the last snapshot and the one under way have found
      them, between two operations or in the course of an update.  The file selected is opened
      with the contents of one of these, exactly when the directory is not at the end of it. */
  method OpenLatest(f: seq<SnapFile>, auto: bool, cacheBits: nat, coalesce: bool, centralFree: bool,
                    ghost done: nat, ghost images: seq<seq<Cell>>, ghost last: DatabaseFile, ghost next: DatabaseFile)
    returns (rc: OpenStatus, db: DatabaseFile?)
    requires Found(f, done, images) && 0 < done <= |images| && 2 <= cacheBits <= HASH_BITS
    requires last.Clonable() && last.space.file == images[done - 1]
    requires next.Clonable() && next.space.file == images[|images| - 1]
    ensures ChosenId(f) in {done, |images|}
    ensures var was := if ChosenId(f) == done then last else next;
            && (rc == Opened <==> was.dirAdr + |was.dir| * SIZEOF_OFF_T < |was.space.file|)
            && (rc == Opened ==> db != null && db.Valid() && db.data == was.data && db.slots == was.slots)
  {
    hide DatabaseFile.Clonable, DatabaseFile.Valid;
    var file := f[Latest(f[0], f[1]).file];
    ghost var was := if ChosenId(f) == done then last else next;
    rc, db := Open(file.content.cells, auto, cacheBits, coalesce, centralFree, was);
  }
}
