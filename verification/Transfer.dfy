/**
 A database dumped to text (src/gdbmdump.c) and loaded into an empty one (src/gdbmload.c) comes
 back as it was.
 */
module Transfer {
  import opened Bits
  import opened Layout
  import opened Sequences
  import opened Cache
  import opened Directory
  import opened Content
  import opened Growth
  import opened Filling
  import opened Traversal
  import opened Database
  import opened Sequential
  import opened Recovery
  import opened Base64
  import opened DumpFormat
  import opened Dump

  // ----- the text -----

  lemma {:induction false} RecordLinesNext(recs: seq<Entry>, e: Entry)
    ensures RecordLines(recs + [e], true) ==
            RecordLines(recs, true) + DatumLines(e.key, true) + DatumLines(e.value, true)
  {
    hide DatumLines;
    var k, v := DatumLines(e.key, true), DatumLines(e.value, true);
    if |recs| == 0 {
      assert recs + [e] == [e] && [e][1..] == [];
      assert RecordLines([e], true) == k + (v + []);
      assert k + (v + []) == [] + k + v;
    } else {
      RecordLinesNext(recs[1..], e);
      assert (recs + [e])[1..] == recs[1..] + [e];
      var a, b, r := DatumLines(recs[0].key, true), DatumLines(recs[0].value, true), RecordLines(recs[1..], true);
      assert RecordLines(recs + [e], true) == a + (b + (r + k + v));
      assert a + (b + (r + k + v)) == a + (b + r) + k + v;
    }
  }

  /** The text of one more record. */
  lemma TextNext(numsync: bool, recs: seq<Entry>, e: Entry)
    ensures Unlines(HeaderLines(numsync, true) + RecordLines(recs + [e], true)) ==
            Unlines(HeaderLines(numsync, true) + RecordLines(recs, true))
            + Unlines(DatumLines(e.key, true)) + Unlines(DatumLines(e.value, true))
  {
    hide Unlines, RecordLines, HeaderLines, DatumLines;
    RecordLinesNext(recs, e);
    var header, k, v := HeaderLines(numsync, true), DatumLines(e.key, true), DatumLines(e.value, true);
    var before := header + RecordLines(recs, true);
    assert header + RecordLines(recs + [e], true) == before + k + v;
    UnlinesConcat(before + k, v);
    UnlinesConcat(before, k);
  }

  /** The header and the trailer as they are printed. */
  method PrintHeader(numsync: bool) returns (text: Text)
    ensures text == Unlines(HeaderLines(numsync, true) + RecordLines([], true))
  {
    hide Unlines;
    var format := "#:format=" + (if numsync then "numsync" else "standard");
    text := "# GDBM dump file" + ['\n'] + "#:version=1.2" + ['\n'] + format + ['\n'] + "# End of header" + ['\n'];
    FourLines("# GDBM dump file", "#:version=1.2", format, "# End of header");
    HeaderText(numsync);
  }

  /** The header, line by line. */
  lemma HeaderText(numsync: bool)
    ensures HeaderLines(numsync, true) + RecordLines([], true) ==
            ["# GDBM dump file", "#:version=1.2", "#:format=" + (if numsync then "numsync" else "standard"),
             "# End of header"]
  {
    var format := if numsync then "numsync" else "standard";
    assert ParmText("version", "1.2") == "#:version=1.2";
    assert ParmText("format", format) == "#:format=" + format;
  }

  lemma FourLines(a: Line, b: Line, c: Line, d: Line)
    ensures Unlines([a, b, c, d]) == a + ['\n'] + b + ['\n'] + c + ['\n'] + d + ['\n']
  {
    assert [a, b, c, d][1..] == [b, c, d] && [b, c, d][1..] == [c, d] && [c, d][1..] == [d];
    assert Unlines([d]) == d + ['\n'];
    assert Unlines([c, d]) == c + ['\n'] + Unlines([d]);
    assert Unlines([b, c, d]) == b + ['\n'] + Unlines([c, d]);
  }

  method PrintTrailer(n: nat) returns (text: Text)
    ensures text == Unlines(TrailerLines(n))
  {
    hide Decimal;
    var lines := TrailerLines(n);
    text := "#:count=" + Decimal(n) + "\n" + "# End of data\n";
    assert CountLine(n) == "#:count=" + Decimal(n);
    assert Unlines(lines) == lines[0] + ['\n'] + Unlines(lines[1..]);
    assert Unlines(lines[1..]) == lines[1] + ['\n'] + Unlines(lines[2..]);
  }

  /** _gdbm_dump_ascii */
  method DumpAscii(db: DatabaseFile) returns (ok: bool, text: Text, ghost recs: seq<Entry>)
    requires db.Valid()
    modifies db`bucketDir, db`health, db.cache, db.space`file
    ensures db.cache.buckets == old(db.cache.buckets) && (db.cache.auto ==> db.cache.orphaned == old(db.cache.orphaned))
    ensures !ok ==> db.cache.auto && db.cache.orphaned
    ensures ok ==> db.Valid() && text == Unlines(DumpLines(recs, Today(db.extended, |recs|)))
    ensures ok ==> |recs| == |Walk(db)| && Listing(db.Cat(), recs, Walk(db))
  {
    hide DatabaseFile.Valid, Catalog.Ok, Hash, Pow2, LookUp, Listed, Chained, SlotsFrom, Distinct, Unlines, DumpLines,
         RecordLines;
    db.CatOk();
    WalkComplete(db.Cat(), db.slots);
    ghost var s, walk := db.Cat(), Walk(db);
    recs := [];
    text := PrintHeader(db.extended);
    var count := 0;
    var r;
    ok, r := FirstKey(db);
    while ok && r.Some?
      invariant db.cache.buckets == old(db.cache.buckets)
      invariant (db.cache.auto ==> db.cache.orphaned == old(db.cache.orphaned))
      invariant !ok ==> db.cache.auto && db.cache.orphaned
      invariant ok ==> db.Valid() && db.Cat() == s && count == |recs| && |recs| <= |walk| && Listing(s, recs, walk)
      invariant ok && r.Some? ==> |recs| < |walk| && r.value in db.data && r.value in db.loc
      invariant ok && r.Some? ==> db.loc[r.value] == walk[|recs|]
      invariant ok && r.None? ==> |recs| == |walk|
      invariant ok ==> text == Unlines(HeaderLines(db.extended, true) + RecordLines(recs, true))
      decreases |walk| - |recs|, ok
    {
      var next;
      ghost var e;
      ok, text, next, e := DumpNext(db, r.value, text, db.extended, recs, walk);
      recs := recs + [e];
      count := count + 1;
      r := next;
    }
    if ok {
      var trailer := PrintTrailer(count);
      TextDone(db.extended, recs);
      text := text + trailer;
    }
  }

  method PrintRecord(key: Key, value: Value, text0: Text, ghost numsync: bool,
                     ghost recs: seq<Entry>) returns (text: Text)
    requires text0 == Unlines(HeaderLines(numsync, true) + RecordLines(recs, true))
    ensures text == Unlines(HeaderLines(numsync, true) + RecordLines(recs + [Entry(key, value)], true))
  {
    hide Unlines, RecordLines, HeaderLines, DatumLines;
    var keyText := PrintDatum(key);
    var dataText := PrintDatum(value);
    TextNext(numsync, recs, Entry(key, value));
    text := text0 + keyText + dataText;
  }

  /** One round of the dumper's loop. */
  method DumpNext(db: DatabaseFile, key: Key, text0: Text, numsync: bool, ghost recs: seq<Entry>, ghost walk: seq<Slot>)
    returns (ok: bool, text: Text, next: Option<Key>, ghost e: Entry)
    requires db.Valid() && walk == Walk(db) && Distinct(walk) && |recs| < |walk| && Listing(db.Cat(), recs, walk)
    requires key in db.data && key in db.loc && db.loc[key] == walk[|recs|]
    requires text0 == Unlines(HeaderLines(numsync, true) + RecordLines(recs, true))
    modifies db`bucketDir, db`health, db.cache, db.space`file
    ensures db.cache.buckets == old(db.cache.buckets) && (db.cache.auto ==> db.cache.orphaned == old(db.cache.orphaned))
    ensures !ok ==> db.cache.auto && db.cache.orphaned
    ensures ok ==> db.Valid() && Listing(db.Cat(), recs + [e], walk)
    ensures ok ==> text == Unlines(HeaderLines(numsync, true) + RecordLines(recs + [e], true))
    ensures ok ==> (next.None? <==> |recs| + 1 == |walk|)
    ensures ok && next.Some? ==> |recs| + 1 < |walk| && next.value in db.data && next.value in db.loc
    ensures ok && next.Some? ==> db.loc[next.value] == walk[|recs| + 1]
  {
    hide DatabaseFile.Valid, Catalog.Ok, Hash, Pow2, LookUp, Listed, Chained, SlotsFrom, Distinct, Unlines,
         RecordLines, HeaderLines, Listing;
    db.Healthy();
    var data := db.Fetch(key);
    if data.None? {
      return false, text0, None, Entry(key, []);
    }
    e := Entry(key, data.value);
    OneListed(db.Cat(), recs, walk, e);
    text := PrintRecord(key, data.value, text0, numsync, recs);
    ghost var p;
    ok, next, p := NextKey(db, key);
    if ok {
      SamePlace(walk, p, |recs|);
    }
  }

  lemma OneListed(s: Catalog, recs: seq<Entry>, walk: seq<Slot>, e: Entry)
    requires Listing(s, recs, walk) && |recs| < |walk| && e.key in s.data && e.key in s.loc
    requires s.loc[e.key] == walk[|recs|] && e.value == s.data[e.key]
    ensures Listing(s, recs + [e], walk)
  {
  }

  lemma TextDone(numsync: bool, recs: seq<Entry>)
    ensures Unlines(DumpLines(recs, Today(numsync, |recs|))) ==
            Unlines(HeaderLines(numsync, true) + RecordLines(recs, true)) + Unlines(TrailerLines(|recs|))
  {
    hide Unlines, RecordLines, HeaderLines, TrailerLines, Chunks;
    var header, body, last := HeaderLines(numsync, true), RecordLines(recs, true), TrailerLines(|recs|);
    assert DumpLines(recs, Today(numsync, |recs|)) == header + (body + last);
    assert header + (body + last) == header + body + last;
    UnlinesConcat(header + body, last);
  }

  // ----- loading -----

  /** Whether a record can be stored: an old key must be replaced, a new one needs room. */
  predicate Fitting(m: map<Key, Value>, e: Entry, replace: bool, n: nat) {
    if e.key in m then replace else !Crowded(m, e.key, n)
  }

  /** Every record can be stored when its turn comes. */
  ghost predicate Storable(m: map<Key, Value>, recs: seq<Entry>, replace: bool, n: nat) {
    forall i :: 0 <= i < |recs| ==> Fitting(WithRecords(m, recs[..i]), recs[i], replace, n)
  }

  ghost function Pending(recs: seq<Entry>, i: nat, form: Form): seq<Line>
    requires i <= |recs|
  {
    RecordLines(recs[i..], form.marks) + LastLines(form)
  }

  /** _gdbm_load_file on the text of a dump, in the present form or an earlier one: it succeeds exactly
      if every record can be stored and the final parameter block gives their number. */
  method LoadAscii(text: Text, copy: DatabaseFile, replace: bool, ghost recs: seq<Entry>,
                   ghost form: Form) returns (rc: Status)
    requires text == Unlines(DumpLines(recs, form)) && copy.Valid()
    modifies copy, copy.cache, copy.space
    ensures rc == OK ==> form.count == Some(|recs|) && Storable(old(copy.data), recs, replace, copy.slots)
    ensures Unhurt(copy) ==>
              (rc == OK <==> form.count == Some(|recs|) && Storable(old(copy.data), recs, replace, copy.slots))
    ensures rc == OK || (Unhurt(copy) && Storable(old(copy.data), recs, replace, copy.slots)) ==>
              copy.Valid() && copy.data == WithRecords(old(copy.data), recs)
    ensures old(Unhurt(copy)) && old(FillsEasily(copy.ShapeNow(), copy.data, recs, copy.slots, copy.cache.bits)) ==>
              Unhurt(copy)
  {
    hide DatabaseFile.Valid, Hash, Crowded, Unlines, DumpLines, ReadDatum, DumpReader.Valid, Pending, GetNum,
         GetParms, Storable, FillsEasily, WithRecords, DatabaseFile.ShapeNow;
    AllProper(recs, form);
    var reader := new DumpReader(text, DumpLines(recs, form));
    var atEnd;
    HeaderDone(recs, form);
    rc, atEnd := reader.CollectParms();
    if reader.parmc == 0 {
      assert false;
    }
    rc := LoadRecords(reader, copy, replace, recs, form);
  }

  /** The loader's loop. */
  method LoadRecords(reader: DumpReader, copy: DatabaseFile, replace: bool, ghost recs: seq<Entry>, ghost form: Form)
    returns (rc: Status)
    requires reader.Valid() && reader.lines == Pending(recs, 0, form) && copy.Valid()
    modifies reader, copy, copy.cache, copy.space
    ensures rc == OK ==> form.count == Some(|recs|) && Storable(old(copy.data), recs, replace, copy.slots)
    ensures Unhurt(copy) ==>
              (rc == OK <==> form.count == Some(|recs|) && Storable(old(copy.data), recs, replace, copy.slots))
    ensures rc == OK || (Unhurt(copy) && Storable(old(copy.data), recs, replace, copy.slots)) ==>
              copy.Valid() && copy.data == WithRecords(old(copy.data), recs)
    ensures old(Unhurt(copy)) && old(FillsEasily(copy.ShapeNow(), copy.data, recs, copy.slots, copy.cache.bits)) ==>
              Unhurt(copy)
  {
    hide DatabaseFile.Valid, Hash, Crowded, DumpReader.Valid, Pending, FillStep, Fitting, DatabaseFile.ShapeNow,
         WithRecords,
         FillShape, FillsEasily, Storable, Extended;
    ghost var m, sh, bits, n := copy.data, copy.ShapeNow(), copy.cache.bits, copy.slots;
    ghost var easy := Unhurt(copy) && FillsEasily(sh, m, recs, n, bits);
    var count := 0;
    var done := false;
    NothingFilled(sh, m, recs, n);
    NothingStorable(m, replace, n);
    while !done
      invariant reader.Valid() && count <= |recs| && copy.Valid() && copy.data == WithRecords(m, recs[..count])
      invariant done ==> count == |recs| && form.count == Some(count)
      invariant !done ==> reader.lines == Pending(recs, count, form)
      invariant Storable(m, recs[..count], replace, n) && (easy ==> Unhurt(copy))
      invariant copy.ShapeNow() == FillShape(sh, m, recs[..count], n) && bits <= copy.cache.bits
      decreases |recs| - count, !done
    {
      if count < |recs| {
        OneFilled(sh, m, recs, n, count, bits, copy.cache.bits);
        StorableNext(m, recs, replace, n, count);
      }
      var ok;
      done, ok := LoadNext(reader, copy, replace, count, recs, form);
      if !ok {
        assert count == |recs| ==> recs[..count] == recs;
        return MALFORMED;
      }
      if !done {
        count := count + 1;
      }
    }
    assert recs[..count] == recs;
    rc := OK;
  }

  lemma NothingStorable(m: map<Key, Value>, replace: bool, n: nat)
    ensures Storable(m, [], replace, n)
  {
  }

  lemma StorableNext(m: map<Key, Value>, recs: seq<Entry>, replace: bool, n: nat, i: nat)
    requires i < |recs| && Storable(m, recs[..i], replace, n)
    ensures Fitting(WithRecords(m, recs[..i]), recs[i], replace, n) ==> Storable(m, recs[..i + 1], replace, n)
    ensures Storable(m, recs, replace, n) ==> Fitting(WithRecords(m, recs[..i]), recs[i], replace, n)
  {
    hide Fitting, WithRecords;
    var l := recs[..i + 1];
    forall j | 0 <= j < i
      ensures Fitting(WithRecords(m, l[..j]), l[j], replace, n)
    {
      assert recs[..i][j] == l[j] && recs[..i][..j] == l[..j];
    }
    assert l[..i] == recs[..i] && l[i] == recs[i];
  }

  /** One round of the loader's loop: a record is read and stored, or the trailer is met. */
  method LoadNext(reader: DumpReader, copy: DatabaseFile, replace: bool, count: nat,
                  ghost recs: seq<Entry>, ghost form: Form) returns (done: bool, ok: bool)
    requires reader.Valid() && count <= |recs| && reader.lines == Pending(recs, count, form) && copy.Valid()
    modifies reader, copy, copy.cache, copy.space
    ensures done <==> count == |recs| && form.count == Some(count)
    ensures count == |recs| ==> (ok <==> done) && copy.data == old(copy.data) && copy.ShapeNow() == old(copy.ShapeNow())
    ensures count == |recs| ==> copy.Valid() && copy.cache.bits == old(copy.cache.bits)
    ensures ok ==> reader.Valid() && copy.Valid() && (done <==> count == |recs|)
    ensures Unhurt(copy) && count < |recs| ==> (ok <==> Fitting(old(copy.data), recs[count], replace, copy.slots))
    ensures count < |recs| && old(Unhurt(copy))
            && old(FillStep(copy.ShapeNow(), copy.data, recs[count].key, copy.slots, copy.cache.bits)) ==>
              Unhurt(copy)
    ensures count == |recs| && old(Unhurt(copy)) ==> Unhurt(copy)
    ensures ok && !done ==> copy.data == old(copy.data)[recs[count].key := recs[count].value]
    ensures ok && !done ==> reader.lines == Pending(recs, count + 1, form)
    ensures ok && !done ==> Fitting(old(copy.data), recs[count], replace, copy.slots)
    ensures ok && !done ==> copy.cache.bits >= old(copy.cache.bits)
    ensures ok && !done ==>
              copy.ShapeNow() == Extended(old(copy.ShapeNow()), old(copy.data), recs[count].key, copy.slots)
  {
    hide DatabaseFile.Valid, Hash, Crowded, Unlines, ReadDatum, DumpReader.Valid, GetNum, GetParms, Pending, Widened,
         Easily, DatabaseFile.ShapeNow, DataFollows;
    NextEntry(recs, count, form);
    copy.Healthy();
    var rc, key, atEnd := reader.ReadRecord();
    if rc != OK {
      done := rc == NOT_FOUND && (atEnd || GetNum(reader.buffer, "count") == (OK, count));
      ok := done;
      return;
    }
    var value, r;
    rc, value, atEnd := reader.ReadRecord();
    if rc != OK {
      return false, false;
    }
    r := copy.Store(key, value, replace);
    done, ok := false, r == 0;
  }

  /** What comes next in the text of a dump: the next record; the count; or the end of the file, which
      is not what the loader asks about after a key was not found. */
  lemma NextEntry(recs: seq<Entry>, i: nat, form: Form)
    requires i <= |recs|
    ensures DataFollows(Pending(recs, i, form))
    ensures var k := ReadDatum(Pending(recs, i, form));
            if i == |recs| then
              if form.count.None? then k.rc == EOF
              else k.rc == NOT_FOUND && !k.atEnd && GetNum(k.buffer, "count") == (OK, form.count.value)
            else && k.rc == OK && k.bytes == recs[i].key && DataFollows(k.lines)
                 && var v := ReadDatum(k.lines);
                    v.rc == OK && v.bytes == recs[i].value && v.lines == Pending(recs, i + 1, form)
  {
    hide ReadDatum, GetNum, GetParms, DatumLines, DataFollows, Follows;
    if i == |recs| {
      assert recs[i..] == [];
      assert Pending(recs, i, form) == LastLines(form);
      TrailerRead(if form.count.Some? then form.count.value else 0);
      EndRead();
    } else {
      var e, rest := recs[i], Pending(recs, i + 1, form);
      assert recs[i..][1..] == recs[i + 1..];
      assert Pending(recs, i, form) == DatumLines(e.key, form.marks) + (DatumLines(e.value, form.marks) + rest);
      PendingFollows(recs, i + 1, form);
      DatumFollows(e.value, form.marks, rest);
      DatumRead(e.key, form.marks, DatumLines(e.value, form.marks) + rest);
      DatumRead(e.value, form.marks, rest);
    }
  }

  /** The end of the file where a record is expected. */
  lemma EndRead()
    ensures ReadDatum([]) == Datum(EOF, [], [], [], true) && DataFollows([])
  {
  }

  lemma DatumFollows(d: seq<byte>, marks: bool, rest: seq<Line>)
    ensures Follows(DatumLines(d, marks) + rest)
  {
    assert (DatumLines(d, marks) + rest)[0] == LenLine(|d|);
  }

  lemma PendingFollows(recs: seq<Entry>, i: nat, form: Form)
    requires i <= |recs|
    ensures Follows(Pending(recs, i, form))
  {
    var lines := Pending(recs, i, form);
    if i < |recs| {
      var e := recs[i];
      assert lines[0] == DatumLines(e.key, form.marks)[0] == LenLine(|e.key|);
    } else {
      assert recs[i..] == [];
      assert form.count.Some? ==> lines[0] == CountLine(form.count.value);
    }
  }

  lemma HeaderDone(recs: seq<Entry>, form: Form)
    ensures var p := GetParms(DumpLines(recs, form), [], 0, false);
            p.rc == OK && p.lines == Pending(recs, 0, form) && p.parmc == 2
  {
    hide GetParms, RecordLines, GetParm;
    assert recs[0..] == recs;
    HeaderRead(form.numsync, form.marks, Pending(recs, 0, form));
  }

  // ----- every line is a proper one -----

  ghost predicate ProperLines(lines: seq<Line>) {
    forall l :: l in lines ==> Proper(l)
  }

  lemma AllProper(recs: seq<Entry>, form: Form)
    ensures ProperLines(DumpLines(recs, form))
  {
    hide Decimal, RecordLines;
    RecordsProper(recs, form.marks);
    NumberProper("count", if form.count.Some? then form.count.value else 0);
    var h := HeaderLines(form.numsync, form.marks);
    assert ProperLines(h);
    assert Proper("# End of data");
  }

  lemma NumberProper(head: Text, n: nat)
    requires forall i :: 0 <= i < |head| ==> head[i] !in {'\n', NUL}
    ensures Proper(ParmText(head, Decimal(n)))
  {
    var v := Decimal(n);
    assert forall i :: 0 <= i < |v| ==> v[i] in v;
  }

  lemma {:induction false} ChunksProper(t: Text)
    requires forall i :: 0 <= i < |t| ==> t[i] !in {'\n', NUL}
    ensures ProperLines(Chunks(t))
    decreases |t|
  {
    if |t| > LINE_LEN {
      ChunksProper(t[LINE_LEN..]);
    }
  }

  lemma DatumProper(d: seq<byte>, marks: bool)
    ensures ProperLines(DatumLines(d, marks))
  {
    hide Decimal, Encoded, Chunks;
    NumberProper("len", |d|);
    var t := Encoded(d);
    EncodedPlain(d);
    assert forall i :: 0 <= i < |t| ==> t[i] in t;
    ChunksProper(t);
  }

  lemma {:induction false} RecordsProper(recs: seq<Entry>, marks: bool)
    ensures ProperLines(RecordLines(recs, marks))
  {
    hide DatumLines;
    if |recs| > 0 {
      DatumProper(recs[0].key, marks);
      DatumProper(recs[0].value, marks);
      RecordsProper(recs[1..], marks);
    }
  }

  // ----- there and back -----

  /** No key has more than `n` neighbours, itself included. */
  ghost predicate Sparse(m: map<Key, Value>, n: nat) {
    forall k :: k in m ==> |Near(m, k)| <= n
  }

  ghost function Near(m: map<Key, Value>, k: Key): set<Key> {
    set l | l in m && Neighbours(l, k)
  }

  /** The records of a walk can be stored one by one exactly if no key has too many neighbours. */
  lemma WalkStorable(s: Catalog, n: nat, recs: seq<Entry>, replace: bool, m: nat)
    requires s.Ok(n) && s.dirBits <= MAX_DIR_BITS && Listing(s, recs, SlotsFrom(s, 0)) && |recs| == |SlotsFrom(s, 0)|
    ensures Storable(map[], recs, replace, m) <==> Sparse(s.data, m)
  {
    hide SlotsFrom, Hash, LookUp, Crowded, Catalog.Ok, WithRecords, Distinct, Neighbours;
    WalkComplete(s, n);
    if Sparse(s.data, m) {
      forall i | 0 <= i < |recs|
        ensures Fitting(WithRecords(map[], recs[..i]), recs[i], replace, m)
      {
        OverWalk(s, recs, i);
        NewKey(s, recs, i);
        SparseRoom(s.data, WithRecords(map[], recs[..i]), recs[i].key, m);
      }
    } else {
      var k :| k in s.data && |Near(s.data, k)| > m;
      SameMap(s, n, recs);
      NotStorable(s, recs, replace, k, m);
    }
  }

  lemma MoreSparse(m: map<Key, Value>, a: nat, b: nat)
    requires a <= b
    ensures Sparse(m, a) ==> Sparse(m, b)
  {
  }

  lemma SparseRoom(m: map<Key, Value>, part: map<Key, Value>, k: Key, n: nat)
    requires Sparse(m, n) && part.Keys <= m.Keys && k in m && k !in part
    ensures !Crowded(part, k, n)
  {
    var near := set l | l in part && Neighbours(l, k);
    assert near <= Near(m, k) - {k};
    Subset(near, Near(m, k) - {k});
  }

  /** The last of too many neighbours finds no room. */
  lemma NotStorable(s: Catalog, recs: seq<Entry>, replace: bool, k: Key, m: nat)
    requires Listing(s, recs, SlotsFrom(s, 0)) && Distinct(SlotsFrom(s, 0)) && WithRecords(map[], recs) == s.data
    requires k in s.data && |Near(s.data, k)| > m
    ensures exists i :: 0 <= i < |recs| && !Fitting(WithRecords(map[], recs[..i]), recs[i], replace, m)
  {
    hide SlotsFrom, WithRecords, Crowded, Neighbours, Listing, Distinct;
    OverWalk(s, recs, |recs|);
    assert recs[..|recs|] == recs;
    var j :| 0 <= j < |recs| && recs[j].key == k;
    var i := LastNear(recs, k, |recs|);
    var part := WithRecords(map[], recs[..i]);
    OverWalk(s, recs, i);
    NewKey(s, recs, i);
    LastCrowded(s.data, recs, part, k, i, m);
  }

  lemma LastCrowded(data: map<Key, Value>, recs: seq<Entry>, part: map<Key, Value>, k: Key, i: nat, m: nat)
    requires i < |recs| && Neighbours(recs[i].key, k) && |Near(data, k)| > m
    requires forall l :: l in data ==> exists j :: 0 <= j < |recs| && recs[j].key == l
    requires forall j :: i < j < |recs| ==> !Neighbours(recs[j].key, k)
    requires forall j :: 0 <= j < i ==> recs[j].key in part
    ensures Crowded(part, recs[i].key, m)
  {
    hide Crowded;
    var others := Near(data, k) - {recs[i].key};
    forall l | l in others
      ensures l in Near(part, recs[i].key)
    {
      var j :| 0 <= j < |recs| && recs[j].key == l;
    }
    Subset(others, Near(part, recs[i].key));
    NearCrowded(part, recs[i].key, m);
  }

  lemma NearCrowded(part: map<Key, Value>, k: Key, m: nat)
    requires |Near(part, k)| >= m
    ensures Crowded(part, k, m)
  {
    assert Near(part, k) == set l | l in part && Neighbours(l, k);
  }

  lemma {:induction false} LastNear(recs: seq<Entry>, k: Key, n: nat) returns (i: nat)
    requires n <= |recs| && exists j :: 0 <= j < n && Neighbours(recs[j].key, k)
    ensures i < n && Neighbours(recs[i].key, k) && forall j :: i < j < n ==> !Neighbours(recs[j].key, k)
    decreases n
  {
    if Neighbours(recs[n - 1].key, k) {
      i := n - 1;
    } else {
      i := LastNear(recs, k, n - 1);
    }
  }

  /** Dump, then load into an empty database: the same contents.  It works exactly if the buckets
      of the new database can hold all the neighbours of every key, as they can if they are no
      smaller. */
  method CopyByDump(db: DatabaseFile, copy: DatabaseFile, replace: bool) returns (ok: bool)
    requires db.Valid() && copy.Valid() && Separate(db, copy) && copy.data == map[]
    modifies db`bucketDir, db`health, db.cache, db.space`file, copy, copy.cache, copy.space
    ensures ok ==> db.Valid() && copy.Valid() && copy.data == db.data
    ensures old(Unhurt(db)) && Unhurt(copy) ==> (ok <==> Sparse(db.data, copy.slots))
    ensures old(Unhurt(copy))
            && old(FillsEasily(copy.ShapeNow(), map[], Records(db.Cat()), copy.slots, copy.cache.bits)) ==>
              Unhurt(copy)
    ensures copy.slots >= db.slots && old(Unhurt(db)) && old(Unhurt(copy))
            && old(Spacious(copy, |db.cache.buckets|)) ==>
              ok
    ensures Sparse(db.data, db.slots)
  {
    hide DatabaseFile.Valid, Catalog.Ok, Hash, Crowded, Unlines, DumpLines, SlotsFrom, LookUp, Storable, WithRecords,
         Sparse, Records, FillsEasily, Spacious;
    if copy.slots >= db.slots {
      EasyCopy(db, copy);
      MoreSparse(db.data, db.slots, copy.slots);
    }
    db.CatOk();
    OwnSparse(db.Cat(), db.slots);
    var text;
    ghost var recs;
    ok, text, recs := DumpAscii(db);
    if !ok {
      return;
    }
    db.CatOk();
    OneListing(db.Cat(), db.slots, recs);
    WalkStorable(db.Cat(), db.slots, recs, replace, copy.slots);
    SameMap(db.Cat(), db.slots, recs);
    var rc := LoadAscii(text, copy, replace, recs, Today(db.extended, |recs|));
    ok := rc == OK;
  }

  /** A database's own buckets hold all the neighbours of every key. */
  lemma OwnSparse(s: Catalog, n: nat)
    requires s.Ok(n) && s.dirBits <= MAX_DIR_BITS
    ensures Sparse(s.data, n)
  {
    hide Hash, LookUp, Catalog.Ok, Neighbours;
    forall k | k in s.data
      ensures |Near(s.data, k)| <= n
    {
      BucketRoom(s, n, k);
      var keys := KeysOf(s, s.BucketOf(Hash(k)));
      forall l | l in Near(s.data, k)
        ensures l in keys
      {
        NeighbourEntry(s.dir, s.dirBits, l, k);
      }
      Subset(Near(s.data, k), keys);
    }
  }

  lemma SameMap(s: Catalog, n: nat, recs: seq<Entry>)
    requires s.Ok(n) && s.dirBits <= MAX_DIR_BITS && Listing(s, recs, SlotsFrom(s, 0)) && |recs| == |SlotsFrom(s, 0)|
    ensures WithRecords(map[], recs) == s.data
  {
    hide SlotsFrom, Hash, LookUp, Crowded, Catalog.Shaped, Catalog.KeyPlaced, Catalog.SlotPlaced, WithRecords;
    assert recs[..|recs|] == recs;
    OverWalk(s, recs, |recs|);
    WalkComplete(s, n);
    var walk := SlotsFrom(s, 0);
    forall k | k in s.data
      ensures k in WithRecords(map[], recs)
    {
      assert s.loc[k] in s.loc.Values;
      var i :| 0 <= i < |walk| && walk[i] == s.loc[k];
      assert recs[i].key == k;
    }
  }
}
