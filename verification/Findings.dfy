/**
 Three behaviours of the program that its callers would not expect, each at an input: a cached
 bucket that can no longer be found, free space that is forgotten, and a database that cannot be
 opened again.
 */
module Findings {
  import opened Bits
  import opened AvailTable
  import opened Layout
  import opened Space
  import opened Allocator
  import opened Sequences
  import opened Cache
  import opened CacheOps
  import opened Integrity
  import opened Splitting
  import opened Database
  import opened Reopen
  import opened DumpFormat
  import opened Dump

  // ----- a cached bucket that is not found (src/bucket.c) -----

  /** A full cache of four buckets; the one at 1024 was used least recently. */
  ghost function FourElements(): Elements {
    map[0 := Fresh(1024), 1 := Fresh(1536), 2 := Fresh(2048), 3 := Fresh(3584)]
  }

  ghost function FourChains(): seq<seq<nat>> {
    [[1], [2, 3], [0], []]
  }

  lemma {:induction false} XorZero(a: nat)
    ensures Xor(a, 0) == a
  {
    if a > 0 {
      XorZero(a / 2);
    }
  }

  /** The hash of a small address in a table of four chains, given the quotient. */
  lemma HashFound(adr: nat, q: nat, h: nat)
    requires adr < 0x4000_0000 && h < 4
    requires q * 0x1_0000_0000 + h * 0x4000_0000 <= 265443576910 * adr < q * 0x1_0000_0000 + (h + 1) * 0x4000_0000
    ensures AdrHash(adr, 2) == h
  {
    assert Pow2(2) == 4 && Pow2(10) == 1024;
    hide Pow2;
    Pow2Add(10, 10);
    Pow2Add(20, 10);
    Pow2Add(30, 2);
    XorZero(adr);
    var x := 265443576910 * adr;
    DivUnique(adr, 0x4000_0000, 0);
    DivUnique(x, 0x1_0000_0000, q);
    var r := x - q * 0x1_0000_0000;
    DivUnique(r, 0x4000_0000, h);
  }

  lemma Hashes()
    ensures AdrHash(1024, 2) == 2 && AdrHash(1536, 2) == 0 && AdrHash(2048, 2) == 1 && AdrHash(3584, 2) == 1
    ensures AdrHash(2560, 2) == 2
  {
    hide AdrHash;
    HashFound(1024, 63286, 2);
    HashFound(1536, 94930, 0);
    HashFound(2048, 126573, 1);
    HashFound(3584, 221503, 1);
    HashFound(2560, 158216, 2);
  }

  lemma FourCached()
    ensures Wf(FourElements(), [3, 2, 1, 0], FourChains(), 2) && AllLinked(FourElements(), FourChains(), 2)
    ensures !InTable(FourElements(), FourChains(), 2, 2560)
  {
    hide AdrHash;
    Hashes();
    var elems, table := FourElements(), FourChains();
    assert Pow2(2) == 4;
    assert table[AdrHash(1024, 2)] == [0] && table[AdrHash(1536, 2)] == [1];
    assert table[AdrHash(2048, 2)] == [2, 3] && table[AdrHash(3584, 2)] == [2, 3] && table[AdrHash(2560, 2)] == [0];
  }

  /** Looking up the bucket at 2560 evicts the one at 1024 and stores the new element in its
      freed link: afterwards the table leads to no element for 2560, and another lookup would
      make a second one. */
  lemma StaleSlot()
    ensures var elems, table := FourElements(), FourChains();
            var link := Vacant(table, AdrHash(2560, 2));
            var elems' := (elems - {0})[4 := Fresh(2560)];
            var table' := SetLink(Unchained(elems, table, 2, 0), link, 4);
            && link == After(2, 0) && Chained(elems', table', 2)
            && !Linked(elems', table', 2, 4) && !InTable(elems', table', 2, 2560)
  {
    hide AdrHash;
    FourCached();
    Hashes();
    var elems, table := FourElements(), FourChains();
    StoredAfterEviction(elems, table, 2, 0, 4, Fresh(2560));
    assert table[2] == [0] && Minus([0], 0) == [];
  }

  /** What the first lookup leaves. */
  ghost function ThreeChains(): seq<seq<nat>> {
    [[1], [2, 3], [], []]
  }

  lemma FirstLookup()
    ensures SetLink(Unchained(FourElements(), FourChains(), 2, 0), After(2, 0), 4) == ThreeChains()
  {
    hide AdrHash;
    Hashes();
    FourCached();
    assert Minus([0], 0) == [];
    assert FourChains()[2 := []] == ThreeChains();
  }

  /** That second lookup, which evicts the bucket at 1536: now two elements hold one bucket, the
      table leads to the younger one, and resizing the table would abort the process. */
  lemma TwoForOne()
    ensures var elems, table := (FourElements() - {0})[4 := Fresh(2560)], ThreeChains();
            var elems' := (elems - {1})[5 := Fresh(2560)];
            var table' := SetLink(Unchained(elems, table, 2, 1), Vacant(table, AdrHash(2560, 2)), 5);
            && table == SetLink(Unchained(FourElements(), FourChains(), 2, 0), After(2, 0), 4)
            && Linked(elems', table', 2, 5) && Duplicates(elems', [5, 4, 3, 2], Keep(4, 3))
  {
    hide AdrHash, SetLink, Unchained, Linked, Chained;
    FirstLookup();
    StaleSlot();
    Hashes();
    assert Pow2(2) == 4 && Pow2(3) == 8;
    var elems, table := (FourElements() - {0})[4 := Fresh(2560)], ThreeChains();
    StoredAfterEviction(elems, table, 2, 1, 5, Fresh(2560));
    var elems', lru := (elems - {1})[5 := Fresh(2560)], [5, 4, 3, 2];
    assert elems'[lru[0]].adr == elems'[lru[1]].adr;
  }

  // ----- free space that is forgotten (src/falloc.c) -----

  /** Entries of 8 bytes, 16 bytes apart. */
  function Comb(base: nat, lo: nat, hi: nat): (t: seq<Avail>)
    requires lo <= hi
    ensures |t| == hi - lo && forall i :: 0 <= i < |t| ==> t[i] == Avail(8, base + 16 * (lo + i))
  {
    seq(hi - lo, i requires 0 <= i < hi - lo => Avail(8, base + 16 * (lo + i)))
  }

  predicate Tooth(base: nat, lo: nat, hi: nat, x: nat) {
    base <= x && (x - base) % 16 < 8 && lo <= (x - base) / 16 < hi
  }

  lemma {:induction false} CombCover(base: nat, lo: nat, hi: nat, x: nat)
    requires lo <= hi
    ensures Cover(Comb(base, lo, hi), x) == if Tooth(base, lo, hi, x) then 1 else 0
    decreases hi - lo
  {
    if lo < hi {
      assert Comb(base, lo, hi)[1..] == Comb(base, lo + 1, hi);
      CombCover(base, lo + 1, hi, x);
    }
  }

  lemma CombApart(base: nat, lo: nat, mid: nat, hi: nat)
    requires lo <= mid <= hi
    ensures AddsApart(Comb(base, lo, mid), Comb(base, mid, hi))
  {
  }

  /** A header with half its entries, a spilled table at `n` with as many, and other bytes in use. */
  ghost function CombOwner(n: nat, c: nat, base: nat, x: nat): Owner {
    if x < n then FileHeader
    else if x < n + BlockSize(c) then AvailBlockAt(n)
    else if Tooth(base, 0, c / 2, x) then Free(HeaderTable)
    else if Tooth(base, c / 2, c, x) then Free(StackTable(n))
    else Directory
  }

  ghost function CombOwners(n: nat, c: nat, base: nat): (own: seq<Owner>)
    ensures |own| == base + 16 * c && forall x :: 0 <= x < |own| ==> own[x] == CombOwner(n, c, base, x)
  {
    seq(base + 16 * c, x requires 0 <= x => CombOwner(n, c, base, x))
  }

  function CombFile(n: nat, c: nat): seq<Cell> {
    Write([], n, ImageCells(AvailImage(AvailBlock(c, 0, Comb(n + BlockSize(c), c / 2, c))), BlockSize(c)))
  }

  ghost function CombState(n: nat, c: nat): State {
    var base := n + BlockSize(c);
    State(CombOwners(n, c, base), CombFile(n, c), Comb(base, 0, c / 2), [StackBlock(n, Comb(base, c / 2, c))], false,
        [], 0, [])
  }

  lemma CombClaims(n: nat, c: nat, base: nat)
    requires n > 0 && base == n + BlockSize(c)
    ensures var own := CombOwners(n, c, base);
            && Claims(own, Comb(base, 0, c / 2), Free(HeaderTable))
            && Claims(own, Comb(base, c / 2, c), Free(StackTable(n)))
            && Claims(own, [], Free(BucketTable(0))) && Claims(own, [], Sliver)
  {
    var own := CombOwners(n, c, base);
    forall x: nat
      ensures Cover(Comb(base, 0, c / 2), x) == if Owns(own, x, Free(HeaderTable)) then 1 else 0
      ensures Cover(Comb(base, c / 2, c), x) == if Owns(own, x, Free(StackTable(n))) then 1 else 0
    {
      CombCover(base, 0, c / 2, x);
      CombCover(base, c / 2, c, x);
    }
  }

  /** The allocator's invariant admits this state. */
  lemma CombOk(n: nat, c: nat)
    requires n > 0 && c >= 8 && c % 2 == 0
    ensures CombState(n, c).Ok(n, c) && Settled(CombState(n, c).own)
  {
    hide Claims, Tooth;
    var s, base := CombState(n, c), n + BlockSize(c);
    CombClaims(n, c, base);
    assert Tidy(s.avail) && Tidy(s.stack[0].table);
    CombStack(n, c);
    PushedAddresses(s.stack);
  }

  lemma CombStack(n: nat, c: nat)
    requires n > 0 && c >= 8 && c % 2 == 0
    requires TableOk(CombState(n, c).own, Comb(n + BlockSize(c), c / 2, c), StackTable(n))
    ensures var s := CombState(n, c);
            |s.file| == n + BlockSize(c) && StackOk(s.file, s.own, c, s.stack, false)
  {
    hide TableOk, Tooth;
    var s := CombState(n, c);
    assert s.stack[1..] == [] && Addresses([]) == {};
    assert Holds(s.file, n, StackImage(c, s.stack));
    assert StackOk(s.file, s.own, c, s.stack[1..], false);
  }

  /** At every even capacity a pop can lose a whole spilled table: nothing in the two halves
      coalesces, the merged table is full, and the block it is split into is forgotten. */
  method PopForgets(n: nat, c: nat) returns (space: FileSpace, av: seq<Avail>, ghost before: seq<Owner>)
    requires n > 0 && c >= 8 && c % 2 == 0
    ensures space.Valid(0, av) && Loses(before, space.owner)
    ensures before == CombState(n, c).own && CombState(n, c).Ok(n, c)
  {
    hide State.Ok, CombOwners, CombFile, Comb, Settled, Loses, AddsApart;
    var base := n + BlockSize(c);
    space := new FileSpace(n, c, false, false, []);
    ghost var s := CombState(n, c);
    CombOk(n, c);
    CombApart(base, 0, c / 2, c);
    space.file, space.nextBlock := CombFile(n, c), base + 16 * c;
    space.avail, space.availNext := Comb(base, 0, c / 2), n;
    space.owner, space.stack, space.pending, space.slivers := s.own, s.stack, false, [];
    before := space.owner;
    var changed, overflow;
    av, changed, overflow := space.PopAvailBlock(0, []);
  }

  // ----- a database that cannot be opened again (src/gdbmopen.c) -----

  /** The blocks change places: the first bucket at `n`, its free space, then the directory. */
  method Rearrange(db: DatabaseFile)
    requires db.Blank()
    modifies db, db.space, db.cache
    ensures db.Valid() && db.dirAdr + |db.dir| * SIZEOF_OFF_T == |db.space.file|
  {
    hide State.Ok, Pow2, Chained, Listed, HeaderHeld, DirHeld, FirstDirectory, Holds, FirstOwners, BucketCells,
         NewBucket, ImageCells, DatabaseFile.Valid, LaidOut;
    var n := db.space.blockSize;
    var d, b := FirstDirectory(db.dirBits, n), NewBucket(0, db.slots).(avail := [Avail(n, 2 * n)]);
    var h := Header(db.extended, n, 3 * n, n, db.dirBits, db.slots, 4 * n, AvailBlock(db.space.capacity, 0, []));
    var file := Write(Write(Write([], 0, ImageCells(HeaderImage(h), n)), n, ImageCells(BucketImage(b), n)), 3 * n,
        ImageCells(DirImage(d), n));
    LastFile(h, d, b, n, file);
    db.space.file, db.dirAdr, db.dir := file, 3 * n, d;
    db.space.owner, db.cache.buckets := FirstOwners(n, 3 * n, n), map[n := b];
    LastSpace(db.space.Now(0, []), n, db.space.capacity);
    db.FourBlocks(n, b, 2 * n);
  }

  /** A database whose directory is the last of its four blocks. */
  method DirectoryLast() returns (db: DatabaseFile)
    ensures fresh(db) && fresh(db.space) && fresh(db.cache)
    ensures db.Valid() && db.dirAdr + |db.dir| * SIZEOF_OFF_T == |db.space.file|
  {
    hide DatabaseFile.Valid, DatabaseFile.Blank;
    db := new DatabaseFile(512, 512, false, false, 2, false, false);
    Rearrange(db);
  }

  lemma LastFile(h: Header, d: seq<nat>, b: Bucket, n: nat, file: seq<Cell>)
    requires n > 0 && |d| * SIZEOF_OFF_T == n && h.nextBlock == 4 * n
    requires file == Write(Write(Write([], 0, ImageCells(HeaderImage(h), n)), n, ImageCells(BucketImage(b), n)),
              3 * n, ImageCells(DirImage(d), n))
    ensures |file| == 4 * n && HeaderHeld(file, h, n) && DirHeld(file, 3 * n, d) && Holds(file, n, BucketCells(b, n))
  {
    assert file[0..n] == ImageCells(HeaderImage(h), n);
    assert file[n..2 * n] == ImageCells(BucketImage(b), n);
    assert file[3 * n..4 * n] == ImageCells(DirImage(d), n);
  }

  lemma LastSpace(s: State, n: nat, capacity: nat)
    requires n > 0 && s.own == FirstOwners(n, 3 * n, n) && |s.file| <= 4 * n
    requires s.avail == [] && s.stack == [] && s.slivers == [] && s.cur == 0 && s.av == []
    ensures s.Ok(n, capacity) && Settled(s.own)
  {
  }

  /** gdbm_open refuses it. */
  method Refused() returns (rc: OpenStatus)
    ensures rc == BadHeader
  {
    hide DatabaseFile.Valid;
    var db := DirectoryLast();
    db.CanBeCloned();
    var again;
    rc, again := Open(db.space.file, true, 9, false, false, db);
  }

  // ----- a loop that does not end (src/gdbmload.c) -----

  function LoopingDump(): seq<Line> {
    ["#:len=3", "# a", "# b"]
  }

  /** One comment after a length is used up with the parameters; a second one is left. */
  lemma SecondComment()
    ensures DataFollows(["#:len=3", "# a", "YWJj"]) && !DataFollows(LoopingDump())
    ensures var p := GetParms(LoopingDump(), [], 0, false);
            p.rc == OK && p.parmc == 1 && GetNum(p.buffer, "len") == (OK, 3) && p.lines == ["# b"]
  {
    var buffer := "len" + "=" + Decimal(3) + [NUL];
    assert Decimal(3) == "3" && LenLine(3) == "#:len=3";
    DecimalSimple(3);
    LenName();
    OneParm(LenLine(3), "len", Decimal(3));
    LoneNum("len", 3, "len");
    hide Decimal, Number, ScanParms, Name, GetParm, GetNum;
    assert [] + buffer == buffer;
    AfterLength(LoopingDump(), buffer);
    AfterLength(["#:len=3", "# a", "YWJj"], buffer);
  }

  lemma AfterLength(lines: seq<Line>, buffer: Line)
    requires |lines| == 3 && lines[0] == "#:len=3" && lines[1] == "# a" && |lines[2]| > 0
    requires ScanParms("#:len=3", "#:len=3"[1..], false) == Parsed(buffer, 1, true)
    ensures GetParms(lines, [], 0, false) == Parms(OK, [lines[2]], buffer, 1, false)
  {
    hide ScanParms;
    assert [] + buffer == buffer;
    assert lines[1..][0] == "# a" && lines[1..][1..] == [lines[2]];
    assert GetParms(lines, [], 0, false) == GetParms(lines[1..], buffer, 1, true);
  }

  /** After any number of rounds the loader is still at that line. */
  method NeverEnds(n: nat) returns (again: bool)
    ensures again
  {
    hide Unlines, GetParms;
    var lines := LoopingDump();
    SecondComment();
    var reader := new DumpReader(Unlines(lines), lines);
    var rc, atEnd := reader.CollectParms();
    again := reader.SkipRounds(n);
  }

  // ----- an allocation across a block boundary (src/falloc.c) -----

  ghost function CrossOwner(x: nat): Owner {
    if x < 512 then FileHeader else if x < 1024 then Directory else if x < 1536 then BucketAt(1024)
    else if x < 1836 then Record([]) else Free(BucketTable(1024))
  }

  ghost function CrossOwners(): (own: seq<Owner>)
    ensures |own| == 2560 && forall x :: 0 <= x < 2560 ==> own[x] == CrossOwner(x)
  {
    seq(2560, x requires 0 <= x => CrossOwner(x))
  }

  lemma CrossOk(s: State, capacity: nat)
    requires s.own == CrossOwners() && s.file == [] && s.avail == [] && s.stack == [] && s.slivers == []
    requires s.cur == 1024 && s.av == [Avail(724, 1836)]
    ensures s.Ok(512, capacity) && Settled(s.own)
  {
    assert forall x: nat :: Cover(s.av, x) == In(s.av[0], x) + Cover(s.av[1..], x);
  }

  /** With blocks of 512 bytes and a free entry that reaches from one block into the next, as
      merging leaves it, 300 bytes are allocated across the boundary. */
  method CrossesBlock() returns (space: FileSpace, adr: nat)
    ensures space.blockSize == 512 && Painted(space.owner, adr, 300, Reserved)
    ensures adr / 512 != (adr + 300 - 1) / 512
  {
    hide State.Ok, CrossOwners, Settled;
    space := new FileSpace(512, 8, true, false, []);
    space.nextBlock, space.owner := 2560, CrossOwners();
    var av := [Avail(724, 1836)];
    CrossOk(space.Now(1024, av), 8);
    var av', changed;
    ghost var overflow, table;
    assert av[0] in av;
    adr, av', changed, overflow, table := space.Allocate(1024, av, 300);
  }
}
