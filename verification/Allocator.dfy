/**
 _gdbm_alloc, _gdbm_free and their helpers (src/falloc.c), as methods that update the
 header's fields in place.  The free table of the current bucket is passed in and returned.
 */
module Allocator {
  import opened AvailTable
  import opened Layout
  import opened Space

  /** Frames compose. */
  lemma FrameTrans(a: seq<Owner>, b: seq<Owner>, c: seq<Owner>, cur: nat)
    requires Frame(a, b, cur) && Frame(b, c, cur)
    ensures Frame(a, c, cur)
    ensures NothingDropped(a, b) && NothingDropped(b, c) ==> NothingDropped(a, c)
  {
  }

  lemma FrameRefl(own: seq<Owner>, cur: nat)
    ensures Frame(own, own, cur) && NothingDropped(own, own)
  {
  }

  lemma FileFrameTrans(a: seq<Owner>, b: seq<Owner>, f: seq<Cell>, g: seq<Cell>, h: seq<Cell>, cur: nat)
    requires Frame(a, b, cur) && FileFrame(a, f, g, cur) && FileFrame(b, g, h, cur)
    ensures FileFrame(a, f, h, cur)
  {
  }

  /** The loop of push_avail_block: odd positions move out, even ones close ranks. */
  method SplitTable(t: seq<Avail>) returns (kept: seq<Avail>, spilled: seq<Avail>)
    ensures kept == Evens(t) && spilled == Odds(t)
  {
    var a := t;
    spilled := [];
    var index, half := 1, 0;
    while index < |t|
      invariant |a| == |t| && 1 <= index && (index <= |t| || index == 1)
      invariant |spilled| == half && (index == 2 * half || index == 2 * half + 1)
      invariant forall i {:trigger spilled[i]} :: 0 <= i < half ==> spilled[i] == t[2 * i + 1]
      invariant forall i {:trigger a[i]} :: 0 <= i < half && i < |t| ==> a[i] == t[2 * i]
      invariant index == 2 * half + 1 && half < |t| ==> a[half] == t[2 * half]
      invariant forall i {:trigger a[i]} :: index <= i < |t| ==> a[i] == t[i]
    {
      if index % 2 == 1 {
        spilled := spilled + [t[index]];
        half := half + 1;
      } else {
        a := a[half := a[index]];
      }
      index := index + 1;
    }
    kept := a[..|t| - |spilled|];
    assert kept == Evens(t);
  }

  /** The steps of push_avail_block, seen from outside: space taken, half the table moved
      there, the remainder released. */
  lemma PushFrame(own0: seq<Owner>, own1: seq<Owner>, own2: seq<Owner>, own3: seq<Owner>, loc: Avail, n: nat, cur: nat)
    requires n <= loc.size && Painted(own1, loc.adr, loc.size, Reserved) && |own2| == |own1|
    requires Frame(own0, Paint(own1, loc.adr, loc.size, Sliver), cur) && NothingDropped(own0, own1)
    requires Frame(Paint(own1, loc.adr, n, Sliver), own2, cur) && NothingDropped(own1, own2)
    requires Frame(Paint(own2, loc.adr + n, loc.size - n, Sliver), own3, cur) && NothingDropped(own2, own3)
    ensures Frame(own0, own3, cur) && NothingDropped(own0, own3)
  {
  }

  /** A write to bytes that were not pinned at first. */
  lemma PushFileFrame(own0: seq<Owner>, own1: seq<Owner>, f: seq<Cell>, loc: Avail, c: seq<Cell>, cur: nat)
    requires Frame(own0, Paint(own1, loc.adr, loc.size, Sliver), cur) && Painted(own1, loc.adr, loc.size, Reserved)
    requires |c| <= loc.size
    ensures FileFrame(own0, f, Write(f, loc.adr, c), cur)
  {
  }

  /** Only free bytes change hands, and they stay free. */
  ghost predicate FreeOnly(own: seq<Owner>, own': seq<Owner>) {
    |own'| == |own| && forall x :: 0 <= x < |own| && own'[x] != own[x] ==> own[x].Free? && own'[x].Free?
  }

  lemma TablesTidy(s: State, blockSize: nat, capacity: nat)
    requires s.Ok(blockSize, capacity)
    ensures Tidy(s.avail) && Tidy(s.av) && |s.avail| <= capacity && |s.av| <= BUCKET_AVAIL
    ensures forall e :: e in s.avail || e in s.av ==> e.size > IGNORE_SIZE
  {
  }

  lemma LastEntry(t: seq<Avail>)
    requires |t| > 0 && Tidy(t)
    ensures Tidy(t[..|t| - 1]) && t[|t| - 1] in t
    ensures forall x: nat :: Cover(t[..|t| - 1], x) + In(t[|t| - 1], x) == Cover(t, x)
  {
    forall x: nat
      ensures Cover(t[..|t| - 1], x) + In(t[|t| - 1], x) == Cover(t, x)
    {
      CoverWithout(t, |t| - 1, x);
      assert Without(t, |t| - 1) == t[..|t| - 1];
    }
  }

  lemma PaintedThen(own: seq<Owner>, a: nat, n: nat, o: Owner)
    requires a + n <= |own|
    ensures Painted(Paint(own, a, n, o), a, n, o)
  {
  }

  /** An entry moves from one free table to another. */
  lemma Handed(own: seq<Owner>, e: Avail, from: Table, to: Table, own': seq<Owner>, cur: nat)
    requires Painted(own, e.adr, e.size, Free(from))
    requires own' == Paint(Paint(own, e.adr, e.size, Reserved), e.adr, e.size, Free(to))
    requires from in {HeaderTable, BucketTable(cur)} && to in {HeaderTable, BucketTable(cur)}
    ensures Frame(own, own', cur) && NothingDropped(own, own') && FreeOnly(own, own')
  {
  }

  lemma NotHeader(s: State, blockSize: nat, capacity: nat, e: Avail)
    requires s.Ok(blockSize, capacity) && blockSize > 0 && e.size > 0 && Painted(s.own, e.adr, e.size, Reserved)
    ensures e.adr > 0
  {
    assert s.own[e.adr] == Reserved;
  }

  lemma SomethingFits(t: seq<Avail>)
    requires |t| > 0
    ensures Fits(t, 0)
  {
    assert t[0] in t;
  }

  lemma FreeRefl(own: seq<Owner>)
    ensures FreeOnly(own, own)
  {
  }

  lemma FreeTrans(a: seq<Owner>, b: seq<Owner>, c: seq<Owner>)
    requires FreeOnly(a, b) && FreeOnly(b, c)
    ensures FreeOnly(a, c)
  {
  }

  lemma StaysFree(own: seq<Owner>, own': seq<Owner>, a: nat, n: nat, tab: Table)
    requires FreeOnly(own, own') && Painted(own, a, n, Free(tab))
    ensures AllFree(own', a, n)
  {
  }

  /** The header's last entry, which is its largest, has joined the bucket's table. */
  ghost predicate Trades(t: seq<Avail>, av: seq<Avail>, t': seq<Avail>, av': seq<Avail>, coalesce: bool) {
    |t| > 0 && t' == t[..|t| - 1] && Gains(av, t[|t| - 1], av', coalesce)
  }

  /** The bucket's smallest entry has joined the header's table. */
  ghost predicate Yields(t: seq<Avail>, av: seq<Avail>, t': seq<Avail>, av': seq<Avail>, coalesce: bool) {
    |av'| < |av| &&
    exists e :: BestFit(av, 0, e) && multiset(av') == multiset(av) - multiset{e} && Gains(t, e, t', coalesce)
  }

  /** The bucket has yielded entries while it had more than four and the header had room. */
  ghost predicate YieldsAll(t: seq<Avail>, av: seq<Avail>, t': seq<Avail>, av': seq<Avail>, capacity: nat,
                            coalesce: bool)
    decreases |av|
  {
    if |av| <= 4 || |t| >= capacity then t' == t && av' == av
    else
      exists t1, av1 :: Yields(t, av, t1, av1, coalesce) && YieldsAll(t1, av1, t', av', capacity, coalesce)
  }

  /** What can be reached from `t` and `av` can be reached from `t0` and `av0`. */
  ghost predicate Continues(t0: seq<Avail>, av0: seq<Avail>, t: seq<Avail>, av: seq<Avail>, capacity: nat,
                            coalesce: bool)
  {
    forall t', av' :: YieldsAll(t, av, t', av', capacity, coalesce) ==> YieldsAll(t0, av0, t', av', capacity, coalesce)
  }

  lemma ContinuesRefl(t: seq<Avail>, av: seq<Avail>, capacity: nat, coalesce: bool)
    ensures Continues(t, av, t, av, capacity, coalesce)
  {
  }

  lemma Yielded(t0: seq<Avail>, av0: seq<Avail>, t: seq<Avail>, av: seq<Avail>, t1: seq<Avail>, av1: seq<Avail>,
                capacity: nat, coalesce: bool)
    requires Continues(t0, av0, t, av, capacity, coalesce)
    requires |av| > 4 && |t| < capacity && Yields(t, av, t1, av1, coalesce)
    ensures Continues(t0, av0, t1, av1, capacity, coalesce)
  {
    forall t', av' | YieldsAll(t1, av1, t', av', capacity, coalesce)
      ensures YieldsAll(t0, av0, t', av', capacity, coalesce)
    {
      assert YieldsAll(t, av, t', av', capacity, coalesce);
    }
  }

  lemma YieldedAll(t0: seq<Avail>, av0: seq<Avail>, t: seq<Avail>, av: seq<Avail>, capacity: nat, coalesce: bool)
    requires Continues(t0, av0, t, av, capacity, coalesce) && (|av| <= 4 || |t| >= capacity)
    ensures YieldsAll(t0, av0, t, av, capacity, coalesce)
  {
    assert YieldsAll(t, av, t, av, capacity, coalesce);
  }

  ghost predicate AllFree(own: seq<Owner>, a: nat, n: nat) {
    a + n <= |own| && forall x :: a <= x < a + n ==> own[x].Free?
  }

  /** Every claimed entry passes the validation of src/avail.c. */
  lemma TableInBounds(own: seq<Owner>, t: seq<Avail>, tab: Table, blockSize: nat)
    requires TableOk(own, t, tab) && Painted(own, 0, blockSize, FileHeader)
    ensures TableValid(t, blockSize, |own|)
  {
    forall i | 0 <= i < |t|
      ensures blockSize <= t[i].adr && t[i].adr + t[i].size <= |own|
    {
      var first, last := t[i].adr, t[i].adr + t[i].size - 1;
      CoverMember(t, i, first);
      CoverMember(t, i, last);
      assert Owns(own, first, Free(tab)) && Owns(own, last, Free(tab));
    }
  }

  lemma FileFrameRefl(own: seq<Owner>, f: seq<Cell>, cur: nat)
    ensures FileFrame(own, f, f, cur)
  {
  }

  /** From one state to the next, entries of the stack are in transit and one block is emptied. */
  ghost predicate Lifted(own: seq<Owner>, own': seq<Owner>, el: Avail) {
    && |own'| == |own|
    && forall x :: 0 <= x < |own| && own'[x] != own[x] ==>
         Stackish(own[x]) && (own'[x] == Unstacked || el.adr <= x < el.adr + el.size)
  }

  /** Only bytes of the stack are forgotten. */
  ghost predicate Forgot(own: seq<Owner>, own': seq<Owner>) {
    |own'| == |own| && forall x :: 0 <= x < |own| && own'[x] != own[x] ==> Stackish(own[x]) && own'[x] == Dropped
  }

  lemma ForgotNothing(own: seq<Owner>)
    ensures Forgot(own, own)
  {
  }

  /** The top block comes off the stack; its entries and its own bytes are in transit. */
  lemma UnstackTop(s: State, blockSize: nat, capacity: nat)
    requires s.Ok(blockSize, capacity) && |s.stack| > 0 && capacity > 0 && Settled(s.own)
    ensures var top := s.stack[0];
            var own' := PoppedOwners(s.own, capacity, top, Reserved, Unstacked);
            && s.(own := own', stack := s.stack[1..], pending := false).Ok(blockSize, capacity)
            && Claims(own', top.table, Unstacked) && Worthwhile(top.table) && |top.table| <= capacity / 2
            && Painted(own', top.adr, BlockSize(capacity), Reserved)
            && Painted(s.own, top.adr, BlockSize(capacity), AvailBlockAt(top.adr))
            && Lifted(s.own, own', Avail(BlockSize(capacity), top.adr))
  {
    var top := s.stack[0];
    var own' := PoppedOwners(s.own, capacity, top, Reserved, Unstacked);
    Unstack(s, blockSize, capacity, Reserved, Unstacked);
    PoppedClaims(s.own, capacity, top, Reserved, Unstacked);
    forall x: nat
      ensures Cover(top.table, x) == if Owns(own', x, Unstacked) then 1 else 0
    {
      assert Cover(top.table, x) == if Owns(s.own, x, Free(StackTable(top.adr))) then 1 else 0;
    }
  }

  /** The top block is overwritten in the header's link: its bytes and entries are forgotten. */
  lemma ForgetTop(s: State, blockSize: nat, capacity: nat)
    requires s.Ok(blockSize, capacity) && |s.stack| > 0 && capacity > 0
    ensures var own' := PoppedOwners(s.own, capacity, s.stack[0], Dropped, Dropped);
            && s.(own := own', stack := s.stack[1..], pending := false).Ok(blockSize, capacity)
            && Forgot(s.own, own')
            && var adr := s.stack[0].adr;
               adr < |s.own| && s.own[adr] == AvailBlockAt(adr) && own'[adr] == Dropped
  {
    Unstack(s, blockSize, capacity, Dropped, Dropped);
    PoppedClaims(s.own, capacity, s.stack[0], Dropped, Dropped);
  }

  /** One entry of the popped table joins the header. */
  lemma MergedEntry(s: State, blockSize: nat, capacity: nat, t: seq<Avail>, r: seq<Avail>, cur: nat)
    requires s.Ok(blockSize, capacity) && |t| > 0 && Claims(s.own, t, Unstacked) && t[0].size > 0
    requires Tidy(r) && |r| <= capacity
    requires forall x: nat :: Cover(r, x) == Cover(s.avail, x) + In(t[0], x)
    ensures var own' := Paint(s.own, t[0].adr, t[0].size, Free(HeaderTable));
            && s.(own := own', avail := r).Ok(blockSize, capacity)
            && Claims(own', t[1..], Unstacked) && Frame(s.own, own', cur) && NothingDropped(s.own, own')
  {
    EntryPainted(s.own, t, Unstacked, t[0], t[1..]);
    ClaimsTake(s.own, t, Unstacked, t[0], t[1..], Free(HeaderTable));
    GiveToHeader(s, blockSize, capacity, t[0], r, Unstacked);
  }

  lemma KeepsReserved(own: seq<Owner>, own': seq<Owner>, e: Avail, cur: nat)
    requires Frame(own, own', cur) && Painted(own, e.adr, e.size, Reserved)
    ensures Painted(own', e.adr, e.size, Reserved)
  {
  }

  lemma NoneLeft(own: seq<Owner>, own': seq<Owner>)
    requires Claims(own, [], Unstacked) && NothingDropped(own, own')
    ensures Claims(own', [], Unstacked) && Settled(own')
  {
    forall x: nat
      ensures !Owns(own', x, Unstacked)
    {
      assert Cover([], x) == if Owns(own, x, Unstacked) then 1 else 0;
    }
    forall x | 0 <= x < |own'|
      ensures own'[x] != Unstacked
    {
      assert !Owns(own', x, Unstacked);
    }
  }

  /** The steps of pop_avail_block seen from outside. */
  lemma PopFrame(own0: seq<Owner>, own1: seq<Owner>, own2: seq<Owner>, own3: seq<Owner>, el: Avail, cur: nat)
    requires Lifted(own0, own1, el) && Painted(own0, el.adr, el.size, AvailBlockAt(el.adr))
    requires Frame(own1, own2, cur) && NothingDropped(own1, own2) && Claims(own2, [], Unstacked)
    requires Forgot(own2, own3) && Painted(own2, el.adr, el.size, Reserved)
    ensures Painted(own3, el.adr, el.size, Reserved)
    ensures var own4 := Paint(own3, el.adr, el.size, Free(HeaderTable));
            Frame(own0, own4, cur) && Settled(own4) && (own3 == own2 ==> NothingDropped(own0, own4))
  {
    NoneLeft(own2, own2);
  }

  /** The first byte of the block that was overwritten in the link is lost. */
  lemma PopLoses(own0: seq<Owner>, own1: seq<Owner>, own2: seq<Owner>, own3: seq<Owner>, el: Avail, adr: nat)
    requires Lifted(own0, own1, el) && Forgot(own2, own3) && adr < |own2|
    requires NothingDropped(own1, own2) && Painted(own2, el.adr, el.size, Reserved)
    requires own2[adr] == AvailBlockAt(adr) && own3[adr] == Dropped
    ensures Loses(own0, Paint(own3, el.adr, el.size, Free(HeaderTable)))
  {
    assert Paint(own3, el.adr, el.size, Free(HeaderTable))[adr] == Dropped;
  }

  lemma PopFileFrame(own0: seq<Owner>, own1: seq<Owner>, f: seq<Cell>, f': seq<Cell>, el: Avail, cur: nat)
    requires FileFrame(own1, f, f', cur) && Lifted(own0, own1, el)
    ensures FileFrame(own0, f, f', cur)
  {
  }

  lemma TakeFrame(own0: seq<Owner>, own1: seq<Owner>, own2: seq<Owner>, el: Avail, cur: nat)
    requires Frame(own0, own1, cur) && Frame(own1, Paint(own2, el.adr, el.size, Sliver), cur)
    requires Painted(own2, el.adr, el.size, Reserved) && NothingDropped(own1, own2) && Settled(own1)
    ensures Frame(own0, Paint(own2, el.adr, el.size, Sliver), cur) && Settled(own2)
    ensures NothingDropped(own0, own1) ==> NothingDropped(own0, own2)
    ensures Loses(own0, own1) ==> Loses(own0, own2)
  {
  }

  lemma BucketFrame(own: seq<Owner>, el: Avail, cur: nat)
    requires Painted(own, el.adr, el.size, Free(BucketTable(cur))) && Settled(own)
    ensures var own' := Paint(own, el.adr, el.size, Reserved);
            && Painted(own', el.adr, el.size, Reserved) && Frame(own, Paint(own', el.adr, el.size, Sliver), cur)
            && NothingDropped(own, own') && Settled(own')
  {
  }

  /** The steps of _gdbm_alloc seen from outside: a region taken, its tail released. */
  lemma AllocFrame(own0: seq<Owner>, own1: seq<Owner>, own2: seq<Owner>, el: Avail, n: nat, cur: nat)
    requires n <= el.size && Painted(own1, el.adr, el.size, Reserved)
    requires Frame(own0, Paint(own1, el.adr, el.size, Sliver), cur)
    requires Frame(Paint(own1, el.adr + n, el.size - n, Sliver), own2, cur) && NothingDropped(own1, own2)
    ensures Painted(own2, el.adr, n, Reserved) && Frame(own0, Paint(own2, el.adr, n, Sliver), cur)
    ensures NothingDropped(own0, own1) ==> NothingDropped(own0, own2)
    ensures Loses(own0, own1) ==> Loses(own0, own2)
  {
  }

  lemma AllocFileFrame(own0: seq<Owner>, own1: seq<Owner>, f: seq<Cell>, g: seq<Cell>, h: seq<Cell>, el: Avail,
                       cur: nat)
    requires Painted(own1, el.adr, el.size, Reserved)
    requires Frame(own0, Paint(own1, el.adr, el.size, Sliver), cur)
    requires FileFrame(own0, f, g, cur) && FileFrame(own1, g, h, cur)
    ensures FileFrame(own0, f, h, cur)
  {
    forall x | 0 <= x < |f| && x < |own0| && Pinned(own0[x], cur)
      ensures h[x] == f[x]
    {
      assert Paint(own1, el.adr, el.size, Sliver)[x] == own0[x];
    }
  }

  lemma SpilledReserved(own: seq<Owner>, capacity: nat, t: seq<Avail>, adr: nat, loc: Avail)
    requires loc.adr == adr && loc.size >= BlockSize(capacity) && Painted(own, adr, loc.size, Reserved)
    requires forall x :: 0 <= x < |own| && Cover(Odds(t), x) > 0 ==> own[x] == Free(HeaderTable)
    ensures var own', n := SpilledOwners(own, capacity, t, adr), BlockSize(capacity);
            Painted(own', adr + n, loc.size - n, Reserved)
  {
  }

  /** Four blocks: the header, the directory at `dir`, the first bucket at `adr`, and one that
      is that bucket's free space. */
  ghost function FirstOwners(n: nat, dir: nat, adr: nat): (own: seq<Owner>)
    ensures |own| == 4 * n
    ensures forall x :: 0 <= x < |own| ==> own[x] == FirstOwner(n, dir, adr, x)
  {
    seq(4 * n, x requires 0 <= x => FirstOwner(n, dir, adr, x))
  }

  ghost function FirstOwner(n: nat, dir: nat, adr: nat, x: nat): Owner {
    if x < n then FileHeader else if dir <= x < dir + n then Directory
    else if adr <= x < adr + n then BucketAt(adr) else Free(BucketTable(adr))
  }

  /** The header's best fit, or the end of the space if nothing fits. */
  ghost predicate FromHeader(avail: seq<Avail>, nextBlock: nat, n: nat, e: Avail) {
    if Fits(avail, n) then BestFit(avail, n, e) else e.adr == nextBlock
  }

  /** Merging the spilled table `t` fills the header: no two entries coalesce, and together
      they are as many as the header's table can hold. */
  ghost predicate MergeFills(avail: seq<Avail>, t: seq<Avail>, capacity: nat) {
    |avail| + |t| == capacity && AddsApart(avail, t)
  }

  class FileSpace {
    const blockSize: nat
    const capacity: nat      // entries the header's free table can hold
    const coalesce: bool      // GDBM_SETCOALESCEBLKS
    const centralFree: bool   // GDBM_SETCENTFREE

    var file: seq<Cell>
    var nextBlock: nat
    var avail: seq<Avail>
    var availNext: nat
    var headerChanged: bool

    ghost var owner: seq<Owner>
    ghost var stack: seq<StackBlock>
    ghost var pending: bool
    ghost var slivers: seq<Avail>

    /** The space of a new database: header, directory and first bucket take a block each, and
        that bucket's free table has the fourth. */
    constructor (blockSize: nat, capacity: nat, coalesce: bool, centralFree: bool, file: seq<Cell>)
      requires blockSize > 0 && capacity >= 8 && |file| <= 4 * blockSize
      ensures this.blockSize == blockSize && this.capacity == capacity && this.file == file
      ensures this.coalesce == coalesce && this.centralFree == centralFree
      ensures nextBlock == 4 * blockSize && avail == [] && availNext == 0 && !headerChanged && stack == []
      ensures slivers == []
      ensures owner == FirstOwners(blockSize, blockSize, 2 * blockSize) && Valid(0, [])
    {
      this.blockSize, this.capacity, this.coalesce, this.centralFree := blockSize, capacity, coalesce, centralFree;
      this.file, nextBlock, avail, availNext, headerChanged := file, 4 * blockSize, [], 0, false;
      owner, stack, pending, slivers := FirstOwners(blockSize, blockSize, 2 * blockSize), [], false, [];
    }

    /** The space of a database that is opened again; `was` is how it was left. */
    constructor Existing(blockSize: nat, capacity: nat, coalesce: bool, centralFree: bool, file: seq<Cell>,
                         nextBlock: nat, avail: seq<Avail>, availNext: nat, ghost was: FileSpace)
      requires was.Valid(0, []) && file == was.file && blockSize == was.blockSize && capacity == was.capacity
      requires nextBlock == was.nextBlock && avail == was.avail && availNext == was.availNext
      ensures this.blockSize == blockSize && this.capacity == capacity && this.file == file
      ensures this.coalesce == coalesce && this.centralFree == centralFree
      ensures this.nextBlock == nextBlock && this.avail == avail && this.availNext == availNext && !headerChanged
      ensures owner == was.owner && stack == was.stack && slivers == was.slivers && Valid(0, [])
    {
      this.blockSize, this.capacity, this.coalesce, this.centralFree := blockSize, capacity, coalesce, centralFree;
      this.file, this.nextBlock, this.avail, this.availNext, headerChanged := file, nextBlock, avail, availNext, false;
      owner, stack, pending, slivers := was.owner, was.stack, false, was.slivers;
    }

    ghost function Now(cur: nat, av: seq<Avail>): State
      reads this`owner, this`file, this`avail, this`stack, this`pending, this`slivers
    {
      State(owner, file, avail, stack, pending, slivers, cur, av)
    }

    /** So much space goes to the header even if the bucket has room for it. */
    ghost predicate Central(n: int) {
      n > IGNORE_SIZE && (n >= blockSize || centralFree)
    }

    /** What adjust_bucket_avail makes of the header's table `t` and the bucket's table `av`. */
    ghost predicate Adjusted(t: seq<Avail>, av: seq<Avail>, t': seq<Avail>, av': seq<Avail>) {
      if |av| < 2 then (if |t| > 0 then Trades(t, av, t', av', coalesce) else t' == t && av' == av)
      else YieldsAll(t, av, t', av', capacity, coalesce)
    }

    /** The invariant while an operation is under way. */
    ghost predicate Consistent(cur: nat, av: seq<Avail>)
      reads this`owner, this`file, this`avail, this`stack, this`pending, this`slivers, this`nextBlock
    {
      && capacity >= 8 && blockSize > 0
      && |owner| == nextBlock
      && Now(cur, av).Ok(blockSize, capacity)
    }

    /** The invariant between operations. */
    ghost predicate Valid(cur: nat, av: seq<Avail>)
      reads this`owner, this`file, this`avail, this`stack, this`pending, this`slivers, this`nextBlock, this`availNext
    {
      && Consistent(cur, av)
      && availNext == Top(stack) && !pending && Settled(owner)
    }

    /** The header's table is at most half full and there is a spilled one to merge. */
    ghost predicate RunsLow(count: nat, next: nat) {
      count <= capacity / 2 && next != 0
    }

    /** The top spilled table would fill the header. */
    ghost predicate TopFills()
      reads this
    {
      |stack| > 0 && MergeFills(avail, stack[0].table, capacity)
    }

    /** What a pop adds to the header: the entries of the top table, then its own block. */
    ghost function TopEntries(): (t: seq<Avail>)
      reads this
    {
      if |stack| == 0 then [] else stack[0].table + [Avail(BlockSize(capacity), stack[0].adr)]
    }

    /** The table in which an allocation searches: the header's, refilled if it runs low. */
    ghost predicate Offered(table: seq<Avail>)
      reads this
    {
      if RunsLow(|avail|, availNext) then Merged(avail, TopEntries(), table) else table == avail
    }

    /** get_block: whole blocks at the end of the file. */
    method GetBlock(size: nat) returns (val: Avail)
      requires blockSize > 0 && |owner| == nextBlock
      modifies this`nextBlock, this`headerChanged, this`owner
      ensures val.adr == old(nextBlock) && size <= val.size && blockSize <= val.size
      ensures val.size == blockSize || val.size - blockSize < size
      ensures nextBlock == old(nextBlock) + val.size && headerChanged
      ensures owner == old(owner) + Reserve(val.size)
    {
      val := Avail(blockSize, nextBlock);
      while val.size < size
        invariant val.adr == nextBlock && blockSize <= val.size
        invariant val.size == blockSize || val.size - blockSize < size
        decreases size - val.size
      {
        val := val.(size := val.size + blockSize);
      }
      nextBlock := nextBlock + val.size;
      headerChanged := true;
      owner := owner + Reserve(val.size);
    }

    /** The header's best fit, or whole blocks from the end of the file. */
    method TakeSpace(ghost cur: nat, av: seq<Avail>, n: nat) returns (loc: Avail)
      requires Consistent(cur, av)
      modifies this`avail, this`owner, this`nextBlock, this`headerChanged
      ensures Consistent(cur, av)
      ensures loc.adr > 0 && 0 < loc.size && n <= loc.size && Painted(owner, loc.adr, loc.size, Reserved)
      ensures Frame(old(owner), Paint(owner, loc.adr, loc.size, Sliver), cur)
      ensures NothingDropped(old(owner), owner)
      ensures |avail| <= |old(avail)|
      ensures old(headerChanged) ==> headerChanged
      ensures FromHeader(old(avail), old(nextBlock), n, loc)
      ensures if Fits(old(avail), n) then nextBlock == old(nextBlock) && |avail| == |old(avail)| - 1
              else nextBlock == old(nextBlock) + loc.size && avail == old(avail)
      decreases 0
    {
      hide StackOk, NoStray, Claims, Tidy, Cover, Fits, BestFit;
      var rest;
      loc, rest := GetElem(n, avail);
      if loc.size == 0 {
        ghost var own0 := owner;
        loc := GetBlock(n);
        Appended(Now(cur, av).(own := own0), blockSize, capacity, loc.size);
      } else {
        TakeFromHeader(Now(cur, av), blockSize, capacity, loc, rest);
        avail := rest;
        owner := Paint(owner, loc.adr, loc.size, Reserved);
      }
      assert owner[loc.adr] == Reserved;
    }

    /** push_avail_block: half of the full header table moves to a new block on the stack. */
    method PushAvailBlock(ghost cur: nat, av: seq<Avail>) returns (av': seq<Avail>, changed: bool)
      requires Consistent(cur, av) && !pending && |avail| == capacity
      modifies this
      ensures Consistent(cur, av')
      ensures |avail| <= (capacity + 1) / 2 + 3
      ensures availNext == Top(stack) && |stack| > 0 && stack[1..] == old(stack)
      ensures pending == (old(availNext) != Top(old(stack)))
      ensures Frame(old(owner), owner, cur) && NothingDropped(old(owner), owner)
      ensures FileFrame(old(owner), old(file), file, cur)
      ensures old(slivers) <= slivers && |slivers| <= |old(slivers)| + 1
      decreases 1
    {
      hide State.Ok, Cover, Frame, FileFrame, NothingDropped, Pinned, Fits, BestFit, FromHeader, AllFree, Painted,
           Settled, Write;
      ghost var own0 := owner;
      var avSize := BlockSize(capacity);
      var newLoc := TakeSpace(cur, av, avSize);
      var next := availNext;
      ghost var own1 := owner;
      var spilled := SplitHeader(cur, av, newLoc);
      ghost var own2 := owner;
      av', changed := Release(cur, av, newLoc.adr + avSize, newLoc.size - avSize);
      var image := ImageCells(AvailImage(AvailBlock(capacity, next, spilled)), avSize);
      WroteTop(Now(cur, av'), blockSize, capacity, image);
      PushFrame(own0, own1, own2, owner, newLoc, avSize, cur);
      PushFileFrame(own0, own1, file, newLoc, image, cur);
      file := Write(file, newLoc.adr, image);
      assert next != Top(stack[1..]) ==> image[0] != StackImage(capacity, stack)[0];
      pending := next != Top(stack[1..]);
    }

    /** The middle of push_avail_block: odd entries go to the block at `loc`. */
    method SplitHeader(ghost cur: nat, av: seq<Avail>, loc: Avail) returns (spilled: seq<Avail>)
      requires Consistent(cur, av) && !pending && loc.adr > 0
      requires BlockSize(capacity) <= loc.size && Painted(owner, loc.adr, loc.size, Reserved)
      modifies this`avail, this`owner, this`stack, this`pending, this`availNext
      ensures Consistent(cur, av) && pending && availNext == loc.adr
      ensures stack == [StackBlock(loc.adr, spilled)] + old(stack)
      ensures |avail| == (|old(avail)| + 1) / 2 && avail == Evens(old(avail)) && spilled == Odds(old(avail))
      ensures Painted(owner, loc.adr + BlockSize(capacity), loc.size - BlockSize(capacity), Reserved)
      ensures |owner| == |old(owner)|
      ensures Frame(Paint(old(owner), loc.adr, BlockSize(capacity), Sliver), owner, cur)
      ensures NothingDropped(old(owner), owner)
      decreases 0
    {
      hide State.Ok, Cover, Frame, FileFrame, NothingDropped, Pinned;
      var kept;
      kept, spilled := SplitTable(avail);
      Spilled(Now(cur, av), blockSize, capacity, loc.adr);
      SpilledFrame(owner, capacity, avail, loc.adr, cur);
      SpilledReserved(owner, capacity, avail, loc.adr, loc);
      owner := SpilledOwners(owner, capacity, avail, loc.adr);
      avail := kept;
      stack := [StackBlock(loc.adr, spilled)] + stack;
      pending := true;
      availNext := loc.adr;
    }

    /** _gdbm_alloc: the current bucket's best fit, else the header's (refilled from the stack
        when it runs low), else new blocks; the unused part goes back. */
    method Allocate(ghost cur: nat, av: seq<Avail>, n: nat)
      returns (adr: nat, av': seq<Avail>, changed: bool, ghost overflow: bool, ghost table: seq<Avail>)
      requires Valid(cur, av)
      modifies this
      ensures Valid(cur, av')
      ensures adr > 0 && Painted(owner, adr, n, Reserved)
      ensures Frame(old(owner), Paint(owner, adr, n, Sliver), cur)
      ensures FileFrame(old(owner), old(file), file, cur)
      ensures overflow <==> !Fits(av, n) && RunsLow(|old(avail)|, old(availNext)) && old(TopFills())
      ensures if overflow then Loses(old(owner), owner) else NothingDropped(old(owner), owner)
      ensures !Fits(av, n) ==> headerChanged
      ensures !headerChanged ==> avail == old(avail) && nextBlock == old(nextBlock) && availNext == old(availNext)
      ensures old(slivers) <= slivers && |slivers| <= |old(slivers)| + 2
      ensures Fits(av, n) ==> exists e :: BestFit(av, n, e) && adr == e.adr &&
                                          (headerChanged <==> old(headerChanged) || Central(e.size - n))
      ensures !Fits(av, n) && !overflow ==> old(Offered(table))
      ensures !Fits(av, n) && Fits(table, n) ==>
                (exists e :: BestFit(table, n, e) && adr == e.adr) && (overflow || nextBlock == old(nextBlock))
      ensures !Fits(av, n) && !Fits(table, n) && !overflow ==> adr == old(nextBlock)
    {
      hide State.Ok, Cover, Frame, FileFrame, NothingDropped, Loses, Pinned, Fits, BestFit, FromHeader, Merged;
      ghost var own0 := owner;
      var el, c;
      el, av', changed, overflow, table := FindSpace(cur, av, n);
      ghost var own2, file2 := owner, file;
      av', c := Release(cur, av', el.adr + n, el.size - n);
      changed := changed || c;
      adr := el.adr;
      AllocFrame(own0, own2, owner, el, n, cur);
      AllocFileFrame(own0, own2, old(file), file2, file, el, cur);
    }

    /** The first half of _gdbm_alloc: where the space comes from.  Unless the current bucket has
        it, `table` is the header's table as it is searched, after the spilled one was merged. */
    method FindSpace(ghost cur: nat, av: seq<Avail>, n: nat)
      returns (el: Avail, av': seq<Avail>, changed: bool, ghost overflow: bool, ghost table: seq<Avail>)
      requires Valid(cur, av)
      modifies this
      ensures Valid(cur, av')
      ensures el.adr > 0 && 0 < el.size && n <= el.size && Painted(owner, el.adr, el.size, Reserved)
      ensures Frame(old(owner), Paint(owner, el.adr, el.size, Sliver), cur)
      ensures FileFrame(old(owner), old(file), file, cur)
      ensures overflow <==> !Fits(av, n) && RunsLow(|old(avail)|, old(availNext)) && old(TopFills())
      ensures if overflow then Loses(old(owner), owner) else NothingDropped(old(owner), owner)
      ensures headerChanged <==> old(headerChanged) || !Fits(av, n)
      ensures !headerChanged ==> avail == old(avail) && nextBlock == old(nextBlock) && availNext == old(availNext)
      ensures old(slivers) <= slivers && |slivers| <= |old(slivers)| + 1
      ensures Fits(av, n) ==> BestFit(av, n, el) && multiset(av') == multiset(av) - multiset{el} && |av'| < BUCKET_AVAIL
      ensures Fits(av, n) ==> avail == old(avail) && nextBlock == old(nextBlock) && stack == old(stack)
      ensures !Fits(av, n) && !overflow ==> av' == av && old(Offered(table))
      ensures !Fits(av, n) ==> stack == if RunsLow(|old(avail)|, old(availNext)) then old(stack)[1..] else old(stack)
      ensures !Fits(av, n) && Fits(table, n) ==>
                BestFit(table, n, el) && |avail| < capacity && (overflow || nextBlock == old(nextBlock))
      ensures !Fits(av, n) && !Fits(table, n) ==>
                el.adr + el.size == nextBlock && avail == table && (overflow || el.adr == old(nextBlock))
    {
      hide State.Ok, Cover, Frame, FileFrame, NothingDropped, Loses, Pinned, Tidy, Fits, BestFit, Painted, Settled,
           Merged, AddsApart;
      ghost var own0 := owner;
      FileFrameRefl(owner, file, cur);
      TablesTidy(Now(cur, av), blockSize, capacity);
      overflow, changed, table := false, false, [];
      el, av' := GetElem(n, av);
      if el.size == 0 {
        FrameRefl(owner, cur);
        if |avail| <= capacity / 2 && availNext != 0 {
          av', changed, overflow := PopAvailBlock(cur, av');
        }
        ghost var own1 := owner;
        table := avail;
        TablesTidy(Now(cur, av'), blockSize, capacity);
        el := TakeSpace(cur, av', n);
        headerChanged := true;
        TakeFrame(own0, own1, owner, el, cur);
      } else {
        TakeFromBucket(Now(cur, av), blockSize, capacity, el, av');
        owner := Paint(owner, el.adr, el.size, Reserved);
        BucketFrame(own0, el, cur);
        NotHeader(Now(cur, av'), blockSize, capacity, el);
      }
    }

    /** The header half of _gdbm_free: spill first if the table is full. */
    method PutInHeader(ghost cur: nat, av: seq<Avail>, e: Avail) returns (av': seq<Avail>, changed: bool)
      requires Consistent(cur, av) && Painted(owner, e.adr, e.size, Reserved) && e.size > IGNORE_SIZE
      requires |avail| == capacity ==> !pending
      modifies this
      ensures Consistent(cur, av')
      ensures Frame(Paint(old(owner), e.adr, e.size, Sliver), owner, cur) && NothingDropped(old(owner), owner)
      ensures FileFrame(old(owner), old(file), file, cur)
      ensures headerChanged && |avail| > 0 && Painted(owner, e.adr, e.size, Free(HeaderTable))
      ensures |old(avail)| < capacity ==>
                && file == old(file) && stack == old(stack) && pending == old(pending)
                && availNext == old(availNext) && nextBlock == old(nextBlock)
                && |avail| <= |old(avail)| + 1 && av' == av && Gains(old(avail), e, avail, coalesce)
      ensures old(Valid(cur, av)) ==> Valid(cur, av')
      ensures old(slivers) <= slivers && |slivers| <= |old(slivers)| + 1
      decreases if |avail| == capacity then 2 else 0, 0
    {
      hide StackOk, NoStray, Claims, Tidy, Cover, Gains;
      av', changed := av, false;
      if |avail| == capacity {
        av', changed := PushAvailBlock(cur, av);
      }
      assert Painted(owner, e.adr, e.size, Reserved);
      JoinHeader(cur, av', e);
    }

    /** A region joins the header's table, which has room. */
    method JoinHeader(ghost cur: nat, ghost av: seq<Avail>, e: Avail)
      requires Consistent(cur, av) && Painted(owner, e.adr, e.size, Reserved) && e.size > IGNORE_SIZE
      requires |avail| < capacity
      modifies this`avail, this`owner, this`headerChanged
      ensures Consistent(cur, av)
      ensures owner == Paint(old(owner), e.adr, e.size, Free(HeaderTable)) && headerChanged
      ensures 0 < |avail| <= |old(avail)| + 1 && Gains(old(avail), e, avail, coalesce)
      decreases 0
    {
      hide StackOk, NoStray, Claims, Tidy, Cover, Gains;
      var r := PutElem(e, avail, coalesce);
      GiveToHeader(Now(cur, av), blockSize, capacity, e, r, Reserved);
      avail := r;
      owner := Paint(owner, e.adr, e.size, Free(HeaderTable));
      headerChanged := true;
    }

    /** At most four bytes: they are not recorded anywhere. */
    method Ignore(ghost cur: nat, av: seq<Avail>, ghost e: Avail)
      requires Consistent(cur, av) && Painted(owner, e.adr, e.size, Reserved) && e.size <= IGNORE_SIZE
      modifies this`owner, this`slivers
      ensures Consistent(cur, av)
      ensures owner == Paint(old(owner), e.adr, e.size, Sliver) && NothingDropped(old(owner), owner)
      ensures Frame(Paint(old(owner), e.adr, e.size, Sliver), owner, cur)
      ensures FileFrame(old(owner), old(file), file, cur)
      ensures old(slivers) <= slivers && |slivers| <= |old(slivers)| + 1
    {
      hide StackOk, NoStray, Claims, Tidy, Cover;
      ghost var own0 := owner;
      if e.size > 0 {
        DiscardSliver(Now(cur, av), blockSize, capacity, e);
        slivers := slivers + [e];
      }
      owner := Paint(owner, e.adr, e.size, Sliver);
      assert e.size == 0 ==> owner == own0;
    }

    /** The other half of _gdbm_free: the region joins the current bucket's table. */
    method PutInBucket(ghost cur: nat, av: seq<Avail>, e: Avail) returns (av': seq<Avail>)
      requires Consistent(cur, av) && Painted(owner, e.adr, e.size, Reserved) && e.size > IGNORE_SIZE
      requires |av| < BUCKET_AVAIL
      modifies this`owner
      ensures Consistent(cur, av')
      ensures owner == Paint(old(owner), e.adr, e.size, Free(BucketTable(cur)))
      ensures Gains(av, e, av', coalesce)
      decreases 0
    {
      hide StackOk, NoStray, Claims, Tidy, Cover, Gains;
      av' := PutElem(e, av, coalesce);
      GiveToBucket(Now(cur, av), blockSize, capacity, e, av');
      owner := Paint(owner, e.adr, e.size, Free(BucketTable(cur)));
    }

    /** The branches of _gdbm_free: large regions go to the header's table, and so do all others if
        free space is kept there or the current bucket's table is full. */
    method PutInTable(ghost cur: nat, av: seq<Avail>, e: Avail) returns (av': seq<Avail>, changed: bool)
      requires Consistent(cur, av) && Painted(owner, e.adr, e.size, Reserved) && e.size > IGNORE_SIZE
      requires |avail| == capacity ==> !pending
      modifies this
      ensures Consistent(cur, av')
      ensures Frame(Paint(old(owner), e.adr, e.size, Sliver), owner, cur) && NothingDropped(old(owner), owner)
      ensures FileFrame(old(owner), old(file), file, cur)
      ensures |old(avail)| < capacity ==>
                && file == old(file) && stack == old(stack) && pending == old(pending)
                && availNext == old(availNext) && nextBlock == old(nextBlock) && |avail| <= |old(avail)| + 1
      ensures e.size >= blockSize || centralFree || |av| >= BUCKET_AVAIL ==>
                && headerChanged && |avail| > 0 && Painted(owner, e.adr, e.size, Free(HeaderTable))
                && (|old(avail)| < capacity ==> av' == av && Gains(old(avail), e, avail, coalesce))
      ensures e.size < blockSize && !centralFree && |av| < BUCKET_AVAIL ==>
                && headerChanged == old(headerChanged) && Painted(owner, e.adr, e.size, Free(BucketTable(cur)))
                && avail == old(avail) && nextBlock == old(nextBlock) && availNext == old(availNext)
                && Gains(av, e, av', coalesce)
      ensures old(Valid(cur, av)) ==> Valid(cur, av')
      ensures old(slivers) <= slivers && |slivers| <= |old(slivers)| + 1
      decreases if |avail| == capacity then 2 else 0, 1
    {
      hide State.Ok, Cover, FreeOnly, Gains;
      changed := false;
      if e.size >= blockSize || centralFree || |av| >= BUCKET_AVAIL {
        av', changed := PutInHeader(cur, av, e);
      } else {
        av' := PutInBucket(cur, av, e);
      }
    }

    /** _gdbm_free: slivers are ignored; a region joins a table, and if the header has changed, the
        current bucket and the header trade. */
    method Release(ghost cur: nat, av: seq<Avail>, adr: nat, n: nat) returns (av': seq<Avail>, changed: bool)
      requires Consistent(cur, av) && Painted(owner, adr, n, Reserved)
      requires |avail| == capacity ==> !pending
      modifies this
      ensures Consistent(cur, av')
      ensures Frame(Paint(old(owner), adr, n, Sliver), owner, cur) && NothingDropped(old(owner), owner)
      ensures FileFrame(old(owner), old(file), file, cur)
      ensures headerChanged <==> old(headerChanged) ||
                                 (n > IGNORE_SIZE && (n >= blockSize || centralFree || |av| >= BUCKET_AVAIL))
      ensures !headerChanged ==> avail == old(avail) && nextBlock == old(nextBlock) && availNext == old(availNext)
      ensures !headerChanged && n > IGNORE_SIZE ==> Gains(av, Avail(n, adr), av', coalesce)
      ensures n > IGNORE_SIZE && (n >= blockSize || centralFree || |av| >= BUCKET_AVAIL) && |old(avail)| < capacity ==>
                exists t :: Gains(old(avail), Avail(n, adr), t, coalesce) && Adjusted(t, av, avail, av')
      ensures n > IGNORE_SIZE && n < blockSize && !centralFree && |av| < BUCKET_AVAIL && headerChanged ==>
                exists t :: Gains(av, Avail(n, adr), t, coalesce) && Adjusted(old(avail), t, avail, av')
      ensures |old(avail)| < capacity ==>
                && file == old(file) && stack == old(stack) && pending == old(pending)
                && availNext == old(availNext) && nextBlock == old(nextBlock) && |avail| <= |old(avail)| + 3
      ensures old(Valid(cur, av)) ==> Valid(cur, av')
      ensures old(slivers) <= slivers && |slivers| <= |old(slivers)| + 1
      ensures n > IGNORE_SIZE ==> AllFree(owner, adr, n)
      ensures n <= IGNORE_SIZE ==> av' == av && avail == old(avail) && owner == Paint(old(owner), adr, n, Sliver)
      decreases if |avail| == capacity then 2 else 0, 2
    {
      hide State.Ok, Cover, FreeOnly, Gains, Adjusted, Frame, FileFrame;
      av', changed := av, false;
      ghost var own0 := owner;
      var e := Avail(n, adr);
      if n <= IGNORE_SIZE {
        Ignore(cur, av, e);
        return;
      }
      av', changed := PutInTable(cur, av, e);
      ghost var own1, tab := owner, owner[adr].table;
      if headerChanged {
        var c;
        av', c := AdjustBucketAvail(cur, av');
        changed := changed || c;
        FrameTrans(Paint(own0, adr, n, Sliver), own1, owner, cur);
        StaysFree(own1, owner, adr, n, tab);
      }
    }

    /** pop_avail_block: the top spilled table is merged back into the header, and its block
        with it.  When the merge fills the header table, the code spills it again and then
        overwrites the link to the new block: everything in that block is forgotten. */
    method PopAvailBlock(ghost cur: nat, av: seq<Avail>) returns (av': seq<Avail>, changed: bool, overflow: bool)
      requires Valid(cur, av) && |avail| <= capacity / 2 && availNext != 0
      modifies this
      ensures Valid(cur, av')
      ensures stack == old(stack)[1..] && headerChanged
      ensures Frame(old(owner), owner, cur) && FileFrame(old(owner), old(file), file, cur)
      ensures overflow <==> old(TopFills())
      ensures if overflow then Loses(old(owner), owner) else NothingDropped(old(owner), owner)
      ensures !overflow ==> av' == av && Merged(old(avail), old(TopEntries()), avail) && nextBlock == old(nextBlock)
      ensures old(slivers) <= slivers && |slivers| <= |old(slivers)| + 1
    {
      hide State.Ok, Cover, Frame, FileFrame, NothingDropped, Loses, Painted, Claims, PoppedOwners, Settled,
           Worthwhile, Merged, AddsApart;
      ghost var own0, rest := owner, stack[1..];
      var newEl := Avail(BlockSize(capacity), availNext);
      var next;
      next, av', changed, overflow := UnloadTop(cur, av);
      availNext := next;
      headerChanged := true;
      GiveBlock(cur, av', newEl, old(avail), old(stack)[0].table);
    }

    /** The body of pop_avail_block up to the point where the emptied block is given back. */
    method UnloadTop(ghost cur: nat, av: seq<Avail>) returns (next: nat, av': seq<Avail>, changed: bool, overflow: bool)
      requires Valid(cur, av) && |avail| <= capacity / 2 && availNext != 0
      modifies this
      ensures Consistent(cur, av') && |avail| < capacity && !pending
      ensures |old(stack)| > 0 && stack == old(stack)[1..] && next == Top(stack)
      ensures var newEl := Avail(BlockSize(capacity), old(availNext));
              && Painted(owner, newEl.adr, newEl.size, Reserved)
              && var own := Paint(owner, newEl.adr, newEl.size, Free(HeaderTable));
                 && Frame(old(owner), own, cur) && Settled(own)
                 && (if overflow then Loses(old(owner), own) else NothingDropped(old(owner), own))
      ensures FileFrame(old(owner), old(file), file, cur)
      ensures overflow <==> old(TopFills())
      ensures !overflow ==> av' == av && Merged(old(avail), old(stack)[0].table, avail) && nextBlock == old(nextBlock)
      ensures old(slivers) <= slivers && |slivers| <= |old(slivers)| + 1
    {
      hide State.Ok, StackOk, Cover, Frame, FileFrame, NothingDropped, Loses, Pinned, Tidy, Claims, PoppedOwners,
           Merged, AddsApart, Settled, Worthwhile, Lifted, Forgot, Painted, MergeFills;
      ghost var own0, top, rest := owner, stack[0], stack[1..];
      ghost var newEl := Avail(BlockSize(capacity), availNext);
      var blk := ReadAvailBlock(cur, av);
      next := blk.next;
      UnstackTop(Now(cur, av), blockSize, capacity);
      owner := PoppedOwners(owner, capacity, top, Reserved, Unstacked);
      stack := rest;
      ghost var own1 := owner;
      av', changed, overflow := MergeTop(cur, av, blk.table);
      KeepsReserved(own1, owner, newEl, cur);
      ghost var own2 := owner;
      ForgotNothing(owner);
      if overflow {
        ForgetTop(Now(cur, av'), blockSize, capacity);
        ghost var adr := stack[0].adr;
        owner := PoppedOwners(owner, capacity, stack[0], Dropped, Dropped);
        stack, pending := rest, false;
        PopLoses(own0, own1, own2, owner, newEl, adr);
      }
      PopFrame(own0, own1, own2, owner, newEl, cur);
      PopFileFrame(own0, own1, old(file), file, newEl, cur);
    }

    /** The end of pop_avail_block: the emptied block itself becomes free space. */
    method GiveBlock(ghost cur: nat, av: seq<Avail>, newEl: Avail, ghost before: seq<Avail>, ghost more: seq<Avail>)
      requires Consistent(cur, av) && |avail| < capacity
      requires newEl.size > IGNORE_SIZE && Painted(owner, newEl.adr, newEl.size, Reserved)
      modifies this`avail, this`owner
      ensures Consistent(cur, av)
      ensures owner == Paint(old(owner), newEl.adr, newEl.size, Free(HeaderTable))
      ensures Merged(before, more, old(avail)) ==> Merged(before, more + [newEl], avail)
    {
      hide StackOk, NoStray, Cover, Tidy, Claims, Merged, Untouched;
      var r := PutElem(newEl, avail, true);
      if Merged(before, more, avail) {
        MergedNext(before, more, avail, newEl, r);
      }
      GiveToHeader(Now(cur, av), blockSize, capacity, newEl, r, Reserved);
      avail := r;
      owner := Paint(owner, newEl.adr, newEl.size, Free(HeaderTable));
    }

    /** The outer loop of pop_avail_block.  An overflow can only happen once every entry has
        been merged, so the loop never comes back to a half-merged table. */
    method MergeTop(ghost cur: nat, av: seq<Avail>, t: seq<Avail>) returns (av': seq<Avail>, changed: bool,
        overflow: bool)
      requires Consistent(cur, av) && !pending && Claims(owner, t, Unstacked) && Worthwhile(t)
      requires |avail| <= capacity / 2 && |t| <= capacity / 2
      modifies this
      ensures Consistent(cur, av') && Claims(owner, [], Unstacked) && |avail| < capacity
      ensures overflow <==> MergeFills(old(avail), t, capacity)
      ensures overflow ==> |stack| > 0 && stack[1..] == old(stack)
      ensures !overflow ==> stack == old(stack) && !pending
      ensures !overflow ==> av' == av && Merged(old(avail), t, avail) && nextBlock == old(nextBlock)
      ensures Frame(old(owner), owner, cur) && NothingDropped(old(owner), owner)
      ensures FileFrame(old(owner), old(file), file, cur)
      ensures old(slivers) <= slivers && |slivers| <= |old(slivers)| + 1
    {
      hide State.Ok, Cover, Frame, FileFrame, NothingDropped, Pinned, Claims, AddsApart;
      FrameRefl(owner, cur);
      FileFrameRefl(owner, file, cur);
      MergedNone(avail);
      av', changed, overflow := av, false, false;
      var index := 0;
      assert t[0..] == t;
      while index < |t|
        invariant 0 <= index <= |t| && |avail| < capacity
        invariant index == 0 || index == |t|
        invariant overflow ==> MergeFills(old(avail), t, capacity) && |stack| > 0 && stack[1..] == old(stack)
        invariant overflow ==> index == |t|
        invariant !overflow ==> stack == old(stack) && !pending && slivers == old(slivers)
        invariant !overflow ==> av' == av && Merged(old(avail), t[..index], avail) && nextBlock == old(nextBlock)
        invariant index == 0 ==> avail == old(avail)
        invariant Consistent(cur, av') && Claims(owner, t[index..], Unstacked)
        invariant Frame(old(owner), owner, cur) && NothingDropped(old(owner), owner)
        invariant FileFrame(old(owner), old(file), file, cur)
        invariant old(slivers) <= slivers && |slivers| <= |old(slivers)| + 1
      {
        ghost var own1, file1 := owner, file;
        index := MergeEntries(cur, av', t, index);
        FrameTrans(old(owner), own1, owner, cur);
        assert t[0..index] == t[..index];
        if |avail| == capacity {
          assert t[index..] == [] && t[..index] == t;
          ghost var own2 := owner;
          av', changed := PushAvailBlock(cur, av');
          overflow := true;
          FrameTrans(old(owner), own2, owner, cur);
          FileFrameTrans(old(owner), own2, old(file), file1, file, cur);
          NoneLeft(own2, owner);
        }
      }
      assert t[index..] == [] && t[..index] == t;
    }

    /** The inner loop of pop_avail_block: entries move to the header while there is room. */
    method MergeEntries(ghost cur: nat, av: seq<Avail>, t: seq<Avail>, start: nat) returns (index: nat)
      requires Consistent(cur, av) && start <= |t| && Claims(owner, t[start..], Unstacked)
      requires Worthwhile(t)
      modifies this`avail, this`owner
      ensures Consistent(cur, av) && start <= index <= |t| && Claims(owner, t[index..], Unstacked)
      ensures index == |t| || |avail| == capacity
      ensures Merged(old(avail), t[start..index], avail)
      ensures Frame(old(owner), owner, cur) && NothingDropped(old(owner), owner)
    {
      hide StackOk, NoStray, Frame, NothingDropped, Pinned, Cover, Tidy, Merged, Untouched;
      FrameRefl(owner, cur);
      MergedNone(avail);
      assert t[start..start] == [];
      index := start;
      while index < |t| && |avail| < capacity
        invariant start <= index <= |t| && Merged(old(avail), t[start..index], avail)
        invariant Consistent(cur, av) && Claims(owner, t[index..], Unstacked)
        invariant Frame(old(owner), owner, cur) && NothingDropped(old(owner), owner)
      {
        var e := t[index];
        var r := PutElem(e, avail, true);
        MergedEntry(Now(cur, av), blockSize, capacity, t[index..], r, cur);
        assert t[index..][1..] == t[index + 1..];
        MergedNext(old(avail), t[start..index], avail, e, r);
        assert t[start..index] + [e] == t[start..index + 1];
        ghost var own1 := owner;
        avail := r;
        owner := Paint(owner, e.adr, e.size, Free(HeaderTable));
        FrameTrans(old(owner), own1, owner, cur);
        index := index + 1;
      }
    }

    /** Reads the block the header points to; the validation cannot fail. */
    method ReadAvailBlock(ghost cur: nat, av: seq<Avail>) returns (blk: AvailBlock)
      requires Valid(cur, av) && availNext != 0
      ensures |stack| > 0 && blk == AvailBlock(capacity, Top(stack[1..]), stack[0].table)
    {
      var image := ReadImage(file, availNext, BlockSize(capacity));
      assert image == Some(AvailImage(AvailBlock(capacity, Top(stack[1..]), stack[0].table)));
      blk := image.value.block;
      TableInBounds(owner, blk.table, StackTable(stack[0].adr), blockSize);
      if !AvailBlockValid(blk, BlockSize(capacity), blockSize, nextBlock) {
        assert false;
      }
    }

    /** adjust_bucket_avail: keep the current bucket's free table about one third full. */
    method AdjustBucketAvail(ghost cur: nat, av: seq<Avail>) returns (av': seq<Avail>, changed: bool)
      requires Consistent(cur, av)
      modifies this`avail, this`owner
      ensures Consistent(cur, av')
      ensures Frame(old(owner), owner, cur) && NothingDropped(old(owner), owner)
      ensures |avail| <= |old(avail)| + 2
      ensures !changed ==> av' == av
      ensures FreeOnly(old(owner), owner)
      ensures Adjusted(old(avail), av, avail, av')
      decreases 0
    {
      hide Cover, Frame, NothingDropped, Pinned, StackOk, NoStray, Claims, Tidy, FreeOnly, BestFit, Trades, Yields,
           YieldsAll, Continues;
      var third := BUCKET_AVAIL / 3;
      av', changed := av, false;
      FrameRefl(owner, cur);
      FreeRefl(owner);
      if |av| < third {
        if |avail| > 0 {
          av' := MoveToBucket(cur, av);
          changed := true;
        }
        return;
      }
      ContinuesRefl(avail, av, capacity, coalesce);
      while |av'| > BUCKET_AVAIL - third && |avail| < capacity
        invariant Consistent(cur, av')
        invariant Frame(old(owner), owner, cur) && NothingDropped(old(owner), owner)
        invariant |avail| + |av'| <= |old(avail)| + |av|
        invariant |av'| >= BUCKET_AVAIL - third || av' == av
        invariant if changed then |av| > 4 else av' == av && avail == old(avail)
        invariant FreeOnly(old(owner), owner)
        invariant Continues(old(avail), av, avail, av', capacity, coalesce)
        decreases |av'|
      {
        ghost var own1, t1, av1 := owner, avail, av';
        av' := MoveToHeader(cur, av');
        Yielded(old(avail), av, t1, av1, avail, av', capacity, coalesce);
        changed := true;
        FrameTrans(old(owner), own1, owner, cur);
        FreeTrans(old(owner), own1, owner);
      }
      YieldedAll(old(avail), av, avail, av', capacity, coalesce);
    }

    /** The header's largest entry goes to the current bucket. */
    method MoveToBucket(ghost cur: nat, av: seq<Avail>) returns (av': seq<Avail>)
      requires Consistent(cur, av) && |av| < BUCKET_AVAIL && |avail| > 0
      modifies this`avail, this`owner
      ensures Consistent(cur, av')
      ensures Frame(old(owner), owner, cur) && NothingDropped(old(owner), owner) && FreeOnly(old(owner), owner)
      ensures Trades(old(avail), av, avail, av', coalesce) && |avail| < |old(avail)|
      decreases 0
    {
      hide State.Ok, Cover, Tidy, Painted, Pinned, Gains;
      var e, rest := avail[|avail| - 1], avail[..|avail| - 1];
      TablesTidy(Now(cur, av), blockSize, capacity);
      LastEntry(avail);
      TakeFromHeader(Now(cur, av), blockSize, capacity, e, rest);
      ghost var own0 := owner;
      avail := rest;
      owner := Paint(owner, e.adr, e.size, Reserved);
      av' := PutElem(e, av, coalesce);
      PaintedThen(own0, e.adr, e.size, Reserved);
      GiveToBucket(Now(cur, av), blockSize, capacity, e, av');
      owner := Paint(owner, e.adr, e.size, Free(BucketTable(cur)));
      Handed(own0, e, HeaderTable, BucketTable(cur), owner, cur);
    }

    /** The current bucket's smallest entry goes to the header. */
    method MoveToHeader(ghost cur: nat, av: seq<Avail>) returns (av': seq<Avail>)
      requires Consistent(cur, av) && |av| > 0 && |avail| < capacity
      modifies this`avail, this`owner
      ensures Consistent(cur, av')
      ensures Frame(old(owner), owner, cur) && NothingDropped(old(owner), owner) && FreeOnly(old(owner), owner)
      ensures |av'| == |av| - 1 && |avail| <= |old(avail)| + 1
      ensures Yields(old(avail), av, avail, av', coalesce)
      decreases 0
    {
      hide State.Ok, Cover, Tidy, Fits, BestFit, Painted, Pinned, Gains;
      SomethingFits(av);
      TablesTidy(Now(cur, av), blockSize, capacity);
      var e;
      e, av' := GetElem(0, av);
      TakeFromBucket(Now(cur, av), blockSize, capacity, e, av');
      ghost var own0 := owner;
      owner := Paint(owner, e.adr, e.size, Reserved);
      var r := PutElem(e, avail, coalesce);
      PaintedThen(own0, e.adr, e.size, Reserved);
      GiveToHeader(Now(cur, av'), blockSize, capacity, e, r, Reserved);
      avail := r;
      owner := Paint(owner, e.adr, e.size, Free(HeaderTable));
      Handed(own0, e, BucketTable(cur), HeaderTable, owner, cur);
    }
  }
}
