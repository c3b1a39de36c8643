/**
 The file-space allocator (src/falloc.c).

 A ghost map gives every byte below `nextBlock` exactly one owner.  That one invariant says
 both that no byte is handed out twice (an owner is a function of the byte) and that no byte
 disappears (the function is total below `nextBlock`).
 */
module Space {
  import opened AvailTable
  import opened Layout

  /** Which free table an entry sits in. */
  datatype Table = HeaderTable | BucketTable(adr: nat) | StackTable(adr: nat)

  datatype Owner =
    | FileHeader
    | Directory
    | OldDirectory(n: nat)
    | BucketAt(adr: nat)
    | Record(key: seq<byte>)
    | Reserved                 // handed out, not yet put to use
    | AvailBlockAt(adr: nat)   // a spilled free table
    | Unstacked                // an entry of the spilled table being taken off the stack
    | Free(table: Table)
    | Sliver                   // too small to be worth recording
    | Dropped                  // forgotten by a pop that overflowed the header table

  datatype StackBlock = StackBlock(adr: nat, table: seq<Avail>)

  /** Bytes the allocator must leave alone while `cur` is the current bucket. */
  ghost predicate Pinned(o: Owner, cur: nat) {
    match o
    case Free(BucketTable(a)) => a != cur
    case Free(_) => false
    case AvailBlockAt(_) => false
    case Unstacked => false
    case Sliver => false
    case Dropped => false
    case _ => true
  }

  ghost predicate Painted(own: seq<Owner>, a: nat, n: nat, o: Owner) {
    a + n <= |own| && forall x :: a <= x < a + n ==> own[x] == o
  }

  ghost function Paint(own: seq<Owner>, a: nat, n: nat, o: Owner): (r: seq<Owner>)
    ensures |r| == |own|
    ensures forall x :: 0 <= x < |own| ==> r[x] == if a <= x < a + n then o else own[x]
  {
    seq(|own|, x requires 0 <= x < |own| => if a <= x < a + n then o else own[x])
  }

  /** Hands every byte covered by `t` to owner `o`. */
  ghost function Retag(own: seq<Owner>, t: seq<Avail>, o: Owner): (r: seq<Owner>)
    ensures |r| == |own|
    ensures forall x :: 0 <= x < |own| ==> r[x] == if Cover(t, x) > 0 then o else own[x]
  {
    seq(|own|, x requires 0 <= x < |own| => if Cover(t, x) > 0 then o else own[x])
  }

  ghost predicate Owns(own: seq<Owner>, x: nat, o: Owner) {
    x < |own| && own[x] == o
  }

  /** The table's entries are disjoint and are exactly the bytes owned by `o`. */
  ghost predicate Claims(own: seq<Owner>, t: seq<Avail>, o: Owner) {
    forall x: nat :: Cover(t, x) == if Owns(own, x, o) then 1 else 0
  }

  ghost predicate TableOk(own: seq<Owner>, t: seq<Avail>, tab: Table) {
    Tidy(t) && Claims(own, t, Free(tab))
  }

  /** Between two states: pinned bytes keep their owner, no byte becomes pinned. */
  ghost predicate Frame(own: seq<Owner>, own': seq<Owner>, cur: nat) {
    && |own| <= |own'|
    && forall x :: 0 <= x < |own'| ==>
         if x < |own| && Pinned(own[x], cur) then own'[x] == own[x] else !Pinned(own'[x], cur)
  }

  /** No byte is forgotten between the two states, and none that was is found again. */
  ghost predicate NothingDropped(own: seq<Owner>, own': seq<Owner>) {
    && (forall x :: 0 <= x < |own'| && own'[x] in {Dropped, Unstacked} ==> x < |own| && own[x] == own'[x])
    && (forall x :: 0 <= x < |own| && x < |own'| && own[x] == Dropped ==> own'[x] == Dropped)
  }

  /** Some byte is forgotten that was not. */
  ghost predicate Loses(own: seq<Owner>, own': seq<Owner>) {
    exists x :: 0 <= x < |own'| && own'[x] == Dropped && (x < |own| ==> own[x] != Dropped)
  }

  /** No entry is on its way off the stack. */
  ghost predicate Settled(own: seq<Owner>) {
    forall x :: 0 <= x < |own| ==> own[x] != Unstacked
  }

  /** Between two states: the file is unchanged at pinned bytes and does not shrink. */
  ghost predicate FileFrame(own: seq<Owner>, f: seq<Cell>, f': seq<Cell>, cur: nat) {
    && |f| <= |f'|
    && forall x :: 0 <= x < |f| && x < |own| && Pinned(own[x], cur) ==> f'[x] == f[x]
  }

  function BlockSize(availSize: nat): (n: nat)
    ensures n > SIZEOF_AVAIL_BLOCK || availSize == 0
  {
    availSize * SIZEOF_AVAIL_ELEM / 2 + SIZEOF_AVAIL_BLOCK
  }

  /** Behind its fixed part, a block has half the bytes that the entries of a full table take. */
  lemma HalfTable(availSize: nat)
    ensures 2 * (BlockSize(availSize) - SIZEOF_AVAIL_BLOCK) == availSize * SIZEOF_AVAIL_ELEM
  {
    assert availSize * SIZEOF_AVAIL_ELEM == 2 * (availSize * 8);
    assert availSize * SIZEOF_AVAIL_ELEM / 2 == availSize * 8;
  }

  ghost function Top(stack: seq<StackBlock>): nat {
    if |stack| == 0 then 0 else stack[0].adr
  }

  ghost function StackImage(capacity: nat, stack: seq<StackBlock>): seq<Cell>
    requires |stack| > 0
  {
    ImageCells(AvailImage(AvailBlock(capacity, Top(stack[1..]), stack[0].table)), BlockSize(capacity))
  }

  /** The chain of spilled tables; `pending` means the top one is not on disk yet. */
  ghost predicate StackOk(f: seq<Cell>, own: seq<Owner>, capacity: nat, stack: seq<StackBlock>, pending: bool)
  {
    |stack| > 0 ==>
      && stack[0].adr > 0
      && Painted(own, stack[0].adr, BlockSize(capacity), AvailBlockAt(stack[0].adr))
      && TableOk(own, stack[0].table, StackTable(stack[0].adr))
      && |stack[0].table| <= capacity / 2
      && (pending || Holds(f, stack[0].adr, StackImage(capacity, stack)))
      && stack[0].adr !in Addresses(stack[1..])
      && StackOk(f, own, capacity, stack[1..], false)
  }

  ghost function Addresses(stack: seq<StackBlock>): set<nat> {
    set i | 0 <= i < |stack| :: stack[i].adr
  }

  ghost predicate Stackish(o: Owner) {
    o.AvailBlockAt? || (o.Free? && o.table.StackTable?)
  }

  /** Every byte tagged as part of the stack really is part of it. */
  ghost predicate NoStray(own: seq<Owner>, capacity: nat, stack: seq<StackBlock>) {
    && (forall x :: 0 <= x < |own| && own[x].AvailBlockAt? ==>
          own[x].adr in Addresses(stack) && own[x].adr <= x < own[x].adr + BlockSize(capacity))
    && (forall x :: 0 <= x < |own| && own[x].Free? && own[x].table.StackTable? ==>
          own[x].table.adr in Addresses(stack))
  }

  /** The allocator's state, with the free table `av` of the current bucket `cur`. */
  datatype State = State(
    own: seq<Owner>, file: seq<Cell>, avail: seq<Avail>, stack: seq<StackBlock>,
    pending: bool, slivers: seq<Avail>, cur: nat, av: seq<Avail>)
  {
    ghost predicate Ok(blockSize: nat, capacity: nat) {
      && Painted(own, 0, blockSize, FileHeader) && |file| <= |own|
      && TableOk(own, avail, HeaderTable) && |avail| <= capacity
      && TableOk(own, av, BucketTable(cur)) && |av| <= BUCKET_AVAIL
      && StackOk(file, own, capacity, stack, pending)
      && NoStray(own, capacity, stack)
      && Claims(own, slivers, Sliver)
      && (forall e :: e in slivers ==> 0 < e.size <= IGNORE_SIZE)
    }
  }

  // ----- lemmas about ownership -----

  /** Repainting bytes of some other owner with another owner leaves a claim intact. */
  lemma ClaimsPaint(own: seq<Owner>, t: seq<Avail>, o: Owner, a: nat, n: nat, from: Owner, to: Owner)
    requires Claims(own, t, o) && Painted(own, a, n, from) && o != from && o != to
    ensures Claims(Paint(own, a, n, to), t, o)
  {
    var own' := Paint(own, a, n, to);
    forall x: nat
      ensures Owns(own', x, o) == Owns(own, x, o)
    {
    }
  }

  /** An entry of a claimed table is painted with the table's owner. */
  lemma EntryPainted(own: seq<Owner>, t: seq<Avail>, o: Owner, e: Avail, rest: seq<Avail>)
    requires Claims(own, t, o) && e.size > 0
    requires forall x: nat :: Cover(rest, x) + In(e, x) == Cover(t, x)
    ensures Painted(own, e.adr, e.size, o)
  {
    assert Cover(t, e.adr + e.size - 1) >= 1;
    assert Owns(own, e.adr + e.size - 1, o);
    forall x | e.adr <= x < e.adr + e.size
      ensures own[x] == o
    {
      assert Cover(t, x) >= 1;
      assert Owns(own, x, o);
    }
  }

  /** Extracting an entry: its bytes get another owner, the rest is still claimed. */
  lemma ClaimsTake(own: seq<Owner>, t: seq<Avail>, o: Owner, e: Avail, rest: seq<Avail>, to: Owner)
    requires Claims(own, t, o) && e.size > 0 && o != to
    requires forall x: nat :: Cover(rest, x) + In(e, x) == Cover(t, x)
    ensures Claims(Paint(own, e.adr, e.size, to), rest, o)
  {
    var own' := Paint(own, e.adr, e.size, to);
    forall x: nat
      ensures Cover(rest, x) == if Owns(own', x, o) then 1 else 0
    {
      assert Cover(t, x) == if Owns(own, x, o) then 1 else 0;
    }
  }

  /** Recording an entry: its bytes join the claim. */
  lemma ClaimsGive(own: seq<Owner>, t: seq<Avail>, o: Owner, e: Avail, r: seq<Avail>, from: Owner)
    requires Claims(own, t, o) && Painted(own, e.adr, e.size, from) && o != from
    requires forall x: nat :: Cover(r, x) == Cover(t, x) + In(e, x)
    ensures Claims(Paint(own, e.adr, e.size, o), r, o)
  {
    var own' := Paint(own, e.adr, e.size, o);
    forall x: nat
      ensures Cover(r, x) == if Owns(own', x, o) then 1 else 0
    {
      assert Cover(t, x) == if Owns(own, x, o) then 1 else 0;
    }
  }

  lemma ClaimsExtend(own: seq<Owner>, t: seq<Avail>, o: Owner, more: seq<Owner>)
    requires Claims(own, t, o) && o !in more
    ensures Claims(own + more, t, o)
  {
    forall x: nat
      ensures Owns(own + more, x, o) == Owns(own, x, o)
    {
      if |own| <= x < |own + more| {
        assert (own + more)[x] == more[x - |own|] && more[x - |own|] in more;
      }
    }
  }

  /** Two states agree on everything that belongs to the stack of spilled tables. */
  ghost predicate SameStack(f: seq<Cell>, own: seq<Owner>, f': seq<Cell>, own': seq<Owner>) {
    && |own| <= |own'| && |f| <= |f'|
    && (forall x :: 0 <= x < |own'| && Stackish(own'[x]) ==> x < |own| && own[x] == own'[x])
    && (forall x :: 0 <= x < |own| && Stackish(own[x]) ==> own'[x] == own[x])
    && (forall x :: 0 <= x < |own| && x < |f| && own[x].AvailBlockAt? ==> f'[x] == f[x])
  }

  lemma {:induction false} StackKept(f: seq<Cell>, own: seq<Owner>, f': seq<Cell>, own': seq<Owner>,
                                     capacity: nat, stack: seq<StackBlock>, pending: bool)
    requires StackOk(f, own, capacity, stack, pending)
    requires SameStack(f, own, f', own')
    ensures StackOk(f', own', capacity, stack, pending)
    decreases |stack|
  {
    if |stack| > 0 {
      var b := stack[0];
      forall x: nat
        ensures Owns(own', x, Free(StackTable(b.adr))) == Owns(own, x, Free(StackTable(b.adr)))
      {
      }
      StackKept(f, own, f', own', capacity, stack[1..], false);
    }
  }

  lemma StrayKept(own: seq<Owner>, own': seq<Owner>, capacity: nat, stack: seq<StackBlock>)
    requires NoStray(own, capacity, stack)
    requires forall x :: 0 <= x < |own'| && Stackish(own'[x]) ==> x < |own| && own[x] == own'[x]
    ensures NoStray(own', capacity, stack)
  {
  }

  // ----- lemmas about one allocator step -----

  /** Moving bytes between owners outside the stack keeps the untouched parts of the state. */
  lemma Repainted(s: State, blockSize: nat, capacity: nat, a: nat, n: nat, from: Owner, to: Owner)
    requires s.Ok(blockSize, capacity) && Painted(s.own, a, n, from)
    requires !Stackish(from) && !Stackish(to) && from != FileHeader && from != to
    ensures var own' := Paint(s.own, a, n, to);
            && Painted(own', 0, blockSize, FileHeader)
            && StackOk(s.file, own', capacity, s.stack, s.pending)
            && NoStray(own', capacity, s.stack)
            && (from != Free(HeaderTable) && to != Free(HeaderTable) ==> Claims(own', s.avail, Free(HeaderTable)))
            && (from != Free(BucketTable(s.cur)) && to != Free(BucketTable(s.cur)) ==>
                  Claims(own', s.av, Free(BucketTable(s.cur))))
            && (from != Sliver && to != Sliver ==> Claims(own', s.slivers, Sliver))
  {
    var own' := Paint(s.own, a, n, to);
    StackKept(s.file, s.own, s.file, own', capacity, s.stack, s.pending);
    StrayKept(s.own, own', capacity, s.stack);
    if from != Free(HeaderTable) && to != Free(HeaderTable) {
      ClaimsPaint(s.own, s.avail, Free(HeaderTable), a, n, from, to);
    }
    if from != Free(BucketTable(s.cur)) && to != Free(BucketTable(s.cur)) {
      ClaimsPaint(s.own, s.av, Free(BucketTable(s.cur)), a, n, from, to);
    }
    if from != Sliver && to != Sliver {
      ClaimsPaint(s.own, s.slivers, Sliver, a, n, from, to);
    }
  }

  lemma TakeFromHeader(s: State, blockSize: nat, capacity: nat, e: Avail, rest: seq<Avail>)
    requires s.Ok(blockSize, capacity) && e.size > 0 && Tidy(rest) && |rest| <= |s.avail|
    requires forall x: nat :: Cover(rest, x) + In(e, x) == Cover(s.avail, x)
    ensures Painted(s.own, e.adr, e.size, Free(HeaderTable))
    ensures s.(own := Paint(s.own, e.adr, e.size, Reserved), avail := rest).Ok(blockSize, capacity)
  {
    EntryPainted(s.own, s.avail, Free(HeaderTable), e, rest);
    Repainted(s, blockSize, capacity, e.adr, e.size, Free(HeaderTable), Reserved);
    ClaimsTake(s.own, s.avail, Free(HeaderTable), e, rest, Reserved);
  }

  lemma TakeFromBucket(s: State, blockSize: nat, capacity: nat, e: Avail, rest: seq<Avail>)
    requires s.Ok(blockSize, capacity) && e.size > 0 && Tidy(rest) && |rest| <= |s.av|
    requires forall x: nat :: Cover(rest, x) + In(e, x) == Cover(s.av, x)
    ensures Painted(s.own, e.adr, e.size, Free(BucketTable(s.cur)))
    ensures s.(own := Paint(s.own, e.adr, e.size, Reserved), av := rest).Ok(blockSize, capacity)
  {
    EntryPainted(s.own, s.av, Free(BucketTable(s.cur)), e, rest);
    Repainted(s, blockSize, capacity, e.adr, e.size, Free(BucketTable(s.cur)), Reserved);
    ClaimsTake(s.own, s.av, Free(BucketTable(s.cur)), e, rest, Reserved);
  }

  lemma GiveToHeader(s: State, blockSize: nat, capacity: nat, e: Avail, r: seq<Avail>, from: Owner)
    requires s.Ok(blockSize, capacity) && Painted(s.own, e.adr, e.size, from) && from in {Reserved, Unstacked}
    requires Tidy(r) && |r| <= capacity
    requires forall x: nat :: Cover(r, x) == Cover(s.avail, x) + In(e, x)
    ensures s.(own := Paint(s.own, e.adr, e.size, Free(HeaderTable)), avail := r).Ok(blockSize, capacity)
  {
    Repainted(s, blockSize, capacity, e.adr, e.size, from, Free(HeaderTable));
    ClaimsGive(s.own, s.avail, Free(HeaderTable), e, r, from);
  }

  lemma GiveToBucket(s: State, blockSize: nat, capacity: nat, e: Avail, r: seq<Avail>)
    requires s.Ok(blockSize, capacity) && Painted(s.own, e.adr, e.size, Reserved)
    requires Tidy(r) && |r| <= BUCKET_AVAIL
    requires forall x: nat :: Cover(r, x) == Cover(s.av, x) + In(e, x)
    ensures s.(own := Paint(s.own, e.adr, e.size, Free(BucketTable(s.cur))), av := r).Ok(blockSize, capacity)
  {
    Repainted(s, blockSize, capacity, e.adr, e.size, Reserved, Free(BucketTable(s.cur)));
    ClaimsGive(s.own, s.av, Free(BucketTable(s.cur)), e, r, Reserved);
  }

  lemma DiscardSliver(s: State, blockSize: nat, capacity: nat, e: Avail)
    requires s.Ok(blockSize, capacity) && Painted(s.own, e.adr, e.size, Reserved) && 0 < e.size <= IGNORE_SIZE
    ensures s.(own := Paint(s.own, e.adr, e.size, Sliver), slivers := s.slivers + [e]).Ok(blockSize, capacity)
  {
    Repainted(s, blockSize, capacity, e.adr, e.size, Reserved, Sliver);
    forall x: nat
      ensures Cover(s.slivers + [e], x) == Cover(s.slivers, x) + In(e, x)
    {
      CoverConcat(s.slivers, [e], x);
    }
    ClaimsGive(s.own, s.slivers, Sliver, e, s.slivers + [e], Reserved);
  }

  ghost function Reserve(n: nat): (r: seq<Owner>)
    ensures |r| == n && forall i :: 0 <= i < n ==> r[i] == Reserved
  {
    seq(n, _ => Reserved)
  }

  /** Growing the file space by `n` bytes at its end. */
  lemma Appended(s: State, blockSize: nat, capacity: nat, n: nat)
    requires s.Ok(blockSize, capacity)
    ensures s.(own := s.own + Reserve(n)).Ok(blockSize, capacity)
  {
    var more := Reserve(n);
    ClaimsExtend(s.own, s.avail, Free(HeaderTable), more);
    ClaimsExtend(s.own, s.av, Free(BucketTable(s.cur)), more);
    ClaimsExtend(s.own, s.slivers, Sliver, more);
    StackKept(s.file, s.own, s.file, s.own + more, capacity, s.stack, s.pending);
    StrayKept(s.own, s.own + more, capacity, s.stack);
  }

  // ----- splitting the header table -----

  /** The entries at even positions, and those at odd positions. */
  ghost function Evens(t: seq<Avail>): (r: seq<Avail>)
    ensures |r| == (|t| + 1) / 2 && forall i :: 0 <= i < |r| ==> r[i] == t[2 * i]
  {
    seq((|t| + 1) / 2, i requires 0 <= i < (|t| + 1) / 2 => t[2 * i])
  }

  ghost function Odds(t: seq<Avail>): (r: seq<Avail>)
    ensures |r| == |t| / 2 && forall i :: 0 <= i < |r| ==> r[i] == t[2 * i + 1]
  {
    seq(|t| / 2, i requires 0 <= i < |t| / 2 => t[2 * i + 1])
  }

  lemma {:induction false} CoverHalves(t: seq<Avail>, x: nat)
    ensures Cover(Evens(t), x) + Cover(Odds(t), x) == Cover(t, x)
    decreases |t|
  {
    if |t| == 1 {
      assert Evens(t) == t;
    } else if |t| >= 2 {
      var u := t[2..];
      CoverHalves(u, x);
      assert Evens(t) == [t[0]] + Evens(u);
      assert Odds(t) == [t[1]] + Odds(u);
      CoverConcat([t[0]], Evens(u), x);
      CoverConcat([t[1]], Odds(u), x);
      assert t == [t[0]] + ([t[1]] + u);
      CoverConcat([t[0]], [t[1]] + u, x);
      CoverConcat([t[1]], u, x);
    }
  }

  lemma {:induction false} HalvesTidy(t: seq<Avail>)
    requires Tidy(t)
    ensures Tidy(Evens(t)) && Tidy(Odds(t))
  {
  }

  /** The owners after half of the table `t` has been moved into a new block at `adr`. */
  ghost function SpilledOwners(own: seq<Owner>, capacity: nat, t: seq<Avail>, adr: nat): (r: seq<Owner>)
    ensures |r| == |own|
  {
    Retag(Paint(own, adr, BlockSize(capacity), AvailBlockAt(adr)), Odds(t), Free(StackTable(adr)))
  }

  lemma {:induction false} SpilledClaims(own: seq<Owner>, capacity: nat, t: seq<Avail>, adr: nat)
    requires Claims(own, t, Free(HeaderTable)) && Painted(own, adr, BlockSize(capacity), Reserved)
    requires forall x :: 0 <= x < |own| ==> own[x] != Free(StackTable(adr))
    ensures var own' := SpilledOwners(own, capacity, t, adr);
            && Claims(own', Evens(t), Free(HeaderTable)) && Claims(own', Odds(t), Free(StackTable(adr)))
            && (forall x :: 0 <= x < |own| && Cover(Odds(t), x) > 0 ==> own[x] == Free(HeaderTable))
  {
    var own', odds := SpilledOwners(own, capacity, t, adr), Odds(t);
    forall x: nat
      ensures Cover(Evens(t), x) == if Owns(own', x, Free(HeaderTable)) then 1 else 0
      ensures Cover(odds, x) == if Owns(own', x, Free(StackTable(adr))) then 1 else 0
      ensures x < |own| && Cover(odds, x) > 0 ==> own[x] == Free(HeaderTable)
    {
      CoverHalves(t, x);
      assert Cover(t, x) == if Owns(own, x, Free(HeaderTable)) then 1 else 0;
    }
  }

  lemma {:induction false} SpilledChanges(own: seq<Owner>, capacity: nat, t: seq<Avail>, adr: nat)
    requires Painted(own, adr, BlockSize(capacity), Reserved)
    requires forall x :: 0 <= x < |own| && Cover(Odds(t), x) > 0 ==> own[x] == Free(HeaderTable)
    ensures var own' := SpilledOwners(own, capacity, t, adr);
            && Painted(own', adr, BlockSize(capacity), AvailBlockAt(adr))
            && (forall x :: 0 <= x < |own| && own'[x] != own[x] ==> own[x] in {Reserved, Free(HeaderTable)})
            && (forall x :: 0 <= x < |own| && own'[x] != own[x] ==>
                  own'[x] == Free(StackTable(adr)) || (own'[x] == AvailBlockAt(adr)
                      && adr <= x < adr + BlockSize(capacity)))
  {
  }

  lemma SpilledStray(own: seq<Owner>, own': seq<Owner>, capacity: nat, stack: seq<StackBlock>)
    requires |own'| == |own| && |stack| > 0 && NoStray(own, capacity, stack[1..])
    requires forall x :: 0 <= x < |own| && own'[x] != own[x] ==>
               var adr := stack[0].adr;
               own'[x] == Free(StackTable(adr)) || (own'[x] == AvailBlockAt(adr)
                   && adr <= x < adr + BlockSize(capacity))
    ensures NoStray(own', capacity, stack)
  {
    PushedAddresses(stack);
  }

  lemma NewOnStack(own: seq<Owner>, capacity: nat, stack: seq<StackBlock>, adr: nat)
    requires NoStray(own, capacity, stack) && adr !in Addresses(stack)
    ensures forall x :: 0 <= x < |own| ==> own[x] != Free(StackTable(adr))
  {
  }

  ghost function SpilledState(s: State, capacity: nat, adr: nat): State {
    s.(own := SpilledOwners(s.own, capacity, s.avail, adr), avail := Evens(s.avail), pending := true,
       stack := [StackBlock(adr, Odds(s.avail))] + s.stack)
  }

  /** Half of the header table becomes a block on the stack, not on disk yet. */
  lemma {:induction false} Spilled(s: State, blockSize: nat, capacity: nat, adr: nat)
    requires s.Ok(blockSize, capacity) && !s.pending && adr > 0 && capacity > 0
    requires Painted(s.own, adr, BlockSize(capacity), Reserved)
    ensures SpilledState(s, capacity, adr).Ok(blockSize, capacity)
    ensures forall x :: 0 <= x < |s.own| && Cover(Odds(s.avail), x) > 0 ==> s.own[x] == Free(HeaderTable)
  {
    hide Cover, Tidy, Claims, SpilledOwners, NoStray;
    var s' := SpilledState(s, capacity, adr);
    assert s.own[adr] == Reserved;
    StackAddresses(s.file, s.own, capacity, s.stack, s.pending);
    NewOnStack(s.own, capacity, s.stack, adr);
    SpilledClaims(s.own, capacity, s.avail, adr);
    HalvesTidy(s.avail);
    SpilledChanges(s.own, capacity, s.avail, adr);
    ClaimsElsewhere(s.own, s'.own, s.av, Free(BucketTable(s.cur)));
    ClaimsElsewhere(s.own, s'.own, s.slivers, Sliver);
    assert s'.stack[1..] == s.stack;
    SpilledRest(s.file, s.own, s'.own, capacity, s.stack, adr);
    SpilledStray(s.own, s'.own, capacity, s'.stack);
  }

  lemma SpilledFrame(own: seq<Owner>, capacity: nat, t: seq<Avail>, adr: nat, cur: nat)
    requires Painted(own, adr, BlockSize(capacity), Reserved)
    requires forall x :: 0 <= x < |own| && Cover(Odds(t), x) > 0 ==> own[x] == Free(HeaderTable)
    ensures Frame(Paint(own, adr, BlockSize(capacity), Sliver), SpilledOwners(own, capacity, t, adr), cur)
    ensures NothingDropped(own, SpilledOwners(own, capacity, t, adr))
  {
  }

  lemma ClaimsElsewhere(own: seq<Owner>, own': seq<Owner>, t: seq<Avail>, o: Owner)
    requires Claims(own, t, o)
    requires forall x: nat :: Owns(own', x, o) == Owns(own, x, o)
    ensures Claims(own', t, o)
  {
  }

  lemma PushedAddresses(stack: seq<StackBlock>)
    requires |stack| > 0
    ensures Addresses(stack) == {stack[0].adr} + Addresses(stack[1..])
  {
    forall a | a in Addresses(stack)
      ensures a in {stack[0].adr} + Addresses(stack[1..])
    {
      var i :| 0 <= i < |stack| && stack[i].adr == a;
      if i > 0 {
        assert stack[1..][i - 1].adr == a;
      }
    }
    forall a | a in Addresses(stack[1..])
      ensures a in Addresses(stack)
    {
      var i :| 0 <= i < |stack[1..]| && stack[1..][i].adr == a;
      assert stack[i + 1].adr == a;
    }
  }

  /** The first byte of every block on the stack is owned by that block. */
  lemma {:induction false} StackAddresses(f: seq<Cell>, own: seq<Owner>, capacity: nat, stack: seq<StackBlock>,
                                          pending: bool)
    requires StackOk(f, own, capacity, stack, pending) && capacity > 0
    ensures forall a :: a in Addresses(stack) ==> Owns(own, a, AvailBlockAt(a))
    decreases |stack|
  {
    if |stack| > 0 {
      StackAddresses(f, own, capacity, stack[1..], false);
      PushedAddresses(stack);
    }
  }

  /** Tagging bytes for a block that is not on the stack leaves the stack alone. */
  lemma {:induction false} SpilledRest(f: seq<Cell>, own: seq<Owner>, own': seq<Owner>, capacity: nat,
                                       stack: seq<StackBlock>, adr: nat)
    requires StackOk(f, own, capacity, stack, false) && adr !in Addresses(stack)
    requires |own'| == |own|
    requires forall x :: 0 <= x < |own| && own'[x] != own[x] ==>
               !Stackish(own[x]) && own'[x] in {AvailBlockAt(adr), Free(StackTable(adr))}
    ensures StackOk(f, own', capacity, stack, false)
    decreases |stack|
  {
    if |stack| > 0 {
      var b := stack[0];
      PushedAddresses(stack);
      forall x: nat
        ensures Owns(own', x, Free(StackTable(b.adr))) == Owns(own, x, Free(StackTable(b.adr)))
      {
      }
      SpilledRest(f, own, own', capacity, stack[1..], adr);
    }
  }

  /** Writing the top block; only the right bytes make it a valid block. */
  lemma {:induction false} WroteTop(s: State, blockSize: nat, capacity: nat, c: seq<Cell>)
    requires s.Ok(blockSize, capacity) && |s.stack| > 0 && capacity > 0 && |c| == BlockSize(capacity)
    ensures s.(file := Write(s.file, s.stack[0].adr, c), pending := c != StackImage(capacity, s.stack)).Ok(blockSize,
              capacity)
  {
    var adr, rest := s.stack[0].adr, s.stack[1..];
    OthersOnStack(s.file, Write(s.file, adr, c), s.own, capacity, rest, adr);
  }

  /** A write to the bytes of a block leaves the other blocks of the stack alone. */
  lemma {:induction false} OthersOnStack(f: seq<Cell>, f': seq<Cell>, own: seq<Owner>, capacity: nat,
                                         stack: seq<StackBlock>, adr: nat)
    requires StackOk(f, own, capacity, stack, false) && adr !in Addresses(stack)
    requires |f| <= |f'|
    requires forall x :: 0 <= x < |f| && f'[x] != f[x] ==> Owns(own, x, AvailBlockAt(adr))
    ensures StackOk(f', own, capacity, stack, false)
    decreases |stack|
  {
    if |stack| > 0 {
      PushedAddresses(stack);
      var b := stack[0];
      assert f'[b.adr..b.adr + BlockSize(capacity)] == f[b.adr..b.adr + BlockSize(capacity)];
      OthersOnStack(f, f', own, capacity, stack[1..], adr);
    }
  }

  // ----- taking the top block off the stack -----

  /** The owners once the top block's bytes go to `blockTo` and its entries to `entriesTo`. */
  ghost function PoppedOwners(own: seq<Owner>, capacity: nat, top: StackBlock, blockTo: Owner,
                              entriesTo: Owner): (r: seq<Owner>)
    ensures |r| == |own|
  {
    Retag(Paint(own, top.adr, BlockSize(capacity), blockTo), top.table, entriesTo)
  }

  lemma {:induction false} PoppedClaims(own: seq<Owner>, capacity: nat, top: StackBlock, blockTo: Owner,
                                        entriesTo: Owner)
    requires Painted(own, top.adr, BlockSize(capacity), AvailBlockAt(top.adr))
    requires Claims(own, top.table, Free(StackTable(top.adr)))
    ensures var own' := PoppedOwners(own, capacity, top, blockTo, entriesTo);
            forall x :: 0 <= x < |own| ==>
              own'[x] == if own[x] == Free(StackTable(top.adr)) then entriesTo
                         else if top.adr <= x < top.adr + BlockSize(capacity) then blockTo else own[x]
  {
    forall x | 0 <= x < |own|
      ensures Cover(top.table, x) > 0 <==> own[x] == Free(StackTable(top.adr))
    {
      assert Cover(top.table, x) == if Owns(own, x, Free(StackTable(top.adr))) then 1 else 0;
    }
  }

  lemma {:induction false} Unstack(s: State, blockSize: nat, capacity: nat, blockTo: Owner, entriesTo: Owner)
    requires s.Ok(blockSize, capacity) && |s.stack| > 0 && capacity > 0
    requires blockTo in {Reserved, Dropped} && entriesTo in {Unstacked, Dropped}
    ensures s.(own := PoppedOwners(s.own, capacity, s.stack[0], blockTo, entriesTo),
               stack := s.stack[1..], pending := false).Ok(blockSize, capacity)
  {
    var top, rest := s.stack[0], s.stack[1..];
    var own' := PoppedOwners(s.own, capacity, top, blockTo, entriesTo);
    PoppedClaims(s.own, capacity, top, blockTo, entriesTo);
    ClaimsElsewhere(s.own, own', s.avail, Free(HeaderTable));
    ClaimsElsewhere(s.own, own', s.av, Free(BucketTable(s.cur)));
    ClaimsElsewhere(s.own, own', s.slivers, Sliver);
    PushedAddresses(s.stack);
    UnstackRest(s.file, s.own, own', capacity, rest, top.adr);
  }

  lemma {:induction false} UnstackRest(f: seq<Cell>, own: seq<Owner>, own': seq<Owner>, capacity: nat,
                                       stack: seq<StackBlock>, adr: nat)
    requires StackOk(f, own, capacity, stack, false) && adr !in Addresses(stack)
    requires |own'| == |own|
    requires forall x :: 0 <= x < |own| && own'[x] != own[x] ==>
               !Stackish(own'[x]) && own[x] in {AvailBlockAt(adr), Free(StackTable(adr))}
    ensures StackOk(f, own', capacity, stack, false)
    decreases |stack|
  {
    if |stack| > 0 {
      PushedAddresses(stack);
      var b := stack[0];
      ClaimsElsewhere(own, own', b.table, Free(StackTable(b.adr)));
      UnstackRest(f, own, own', capacity, stack[1..], adr);
    }
  }
}
