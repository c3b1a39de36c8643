/**
 Walking the stack of spilled free tables (src/avail.c): gdbm_avail_traverse without a callback,
 on any file.
 */
module AvailStack {
  import opened Layout
  import opened Sequences
  import opened Space
  import opened Allocator

  // ----- the offsets met so far -----

  ghost predicate Ascending(s: seq<nat>) {
    forall i, j :: 0 <= i < j < |s| ==> s[i] < s[j]
  }

  /** struct off_map: a sorted array that grows by half. */
  class OffMap {
    var base: array<nat>
    var size: nat

    ghost predicate Valid()
      reads this, base
    {
      size <= base.Length && Ascending(base[..size])
    }

    constructor ()
      ensures Valid() && size == 0 && fresh(base)
    {
      base, size := new nat[0], 0;
    }

    /** off_map_expand */
    method Expand()
      requires Valid() && size == base.Length
      modifies this`base
      ensures Valid() && size < base.Length && fresh(base) && base[..size] == old(base[..size])
    {
      var n := if base.Length == 0 then 64 else base.Length + (base.Length + 1) / 2;
      var p := new nat[n];
      var i, b := 0, base;
      while i < size
        invariant i <= size <= b.Length && b[..] == old(base[..]) && base == b && p != b
        invariant forall k :: 0 <= k < i ==> p[k] == b[k]
      {
        p[i] := b[i];
        i := i + 1;
      }
      assert p[..size] == b[..size];
      base := p;
    }

    /** off_map_lookup: false, and the offset recorded in its place, if it was not there. */
    method Lookup(n: nat) returns (found: bool)
      requires Valid()
      modifies this, base
      ensures Valid() && (base == old(base) || fresh(base))
      ensures found <==> n in old(base[..size])
      ensures found ==> base[..size] == old(base[..size])
      ensures !found ==>
                |base[..size]| == |old(base[..size])| + 1 && forall x :: x in base[..size] <==>
                    x in old(base[..size]) || x == n
    {
      ghost var s := base[..size];
      var lo, hi := 0, size - 1;
      while lo <= hi
        invariant 0 <= lo <= hi + 1 <= size && base[..size] == s
        invariant forall i :: 0 <= i < lo ==> s[i] < n
        invariant forall i :: hi < i < size ==> s[i] > n
      {
        var mid := (lo + hi) / 2;
        assert base[mid] == s[mid];
        if base[mid] > n {
          hi := mid - 1;
        } else if base[mid] < n {
          lo := mid + 1;
        } else {
          return true;
        }
      }
      assert n !in s;
      if size == base.Length {
        Expand();
      }
      InsertedAscending(s, lo, n);
      ShiftIn(lo, n);
      return false;
    }

    /** memmove, and the new offset in the gap. */
    method ShiftIn(at: nat, n: nat)
      requires size < base.Length && at <= size
      modifies this`size, base
      ensures size == old(size) + 1 && base == old(base) && base[..size] == InsertAt(old(base[..size]), at, n)
    {
      ghost var s := base[..size];
      var i := size;
      while i > at
        invariant at <= i <= size && size == |s| && size < base.Length
        invariant forall k :: 0 <= k < i ==> base[k] == s[k]
        invariant forall k :: i < k <= size ==> base[k] == s[k - 1]
      {
        base[i] := base[i - 1];
        i := i - 1;
      }
      base[at] := n;
      size := size + 1;
      assert base[..size] == InsertAt(s, at, n);
    }
  }

  lemma InsertedAscending(s: seq<nat>, at: nat, n: nat)
    requires Ascending(s) && at <= |s| && (forall i :: 0 <= i < at ==> s[i] < n)
    requires (forall i :: at <= i < |s| ==> s[i] > n)
    ensures Ascending(InsertAt(s, at, n)) && |InsertAt(s, at, n)| == |s| + 1
    ensures forall x :: x in InsertAt(s, at, n) <==> x in s || x == n
  {
    var r := InsertAt(s, at, n);
    assert r[at] == n;
    forall x | x in s
      ensures x in r
    {
      var k :| 0 <= k < |s| && s[k] == x;
      assert r[if k < at then k else k + 1] == x;
    }
  }

  // ----- the chain -----

  /** What the walk needs to know of a database. */
  datatype Chain = Chain(file: seq<Cell>, size: nat, blockSize: nat, nextBlock: nat)

  /** _gdbm_avail_block_read: the block at `n`, if it is one and valid. */
  function ReadBlock(c: Chain, n: nat): (r: Option<AvailBlock>)
    requires c.size > 0
    ensures r.Some? ==> n + c.size <= |c.file|
  {
    var image := ReadImage(c.file, n, c.size);
    if image.Some? && image.value.AvailImage? && AvailBlockValid(image.value.block, c.size, c.blockSize, c.nextBlock)
    then Some(image.value.block) else None
  }

  /** A block that the walk may pass, in bytes: its entries fit the table and the `size` bytes that the
      block takes, and all they list lies behind the header and within the space in use. */
  ghost predicate GoodBlock(b: AvailBlock, size: nat, blockSize: nat, nextBlock: nat) {
    && 1 < b.size && |b.table| <= b.size && SIZEOF_AVAIL_BLOCK < size
    && SIZEOF_AVAIL_BLOCK + (|b.table| - 1) * SIZEOF_AVAIL_ELEM <= size
    && BytesWithin(b.table, blockSize, nextBlock)
  }

  /** Validation accepts exactly the good blocks. */
  lemma ValidMeansGood(b: AvailBlock, size: nat, blockSize: nat, nextBlock: nat)
    ensures AvailBlockValid(b, size, blockSize, nextBlock) <==> GoodBlock(b, size, blockSize, nextBlock)
  {
    hide TableValid, BytesWithin;
    TableBytes(b.table, blockSize, nextBlock);
  }

  /** What is read is what the file holds, if that is good. */
  lemma ReadMeansGood(c: Chain, n: nat, b: AvailBlock)
    requires c.size > 0
    ensures ReadBlock(c, n) == Some(b) <==>
            Holds(c.file, n, ImageCells(AvailImage(b), c.size)) && GoodBlock(b, c.size, c.blockSize, c.nextBlock)
  {
    hide AvailBlockValid, GoodBlock, ImageCells, Holds;
    ValidMeansGood(b, c.size, c.blockSize, c.nextBlock);
  }

  /** What follows position `i`. */
  ghost function After(p: seq<nat>, i: nat, last: nat): nat {
    if i + 1 < |p| then p[i + 1] else last
  }

  /** The file holds a good block at `a`, and it points to `b`. */
  ghost predicate Links(c: Chain, a: nat, b: nat)
    requires c.size > 0
  {
    a != 0 && exists block :: Holds(c.file, a, ImageCells(AvailImage(block), c.size)) && block.next == b &&
                              GoodBlock(block, c.size, c.blockSize, c.nextBlock)
  }

  lemma LinksRead(c: Chain, a: nat, b: nat)
    requires c.size > 0
    ensures Links(c, a, b) <==> a != 0 && ReadBlock(c, a).Some? && ReadBlock(c, a).value.next == b
  {
    hide ReadBlock, Holds, GoodBlock, ImageCells;
    if Links(c, a, b) {
      var block :| Holds(c.file, a, ImageCells(AvailImage(block), c.size)) && block.next == b &&
                   GoodBlock(block, c.size, c.blockSize, c.nextBlock);
      ReadMeansGood(c, a, block);
    }
    if ReadBlock(c, a).Some? {
      ReadMeansGood(c, a, ReadBlock(c, a).value);
    }
  }

  /** The addresses met on the way from `start` to the end of the chain, every block good. */
  ghost predicate Leads(c: Chain, start: nat, p: seq<nat>)
    requires c.size > 0
  {
    && start == (if |p| == 0 then 0 else p[0])
    && forall i :: 0 <= i < |p| ==> Links(c, p[i], After(p, i, 0))
  }

  /** The chain comes to an end, meeting no block twice. */
  ghost predicate Acyclic(c: Chain, start: nat, head: nat)
    requires c.size > 0
  {
    exists p: seq<nat> :: Leads(c, start, p) && Distinct(p) && head !in p
  }

  /** Part of the way: `p` has been passed and `n` comes next. */
  ghost predicate Passed(c: Chain, start: nat, head: nat, p: seq<nat>, n: nat)
    requires c.size > 0
  {
    && Distinct(p) && head !in p && (if |p| == 0 then n == start else p[0] == start)
    && forall i :: 0 <= i < |p| ==> Links(c, p[i], After(p, i, n))
  }

  /** Whatever leads to the end begins with the way passed. */
  lemma {:induction false} SameWay(c: Chain, start: nat, head: nat, p: seq<nat>, n: nat, q: seq<nat>, k: nat)
    requires c.size > 0 && Passed(c, start, head, p, n) && Leads(c, start, q) && k <= |p|
    ensures k <= |q| && q[..k] == p[..k]
    ensures (if k < |q| then q[k] else 0) == (if k < |p| then p[k] else n)
    decreases k
  {
    hide ReadBlock, Links;
    if k > 0 {
      SameWay(c, start, head, p, n, q, k - 1);
      LinksRead(c, p[k - 1], After(p, k - 1, n));
      assert q[k - 1] == p[k - 1];
      assert q[..k] == q[..k - 1] + [q[k - 1]] && p[..k] == p[..k - 1] + [p[k - 1]];
      LinksRead(c, q[k - 1], After(q, k - 1, 0));
    }
  }

  /** Distinct numbers below `n` are at most `n` many. */
  lemma {:induction false} Pigeonhole(s: seq<nat>, n: nat)
    requires Distinct(s) && forall x :: x in s ==> x < n
    ensures |s| <= n
    decreases n
  {
    if |s| > 0 {
      assert s[0] in s;
      var r := Minus(s, n - 1);
      MinusDistinct(s, n - 1);
      Pigeonhole(r, n - 1);
    }
  }

  lemma PassedBound(c: Chain, start: nat, head: nat, p: seq<nat>, n: nat)
    requires c.size > 0 && Passed(c, start, head, p, n)
    ensures |p| <= |c.file|
  {
    forall x | x in p
      ensures x < |c.file|
    {
      var i :| 0 <= i < |p| && p[i] == x;
      LinksRead(c, p[i], After(p, i, n));
    }
    Pigeonhole(p, |c.file|);
  }

  /** gdbm_avail_traverse without a callback, on any header and any file: it comes to an end, and
      succeeds exactly when the header's block is good and so are all others, none met twice. */
  method Traverse(file: seq<Cell>, blockSize: nat, nextBlock: nat, avail: AvailBlock, availSize: nat, head: nat)
    returns (ok: bool)
    ensures ok <==> GoodBlock(avail, availSize, blockSize, nextBlock) &&
                    Acyclic(Chain(file, BlockSize(avail.size), blockSize, nextBlock), avail.next, head)
  {
    hide AvailBlockValid, GoodBlock, Acyclic;
    ValidMeansGood(avail, availSize, blockSize, nextBlock);
    if !AvailBlockValid(avail, availSize, blockSize, nextBlock) {
      return false;
    }
    ok := Walk(Chain(file, BlockSize(avail.size), blockSize, nextBlock), avail.next, head);
  }

  /** Its loop, from the header's link on. */
  method Walk(c: Chain, start: nat, head: nat) returns (ok: bool)
    requires c.size > 0
    ensures ok <==> Acyclic(c, start, head)
  {
    hide ReadBlock, Distinct, Links;
    var map_ := new OffMap();
    var there := map_.Lookup(head);
    var n := start;
    ghost var p: seq<nat> := [];
    NothingPassed(c, start, head);
    while n != 0
      invariant map_.Valid() && fresh(map_) && fresh(map_.base) && Passed(c, start, head, p, n)
      invariant forall x :: x in map_.base[..map_.size] <==> x == head || x in p
      decreases |c.file| + 1 - |p|
    {
      PassedBound(c, start, head, p, n);
      var found := map_.Lookup(n);
      if found {
        MetAgain(c, start, head, p, n);
        return false;
      }
      var block := ReadBlock(c, n);
      if block.None? {
        NoBlock(c, start, head, p, n);
        return false;
      }
      PassOne(c, start, head, p, n);
      p := p + [n];
      n := block.value.next;
      PassedBound(c, start, head, p, n);
    }
    assert Leads(c, start, p);
    ok := true;
  }

  lemma NothingPassed(c: Chain, start: nat, head: nat)
    requires c.size > 0
    ensures Passed(c, start, head, [], start)
  {
  }

  lemma PassOne(c: Chain, start: nat, head: nat, p: seq<nat>, n: nat)
    requires c.size > 0 && Passed(c, start, head, p, n) && n != 0 && n != head && n !in p && ReadBlock(c, n).Some?
    ensures Passed(c, start, head, p + [n], ReadBlock(c, n).value.next)
  {
    hide ReadBlock, Links;
    var r, m := p + [n], ReadBlock(c, n).value.next;
    LinksRead(c, n, m);
    forall i | 0 <= i < |r|
      ensures Links(c, r[i], After(r, i, m))
    {
      assert i < |p| ==> r[i] == p[i] && Links(c, p[i], After(p, i, n));
    }
  }

  lemma MetAgain(c: Chain, start: nat, head: nat, p: seq<nat>, n: nat)
    requires c.size > 0 && Passed(c, start, head, p, n) && n != 0 && (n == head || n in p)
    ensures !Acyclic(c, start, head)
  {
    hide ReadBlock, Links;
    forall q: seq<nat> | Leads(c, start, q)
      ensures !Distinct(q) || head in q
    {
      SameWay(c, start, head, p, n, q, |p|);
      assert q[|p|] == n && n in q;
      if n in p {
        var i :| 0 <= i < |p| && p[i] == n;
        assert q[..|p|][i] == p[..|p|][i];
      }
    }
  }

  lemma NoBlock(c: Chain, start: nat, head: nat, p: seq<nat>, n: nat)
    requires c.size > 0 && Passed(c, start, head, p, n) && n != 0 && ReadBlock(c, n).None?
    ensures !Acyclic(c, start, head)
  {
    hide ReadBlock, Links;
    forall q: seq<nat>
      ensures !Leads(c, start, q)
    {
      if Leads(c, start, q) {
        SameWay(c, start, head, p, n, q, |p|);
        LinksRead(c, n, After(q, |p|, 0));
      }
    }
  }

  // ----- on a database -----

  ghost function Path(stack: seq<StackBlock>): (p: seq<nat>)
    ensures |p| == |stack| && forall i :: 0 <= i < |p| ==> p[i] == stack[i].adr
  {
    seq(|stack|, i requires 0 <= i < |stack| => stack[i].adr)
  }

  /** The stack of a sound file space is such a chain. */
  lemma {:induction false} StackLeads(c: Chain, own: seq<Owner>, capacity: nat, stack: seq<StackBlock>)
    requires StackOk(c.file, own, capacity, stack, false) && c.size == BlockSize(capacity) && capacity > 1
    requires c.nextBlock == |own|
    requires Painted(own, 0, c.blockSize, FileHeader)
    ensures c.size > 0 && Leads(c, Top(stack), Path(stack)) && Distinct(Path(stack))
    decreases |stack|
  {
    if |stack| > 0 {
      var rest := stack[1..];
      StackLeads(c, own, capacity, rest);
      var b := AvailBlock(capacity, Top(rest), stack[0].table);
      TableInBounds(own, stack[0].table, StackTable(stack[0].adr), c.blockSize);
      assert ReadImage(c.file, stack[0].adr, c.size) == Some(AvailImage(b));
      assert ReadBlock(c, stack[0].adr) == Some(b);
      assert Path(stack) == [stack[0].adr] + Path(rest);
      assert forall i :: 0 <= i < |rest| ==> rest[i].adr in Addresses(rest);
      StackStep(c, stack, b);
    }
  }

  lemma StackStep(c: Chain, stack: seq<StackBlock>, b: AvailBlock)
    requires |stack| > 0 && c.size > 0 && ReadBlock(c, stack[0].adr) == Some(b) && b.next == Top(stack[1..])
    requires stack[0].adr != 0
    requires Leads(c, Top(stack[1..]), Path(stack[1..]))
    ensures Leads(c, Top(stack), Path(stack))
  {
    hide ReadBlock, Links;
    LinksRead(c, stack[0].adr, b.next);
    var p, q := Path(stack), Path(stack[1..]);
    forall i | 0 <= i < |p|
      ensures Links(c, p[i], After(p, i, 0))
    {
      if i > 0 {
        assert p[i] == q[i - 1] && Links(c, q[i - 1], After(q, i - 1, 0));
      }
    }
  }

  /** gdbm_avail_verify finds nothing wrong with any file space the program keeps. */
  method Verify(space: FileSpace, head: nat, availSize: nat) returns (ok: bool)
    requires space.Valid(0, []) && head < space.blockSize
    requires availSize > SIZEOF_AVAIL_BLOCK
    requires (availSize - SIZEOF_AVAIL_BLOCK) / SIZEOF_AVAIL_ELEM + 1 == space.capacity
    ensures ok
  {
    hide GoodBlock, Links;
    ghost var c := Chain(space.file, BlockSize(space.capacity), space.blockSize, space.nextBlock);
    var avail := AvailBlock(space.capacity, space.availNext, space.avail);
    StackLeads(c, space.owner, space.capacity, space.stack);
    HeaderApart(space.file, space.owner, space.capacity, space.stack, head, space.blockSize);
    TableInBounds(space.owner, space.avail, HeaderTable, space.blockSize);
    ValidMeansGood(avail, availSize, space.blockSize, space.nextBlock);
    ok := Traverse(space.file, space.blockSize, space.nextBlock, avail, availSize, head);
  }

  lemma {:induction false} HeaderApart(f: seq<Cell>, own: seq<Owner>, capacity: nat, stack: seq<StackBlock>,
                                       head: nat, blockSize: nat)
    requires StackOk(f, own, capacity, stack, false) && Painted(own, 0, blockSize, FileHeader) && head < blockSize
    requires capacity > 0
    ensures head !in Path(stack)
    decreases |stack|
  {
    if |stack| > 0 {
      HeaderApart(f, own, capacity, stack[1..], head, blockSize);
      assert Path(stack) == [stack[0].adr] + Path(stack[1..]);
      assert own[stack[0].adr] == AvailBlockAt(stack[0].adr);
      assert head < |own| && own[head] == FileHeader;
    }
  }
}
