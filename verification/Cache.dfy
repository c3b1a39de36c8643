/**
 The bucket cache (src/bucket.c): a hash table of collision chains over file addresses, and
 a list of the same elements in order of last use, most recent first.  Elements are named by
 number where the C code uses pointers.
 */
module Cache {
  import opened Bits
  import opened Layout
  import opened Space
  import opened Sequences

  /** The one-entry cache of a key/data pair that goes with a cached bucket. */
  datatype CachedData = NoData | Data(loc: nat, hash: nat, keySize: nat, dataSize: nat, bytes: seq<byte>)

  datatype Element = Element(adr: nat, changed: bool, data: CachedData, bucket: Bucket)

  type Elements = map<nat, Element>

  /** A place in the table an element can be stored through: a chain's head, or the link that
      follows an element. */
  datatype Link = Head(h: nat) | After(h: nat, id: nat)

  function Xor(a: nat, b: nat): nat
    decreases a + b
  {
    if a == 0 && b == 0 then 0 else (a % 2 + b % 2) % 2 + 2 * Xor(a / 2, b / 2)
  }

  /** adrhash */
  function AdrHash(adr: nat, bits: nat): (h: nat)
    requires bits <= HASH_BITS + 1
    ensures h < Pow2(bits)
  {
    var k := HASH_BITS + 1 - bits;
    var x := 265443576910 * Xor(adr, Shr(adr, k)) % Pow2(HASH_BITS + 1);
    ShrBound(x, k, bits);
    Shr(x, k)
  }

  // ----- structure -----

  ghost predicate Listed(elems: Elements, lru: seq<nat>) {
    Distinct(lru) && forall id :: id in lru <==> id in elems
  }

  /** Every chain holds elements of its own hash, no two with the same address. */
  ghost predicate Chained(elems: Elements, table: seq<seq<nat>>, bits: nat) {
    && bits <= HASH_BITS + 1 && |table| == Pow2(bits)
    && (forall h, i :: 0 <= h < |table| && 0 <= i < |table[h]| ==>
          table[h][i] in elems && AdrHash(elems[table[h][i]].adr, bits) == h)
    && (forall h, i, j :: 0 <= h < |table| && 0 <= i < j < |table[h]| ==>
          table[h][i] in elems && table[h][j] in elems && elems[table[h][i]].adr != elems[table[h][j]].adr)
  }

  ghost predicate Wf(elems: Elements, lru: seq<nat>, table: seq<seq<nat>>, bits: nat) {
    Listed(elems, lru) && Chained(elems, table, bits) && 2 <= bits && |lru| <= Pow2(bits)
  }

  /** The table leads to the element. */
  ghost predicate Linked(elems: Elements, table: seq<seq<nat>>, bits: nat, id: nat) {
    && id in elems && bits <= HASH_BITS + 1 && AdrHash(elems[id].adr, bits) < |table|
    && id in table[AdrHash(elems[id].adr, bits)]
  }

  /** The table indexes exactly the list. */
  ghost predicate AllLinked(elems: Elements, table: seq<seq<nat>>, bits: nat) {
    forall id :: id in elems ==> Linked(elems, table, bits, id)
  }

  lemma LinkedUnique(elems: Elements, table: seq<seq<nat>>, bits: nat, a: nat, b: nat)
    requires Chained(elems, table, bits) && Linked(elems, table, bits, a) && Linked(elems, table, bits, b)
    requires elems[a].adr == elems[b].adr
    ensures a == b
  {
    var chain := table[AdrHash(elems[a].adr, bits)];
    var i :| 0 <= i < |chain| && chain[i] == a;
    var j :| 0 <= j < |chain| && chain[j] == b;
  }

  /** *link = id, for an element whose own link is empty: whatever the link led to is cut off.
      A link inside an element that has been freed leads nowhere. */
  function SetLink(table: seq<seq<nat>>, link: Link, id: nat): (t: seq<seq<nat>>)
    requires link.h < |table|
  {
    match link
    case Head(h) => table[h := [id]]
    case After(h, prev) =>
      if prev in table[h] then table[h := table[h][..IndexOf(table[h], prev) + 1] + [id]] else table
  }

  /** The link that leads to position `p` of chain `h`. */
  function LinkTo(table: seq<seq<nat>>, h: nat, p: nat): (link: Link)
    requires h < |table| && p <= |table[h]|
    ensures link.h == h
  {
    if p == 0 then Head(h) else After(h, table[h][p - 1])
  }

  /** The link at which an address that is not in the table is to be stored. */
  function Vacant(table: seq<seq<nat>>, h: nat): (link: Link)
    requires h < |table|
    ensures link.h == h
  {
    LinkTo(table, h, |table[h]|)
  }

  /** The first `p` elements of the chain have other addresses. */
  ghost predicate Passed(elems: Elements, chain: seq<nat>, p: nat, adr: nat) {
    p <= |chain| && forall i :: 0 <= i < p ==> chain[i] in elems && elems[chain[i]].adr != adr
  }

  ghost predicate InTable(elems: Elements, table: seq<seq<nat>>, bits: nat, adr: nat)
    requires bits <= HASH_BITS + 1 && |table| == Pow2(bits)
  {
    var chain := table[AdrHash(adr, bits)];
    exists i :: 0 <= i < |chain| && chain[i] in elems && elems[chain[i]].adr == adr
  }

  /** cache_tab_lookup_slot */
  method LookupSlot(elems: Elements, table: seq<seq<nat>>, bits: nat, adr: nat)
    returns (found: Option<nat>, link: Link, ghost p: nat)
    requires Chained(elems, table, bits)
    ensures Passed(elems, table[AdrHash(adr, bits)], p, adr) && link == LinkTo(table, AdrHash(adr, bits), p)
    ensures found.None? <==> p == |table[AdrHash(adr, bits)]|
    ensures found.Some? <==> InTable(elems, table, bits, adr)
    ensures found.Some? ==> Linked(elems, table, bits, found.value) && elems[found.value].adr == adr
  {
    var h := AdrHash(adr, bits);
    var chain := table[h];
    var i: nat := 0;
    while i < |chain|
      invariant i <= |chain| && Passed(elems, chain, i, adr)
    {
      if elems[chain[i]].adr == adr {
        return Some(chain[i]), LinkTo(table, h, i), i;
      }
      i := i + 1;
    }
    return None, LinkTo(table, h, i), i;
  }

  /** Storing a new element through the link the search for its address ended at. */
  lemma ChainedStore(elems: Elements, table: seq<seq<nat>>, bits: nat, id: nat, e: Element, p: nat)
    requires Chained(elems, table, bits) && id !in elems && Passed(elems, table[AdrHash(e.adr, bits)], p, e.adr)
    ensures var h := AdrHash(e.adr, bits);
            var t := SetLink(table, LinkTo(table, h, p), id);
            && t == table[h := table[h][..p] + [id]]
            && Chained(elems[id := e], t, bits) && Linked(elems[id := e], t, bits, id)
            && (forall x :: x in elems && Linked(elems[id := e], t, bits, x) ==>
                  Linked(elems, table, bits, x) && elems[x].adr != e.adr)
            && (p == |table[h]| ==> forall x :: x in elems && Linked(elems, table, bits, x) ==>
                  Linked(elems[id := e], t, bits, x))
  {
    hide AdrHash;
    var h := AdrHash(e.adr, bits);
    var chain := table[h];
    ChainDistinct(elems, table, bits, h);
    if p > 0 {
      IndexUnique(chain, p - 1);
    }
    var t := table[h := chain[..p] + [id]];
    assert chain[..0] + [id] == [id];
    assert SetLink(table, LinkTo(table, h, p), id) == t;
    assert t[h][p] == id;
    ChainedStored(elems, table, bits, id, e, p, t);
  }

  lemma ChainedStored(elems: Elements, table: seq<seq<nat>>, bits: nat, id: nat, e: Element, p: nat, t: seq<seq<nat>>)
    requires Chained(elems, table, bits) && id !in elems && Passed(elems, table[AdrHash(e.adr, bits)], p, e.adr)
    requires t == table[AdrHash(e.adr, bits) := table[AdrHash(e.adr, bits)][..p] + [id]]
    ensures Chained(elems[id := e], t, bits)
    ensures forall x :: x in elems && Linked(elems[id := e], t, bits, x) ==>
              Linked(elems, table, bits, x) && elems[x].adr != e.adr
    ensures p == |table[AdrHash(e.adr, bits)]| ==>
              forall x :: x in elems && Linked(elems, table, bits, x) ==> Linked(elems[id := e], t, bits, x)
  {
    hide AdrHash;
    var h := AdrHash(e.adr, bits);
    forall g, i | 0 <= g < |t| && 0 <= i < |t[g]|
      ensures t[g][i] in elems[id := e] && AdrHash(elems[id := e][t[g][i]].adr, bits) == g
    {
      assert g != h || i < p ==> t[g][i] == table[g][i];
    }
    forall x | x in elems && Linked(elems[id := e], t, bits, x)
      ensures Linked(elems, table, bits, x) && elems[x].adr != e.adr
    {
      var g := AdrHash(elems[x].adr, bits);
      var i :| 0 <= i < |t[g]| && t[g][i] == x;
      assert table[g][i] == x;
    }
  }

  /** Unlinking an element from its chain and dropping it. */
  ghost function Unchained(elems: Elements, table: seq<seq<nat>>, bits: nat, id: nat): seq<seq<nat>>
    requires id in elems && bits <= HASH_BITS + 1 && |table| == Pow2(bits)
  {
    var h := AdrHash(elems[id].adr, bits);
    table[h := Minus(table[h], id)]
  }

  lemma ChainedRemove(elems: Elements, table: seq<seq<nat>>, bits: nat, id: nat)
    requires Chained(elems, table, bits) && id in elems
    ensures var t := Unchained(elems, table, bits, id);
            && Chained(elems - {id}, t, bits)
            && (forall x :: x in elems && x != id ==>
                  (Linked(elems - {id}, t, bits, x) <==> Linked(elems, table, bits, x)))
  {
    hide AdrHash;
    var h := AdrHash(elems[id].adr, bits);
    ChainDistinct(elems, table, bits, h);
    MinusDistinct(table[h], id);
    var t := Unchained(elems, table, bits, id);
    forall g, i | 0 <= g < |t| && 0 <= i < |t[g]|
      ensures t[g][i] in elems - {id} && AdrHash((elems - {id})[t[g][i]].adr, bits) == g
    {
      assert t[g][i] in t[g];
      assert t[g][i] in table[g];
    }
  }

  lemma ChainDistinct(elems: Elements, table: seq<seq<nat>>, bits: nat, h: nat)
    requires Chained(elems, table, bits) && h < |table|
    ensures Distinct(table[h])
  {
    hide AdrHash;
  }

  /** cache_lookup stores the new element through a link found before the eviction.  The link
      still works unless the victim was the last element of the very chain it belongs to. */
  lemma StoredAfterEviction(elems: Elements, table: seq<seq<nat>>, bits: nat, victim: nat, id: nat, e: Element)
    requires Chained(elems, table, bits) && victim in elems && id !in elems && !InTable(elems, table, bits, e.adr)
    ensures var h := AdrHash(e.adr, bits);
            var link := Vacant(table, h);
            var t := SetLink(Unchained(elems, table, bits, victim), link, id);
            var elems' := (elems - {victim})[id := e];
            && Chained(elems', t, bits)
            && (Linked(elems', t, bits, id) <==> link != After(h, victim))
            && (forall x :: x in elems && x != victim ==>
                  (Linked(elems', t, bits, x) <==> Linked(elems, table, bits, x)))
  {
    hide AdrHash;
    var h := AdrHash(e.adr, bits);
    var link := Vacant(table, h);
    var t1 := Unchained(elems, table, bits, victim);
    var rest := elems - {victim};
    ChainedRemove(elems, table, bits, victim);
    ChainDistinct(elems, table, bits, h);
    MinusDistinct(table[h], victim);
    if link == After(h, victim) {
      assert victim !in t1[h];
      NotStored(rest, t1, bits, id, e);
    } else {
      VacantSurvives(elems, table, bits, victim, h);
      forall i | 0 <= i < |t1[h]|
        ensures t1[h][i] in rest && rest[t1[h][i]].adr != e.adr
      {
        assert t1[h][i] in t1[h];
        assert t1[h][i] in table[h];
      }
      ChainedStore(rest, t1, bits, id, e, |t1[h]|);
    }
  }

  lemma VacantSurvives(elems: Elements, table: seq<seq<nat>>, bits: nat, victim: nat, h: nat)
    requires Chained(elems, table, bits) && victim in elems && h < |table| && Vacant(table, h) != After(h, victim)
    ensures Vacant(Unchained(elems, table, bits, victim), h) == Vacant(table, h)
  {
    hide AdrHash;
  }

  lemma NotStored(elems: Elements, table: seq<seq<nat>>, bits: nat, id: nat, e: Element)
    requires Chained(elems, table, bits) && id !in elems
    ensures Chained(elems[id := e], table, bits) && !Linked(elems[id := e], table, bits, id)
    ensures forall x :: x in elems ==> (Linked(elems[id := e], table, bits, x) <==> Linked(elems, table, bits, x))
  {
    hide AdrHash;
  }

  // ----- coherence -----

  ghost function BucketCells(b: Bucket, size: nat): (c: seq<Cell>)
    ensures |c| == size
  {
    ImageCells(BucketImage(b), size)
  }

  /** Every other element with the same address was used less recently. */
  ghost predicate Leading(elems: Elements, lru: seq<nat>, id: nat)
    requires Listed(elems, lru) && id in elems
  {
    forall x :: x in elems && x != id && elems[x].adr == elems[id].adr ==> IndexOf(lru, id) < IndexOf(lru, x)
  }

  /** The element at position `k` of the list is the first one with its address. */
  ghost predicate First(elems: Elements, lru: seq<nat>, k: nat)
    requires Listed(elems, lru)
  {
    k < |lru| && forall q :: 0 <= q < k ==> elems[lru[q]].adr != elems[lru[k]].adr
  }

  lemma FirstLeads(elems: Elements, lru: seq<nat>, k: nat)
    requires Listed(elems, lru) && First(elems, lru, k)
    ensures Leading(elems, lru, lru[k])
  {
    IndexUnique(lru, k);
    hide IndexOf;
    forall x | x in elems && x != lru[k] && elems[x].adr == elems[lru[k]].adr
      ensures k < IndexOf(lru, x)
    {
      assert lru[IndexOf(lru, x)] == x;
    }
  }

  /** How cached buckets relate to the live buckets: elements in `raw` are not filled in yet. */
  ghost predicate Current(elems: Elements, lru: seq<nat>, table: seq<seq<nat>>, bits: nat, buckets: map<nat, Bucket>,
                          raw: set<nat>)
    requires Listed(elems, lru)
  {
    && (forall id :: id in elems && id !in raw && elems[id].adr in buckets && Leading(elems, lru, id) ==>
          elems[id].bucket == buckets[elems[id].adr])
    && (forall id :: id in elems && (Linked(elems, table, bits, id) || elems[id].changed) ==> Leading(elems, lru, id))
    && (forall id :: id in elems && elems[id].changed ==> elems[id].adr in buckets && id !in raw)
  }

  ghost predicate DirtyAt(elems: Elements, a: nat) {
    exists id :: id in elems && elems[id].changed && elems[id].adr == a
  }

  /** Every live bucket outside `open` is on disk unless a changed element holds it. */
  ghost predicate Stored(f: seq<Cell>, elems: Elements, buckets: map<nat, Bucket>, open: set<nat>, size: nat) {
    forall a :: a in buckets && a !in open && !DirtyAt(elems, a) ==> Holds(f, a, BucketCells(buckets[a], size))
  }

  /** The bytes of live buckets belong to them. */
  ghost predicate Allotted(own: seq<Owner>, buckets: map<nat, Bucket>, size: nat) {
    forall a :: a in buckets ==> Painted(own, a, size, BucketAt(a))
  }

  /** Only bytes of buckets differ. */
  ghost predicate OnlyBuckets(own: seq<Owner>, f: seq<Cell>, f': seq<Cell>) {
    && |f| <= |f'| && (|f'| <= |own| || |f'| == |f|)
    && forall x :: 0 <= x < |f| && !(x < |own| && own[x].BucketAt?) ==> f'[x] == f[x]
  }

  ghost function Cleaned(elems: Elements, ids: set<nat>): (r: Elements)
    ensures r.Keys == elems.Keys
    ensures forall id :: id in elems ==>
              r[id] == if id in ids then elems[id].(changed := false, data := NoData) else elems[id]
  {
    map id | id in elems :: if id in ids then elems[id].(changed := false, data := NoData) else elems[id]
  }

  ghost function Dirty(elems: Elements): set<nat> {
    set id | id in elems && elems[id].changed
  }

  /** Cleaning changes neither addresses nor what leads where. */
  lemma CleanedSame(elems: Elements, lru: seq<nat>, table: seq<seq<nat>>, bits: nat, ids: set<nat>)
    requires Listed(elems, lru)
    ensures Listed(Cleaned(elems, ids), lru)
    ensures forall id :: id in elems ==> Linked(Cleaned(elems, ids), table, bits, id) == Linked(elems, table, bits, id)
    ensures forall id :: id in elems ==> Leading(Cleaned(elems, ids), lru, id) == Leading(elems, lru, id)
  {
    hide AdrHash, IndexOf;
  }

  /** Writing one changed bucket keeps the cache coherent. */
  lemma WroteBucket(f: seq<Cell>, own: seq<Owner>, elems: Elements, lru: seq<nat>, table: seq<seq<nat>>, bits: nat,
                    buckets: map<nat, Bucket>, open: set<nat>, raw: set<nat>, size: nat, id: nat)
    requires Listed(elems, lru) && Current(elems, lru, table, bits, buckets, raw)
    requires Stored(f, elems, buckets, open, size)
    requires Allotted(own, buckets, size) && size > 0 && id in elems && elems[id].changed
    ensures var f' := Write(f, elems[id].adr, BucketCells(elems[id].bucket, size));
            var elems' := Cleaned(elems, {id});
            && Listed(elems', lru) && Current(elems', lru, table, bits, buckets, raw)
            && Stored(f', elems', buckets, open, size) && OnlyBuckets(own, f, f')
  {
    hide AdrHash, IndexOf, Linked, Listed, Leading;
    var adr := elems[id].adr;
    assert elems[id].bucket == buckets[adr];
    var f' := Write(f, adr, BucketCells(elems[id].bucket, size));
    var elems' := Cleaned(elems, {id});
    CleanedSame(elems, lru, table, bits, {id});
    forall a | a in buckets && a !in open && !DirtyAt(elems', a)
      ensures Holds(f', a, BucketCells(buckets[a], size))
    {
      if a != adr {
        assert forall x :: x in elems && elems[x].adr == a ==> elems'[x] == elems[x];
        Apart(own, a, adr, size);
        assert f'[a..a + size] == f[a..a + size];
      }
    }
  }

  lemma Apart(own: seq<Owner>, a: nat, b: nat, size: nat)
    requires Painted(own, a, size, BucketAt(a)) && Painted(own, b, size, BucketAt(b)) && a != b && size > 0
    ensures a + size <= b || b + size <= a
  {
    assert own[a] == BucketAt(a) && own[b] == BucketAt(b);
  }

  /** Dropping the least recently used element, once it is clean. */
  lemma EvictedLast(f: seq<Cell>, elems: Elements, lru: seq<nat>, table: seq<seq<nat>>, bits: nat,
                    buckets: map<nat, Bucket>, open: set<nat>, raw: set<nat>, size: nat, id: nat, lru': seq<nat>,
                        table': seq<seq<nat>>)
    requires Listed(elems, lru) && Current(elems, lru, table, bits, buckets, raw)
    requires Stored(f, elems, buckets, open, size)
    requires id in elems && Unlinked(lru, id, lru') && IndexOf(lru, id) == |lru| - 1 && !elems[id].changed
    requires forall x :: x in elems && x != id ==>
              (Linked(elems - {id}, table', bits, x) <==> Linked(elems, table, bits, x))
    ensures Listed(elems - {id}, lru') && Current(elems - {id}, lru', table', bits, buckets, raw)
    ensures Stored(f, elems - {id}, buckets, open, size)
  {
    hide AdrHash, IndexOf, Linked, Leading;
    var elems' := elems - {id};
    assert forall x :: x in elems && x != id ==> x in elems' && elems'[x] == elems[x];
    assert Listed(elems', lru');
    forall x | x in elems'
      ensures Leading(elems', lru', x) == Leading(elems, lru, x)
    {
      LeadingWithoutLast(elems, lru, id, lru', x);
    }
  }

  lemma LeadingWithoutLast(elems: Elements, lru: seq<nat>, id: nat, lru': seq<nat>, x: nat)
    requires Listed(elems, lru) && Listed(elems - {id}, lru') && id in elems && x in elems && x != id
    requires Unlinked(lru, id, lru') && IndexOf(lru, id) == |lru| - 1
    ensures Leading(elems - {id}, lru', x) == Leading(elems, lru, x)
  {
    hide IndexOf;
    var elems' := elems - {id};
    if Leading(elems', lru', x) {
      forall y | y in elems && y != x && elems[y].adr == elems[x].adr
        ensures IndexOf(lru, x) < IndexOf(lru, y)
      {
        assert y != id ==> y in elems' && elems'[y].adr == elems'[x].adr;
      }
    }
  }

  /** A new, clean element enters the list at position `i`. */
  lemma EnteredAt(f: seq<Cell>, elems: Elements, lru: seq<nat>, table: seq<seq<nat>>, table': seq<seq<nat>>, bits: nat,
                  buckets: map<nat, Bucket>, open: set<nat>, raw: set<nat>, size: nat, i: nat, id: nat, e: Element,
                      lru': seq<nat>)
    requires Listed(elems, lru) && id !in elems && LinkedAt(lru, i, id, lru') && !e.changed
    requires Current(elems, lru, table, bits, buckets, raw) && Stored(f, elems, buckets, open, size)
    requires forall x :: x in elems && Linked(elems[id := e], table', bits, x) ==> Linked(elems, table, bits, x)
    requires forall x :: x in elems && elems[x].adr == e.adr ==>
               !elems[x].changed && !Linked(elems[id := e], table', bits, x) && i <= IndexOf(lru, x)
    ensures Listed(elems[id := e], lru')
    ensures Current(elems[id := e], lru', table', bits, buckets, raw + {id})
    ensures Stored(f, elems[id := e], buckets, open, size)
  {
    var elems' := elems[id := e];
    assert Listed(elems', lru');
    hide AdrHash, IndexOf, Linked, Leading, Listed, LinkedAt, Stored;
    forall x | x in elems'
      ensures x == id ==> Leading(elems', lru', x)
      ensures x != id && Leading(elems', lru', x) ==> Leading(elems, lru, x)
      ensures x != id && Leading(elems, lru, x) && elems[x].adr != e.adr ==> Leading(elems', lru', x)
    {
      EnteredLeaders(elems, lru, i, id, e, lru', x);
    }
    assert forall x :: x in elems ==> x in elems' && elems'[x] == elems[x];
    EnteredStored(f, elems, buckets, open, size, id, e);
  }

  lemma EnteredStored(f: seq<Cell>, elems: Elements, buckets: map<nat, Bucket>, open: set<nat>, size: nat, id: nat,
                      e: Element)
    requires Stored(f, elems, buckets, open, size) && id !in elems
    ensures Stored(f, elems[id := e], buckets, open, size)
  {
    var elems' := elems[id := e];
    assert forall x :: x in elems ==> x in elems' && elems'[x] == elems[x];
    assert forall a :: !DirtyAt(elems', a) ==> !DirtyAt(elems, a);
  }

  lemma EnteredLeaders(elems: Elements, lru: seq<nat>, i: nat, id: nat, e: Element, lru': seq<nat>, x: nat)
    requires Listed(elems, lru) && Listed(elems[id := e], lru') && id !in elems && LinkedAt(lru, i, id, lru')
    requires (forall y :: y in elems && elems[y].adr == e.adr ==> i <= IndexOf(lru, y)) && (x in elems || x == id)
    ensures x == id ==> Leading(elems[id := e], lru', x)
    ensures x != id && Leading(elems[id := e], lru', x) ==> Leading(elems, lru, x)
    ensures x != id && Leading(elems, lru, x) && elems[x].adr != e.adr ==> Leading(elems[id := e], lru', x)
  {
    hide IndexOf;
    var elems' := elems[id := e];
    assert forall y :: y in elems ==> y in elems' && elems'[y] == elems[y];
  }

  /** An element found through the table moves to the front of the list. */
  lemma MovedToFront(elems: Elements, lru: seq<nat>, rest: seq<nat>, lru': seq<nat>, table: seq<seq<nat>>, bits: nat,
                     buckets: map<nat, Bucket>, raw: set<nat>, id: nat)
    requires Listed(elems, lru) && id in elems && Leading(elems, lru, id)
    requires Unlinked(lru, id, rest) && LinkedAt(rest, 0, id, lru')
    requires Current(elems, lru, table, bits, buckets, raw)
    ensures Listed(elems, lru') && Current(elems, lru', table, bits, buckets, raw)
  {
    assert Listed(elems, lru');
    hide AdrHash, IndexOf, Linked, Leading, Listed, Unlinked, LinkedAt;
    forall x | x in elems
      ensures Leading(elems, lru', x) == Leading(elems, lru, x)
    {
      SameLeaders(elems, lru, rest, lru', id, x);
    }
  }

  lemma SameLeaders(elems: Elements, lru: seq<nat>, rest: seq<nat>, lru': seq<nat>, id: nat, x: nat)
    requires Listed(elems, lru) && Listed(elems, lru') && id in elems && Leading(elems, lru, id) && x in elems
    requires Unlinked(lru, id, rest) && LinkedAt(rest, 0, id, lru')
    ensures Leading(elems, lru', x) == Leading(elems, lru, x)
  {
    hide IndexOf;
    assert forall y :: y in elems && y != id ==> y in rest;
  }
}
