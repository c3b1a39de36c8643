/**
 The operations of the bucket cache (src/bucket.c), with the one-line flaw of cache_lookup
 kept: the link found before an eviction is used after it.
 */
module CacheOps {
  import opened Bits
  import opened Layout
  import opened Space
  import opened Allocator
  import opened Sequences
  import opened Cache

  datatype Outcome = Found | New | Aborted

  function EmptyTable(bits: nat): (t: seq<seq<nat>>)
    ensures |t| == Pow2(bits) && forall h :: 0 <= h < |t| ==> t[h] == []
  {
    seq(Pow2(bits), _ => [])
  }

  /** Whatever the table leads to is a live bucket. */
  ghost predicate LinkedLive(elems: Elements, table: seq<seq<nat>>, bits: nat, buckets: map<nat, Bucket>,
                             raw: set<nat>) {
    forall id :: id in elems && id !in raw && Linked(elems, table, bits, id) ==> elems[id].adr in buckets
  }

  /** Rewriting a leading element together with the live bucket it stands for. */
  lemma Updated(elems: Elements, lru: seq<nat>, table: seq<seq<nat>>, bits: nat, buckets: map<nat, Bucket>,
                raw: set<nat>, id: nat, e: Element)
    requires Listed(elems, lru) && Current(elems, lru, table, bits, buckets, raw) && raw <= {id}
    requires id in elems && Leading(elems, lru, id) && e.adr == elems[id].adr
    ensures Listed(elems[id := e], lru)
    ensures Current(elems[id := e], lru, table, bits, buckets[e.adr := e.bucket], {})
  {
    hide AdrHash, IndexOf, Linked, Leading;
    var elems' := elems[id := e];
    forall x | x in elems
      ensures Linked(elems', table, bits, x) == Linked(elems, table, bits, x)
      ensures Listed(elems', lru) && Leading(elems', lru, x) == Leading(elems, lru, x)
      ensures x != id && elems[x].adr == e.adr ==> !Leading(elems, lru, x)
    {
      SameLeading(elems, lru, id, e, x);
      SameLinked(elems, table, bits, id, e, x);
      if x != id && elems[x].adr == e.adr {
        OneLeader(elems, lru, id, x);
      }
    }
    hide Listed;
    assert forall x :: x in elems && x != id ==> elems'[x] == elems[x];
  }

  lemma OneLeader(elems: Elements, lru: seq<nat>, id: nat, x: nat)
    requires Listed(elems, lru) && id in elems && x in elems && Leading(elems, lru, id) && x != id
    requires elems[x].adr == elems[id].adr
    ensures !Leading(elems, lru, x)
  {
    hide IndexOf;
  }

  /** What the table leads to after a new element has been stored. */
  lemma EnteredLinks(elems: Elements, table: seq<seq<nat>>, t: seq<seq<nat>>, bits: nat, buckets: map<nat, Bucket>,
                     id: nat, adr: nat, linked: bool)
    requires Stored1(elems, table, t, bits, id, adr, linked) && id !in elems
    ensures var elems' := elems[id := Fresh(adr)];
            && Chained(elems', t, bits) && (Linked(elems', t, bits, id) <==> linked)
            && (forall x :: x in elems && Linked(elems', t, bits, x) ==> Linked(elems, table, bits, x))
            && (forall x :: x in elems && elems[x].adr == adr ==> !Linked(elems', t, bits, x))
            && (linked && AllLinked(elems, table, bits) && (forall x :: x in elems ==> elems[x].adr != adr) ==>
                  AllLinked(elems', t, bits))
            && (LinkedLive(elems, table, bits, buckets, {}) ==> LinkedLive(elems', t, bits, buckets, {id}))
  {
    hide AdrHash, Linked, Chained;
  }

  lemma SameLinked(elems: Elements, table: seq<seq<nat>>, bits: nat, id: nat, e: Element, x: nat)
    requires id in elems && e.adr == elems[id].adr
    ensures Linked(elems[id := e], table, bits, x) == Linked(elems, table, bits, x)
  {
    hide AdrHash;
  }

  lemma UpdatedLinks(elems: Elements, table: seq<seq<nat>>, bits: nat, buckets: map<nat, Bucket>, raw: set<nat>,
                     id: nat, e: Element)
    requires id in elems && e.adr == elems[id].adr && Chained(elems, table, bits) && raw <= {id}
    ensures Chained(elems[id := e], table, bits)
    ensures AllLinked(elems, table, bits) ==> AllLinked(elems[id := e], table, bits)
    ensures LinkedLive(elems, table, bits, buckets, raw) ==>
              LinkedLive(elems[id := e], table, bits, buckets[e.adr := e.bucket], {})
  {
    hide AdrHash, Linked;
    forall x
      ensures Linked(elems[id := e], table, bits, x) == Linked(elems, table, bits, x)
    {
      SameLinked(elems, table, bits, id, e, x);
    }
  }

  lemma SameLeading(elems: Elements, lru: seq<nat>, id: nat, e: Element, x: nat)
    requires Listed(elems, lru) && id in elems && x in elems && e.adr == elems[id].adr
    ensures Listed(elems[id := e], lru) && Leading(elems[id := e], lru, x) == Leading(elems, lru, x)
  {
    hide IndexOf;
    var elems' := elems[id := e];
    assert forall y :: y in elems ==> elems'[y].adr == elems[y].adr;
  }

  /** It does not matter whether the first entry is dropped before or after the others change. */
  lemma DropOrder<V>(m: map<nat, V>, c: nat, x: nat, v: V, y: nat, w: V)
    requires c != x && c != y
    ensures m[x := v][y := w] - {c} == (m - {c})[x := v][y := w]
  {
  }

  lemma StillLive(elems0: Elements, lru0: seq<nat>, elems: Elements, lru: seq<nat>, buckets: map<nat, Bucket>, k: nat)
    requires Listed(elems0, lru0) && Listed(elems, lru) && lru <= lru0 && k < |lru|
    requires forall q :: 0 <= q <= k ==> elems0[lru0[q]].adr in buckets
    requires forall x :: x in elems ==> x in elems0 && SameOrWritten(elems0[x], elems[x])
    ensures forall q :: 0 <= q <= k ==> elems[lru[q]].adr in buckets
  {
    forall q | 0 <= q <= k
      ensures elems[lru[q]].adr in buckets
    {
      assert lru[q] == lru0[q] && lru[q] in lru;
    }
  }

  lemma Apart3(s: seq<nat>)
    requires Distinct(s) && |s| > 2
    ensures s[0] != s[1] && s[0] != s[2] && s[1] != s[2]
  {
  }

  lemma BothDirty(f: seq<Cell>, elems: Elements, buckets: map<nat, Bucket>, open: set<nat>, size: nat, n0: nat, n1: nat)
    requires n0 in elems && n1 in elems && elems[n0].changed && elems[n1].changed
    requires Stored(f, elems, buckets, open + {elems[n0].adr} + {elems[n1].adr}, size)
    ensures Stored(f, elems, buckets, open - {elems[n0].adr, elems[n1].adr}, size)
  {
    assert DirtyAt(elems, elems[n0].adr) && DirtyAt(elems, elems[n1].adr);
  }

  lemma LoadedStored(f: seq<Cell>, elems: Elements, buckets: map<nat, Bucket>, size: nat, id: nat, e: Element)
    requires Stored(f, elems, buckets, {}, size) && id in elems && e.adr == elems[id].adr
    requires e.changed == elems[id].changed
    ensures Stored(f, elems[id := e], buckets, {}, size)
  {
    assert forall x :: x in elems ==>
          elems[id := e][x].adr == elems[x].adr && elems[id := e][x].changed == elems[x].changed;
    assert forall a :: !DirtyAt(elems[id := e], a) ==> !DirtyAt(elems, a);
  }

  lemma UpdatedStored(f: seq<Cell>, elems: Elements, buckets: map<nat, Bucket>, open: set<nat>, size: nat, id: nat,
                      e: Element)
    requires Stored(f, elems, buckets, open, size) && id in elems && e.adr == elems[id].adr
    ensures Stored(f, elems[id := e], buckets[e.adr := e.bucket], open + {e.adr}, size)
  {
    var elems' := elems[id := e];
    forall a | a in buckets && a != e.adr && !DirtyAt(elems', a)
      ensures !DirtyAt(elems, a)
    {
      assert forall x :: x in elems && elems[x].adr == a ==> elems'[x] == elems[x];
    }
  }

  lemma LiveLinked(elems: Elements, table: seq<seq<nat>>, bits: nat, buckets: map<nat, Bucket>, raw: set<nat>)
    ensures (forall id :: id in elems && id !in raw ==> elems[id].adr in buckets) ==>
              LinkedLive(elems, table, bits, buckets, raw)
  {
    hide Linked;
  }

  lemma ResizeKeepsPrefixes(elems0: Elements, lru: seq<nat>, elems1: Elements, elems: Elements, n: nat)
    requires KeepsPrefixes(elems0, lru, elems1, lru) && n <= |lru|
    requires (forall id :: id in elems ==> id in elems1 && elems[id] == elems1[id])
    requires (forall id :: id in lru[..n] ==> id in elems)
    ensures KeepsPrefixes(elems0, lru, elems, lru[..n])
  {
    hide KeepsPrefixes;
    CutKeepsPrefixes(elems1, lru, elems, n);
    KeepsPrefixesTrans(elems0, lru, elems1, lru, elems, lru[..n]);
  }

  lemma RoomForFour(bits: nat)
    requires bits >= 2
    ensures Pow2(bits) >= 4
  {
    Pow2Monotonic(2, bits);
    assert Pow2(2) == 4;
  }

  lemma InsertedShape(s: seq<nat>, t: seq<nat>, k: nat, x: nat)
    requires s <= t && k <= |s|
    ensures var r := InsertAt(s, k, x);
            |r| == |s| + 1 && r[..k] == t[..k] && r[k] == x && r[k + 1..] == s[k..] && r[k + 1..] <= t[k..]
  {
  }

  lemma MinusHead(s: seq<nat>)
    requires |s| > 0
    ensures Minus(s, s[0]) == s[1..]
  {
  }

  /** The head of the list goes, and the bucket it stands for. */
  lemma HeadDropped(elems: Elements, lru: seq<nat>, table: seq<seq<nat>>, bits: nat, buckets: map<nat, Bucket>)
    requires Listed(elems, lru) && Chained(elems, table, bits) && |lru| > 0
    requires Current(elems, lru, table, bits, buckets, {})
    ensures Listed(elems - {lru[0]}, lru[1..])
    ensures Current(elems - {lru[0]}, lru[1..], Unchained(elems, table, bits, lru[0]), bits,
              buckets - {elems[lru[0]].adr}, {})
  {
    hide AdrHash, Linked, Chained, Unchained, IndexOf, Minus, Leading, Listed;
    var c, elems' := lru[0], elems - {lru[0]};
    LeadersWithoutHead(elems, lru);
    TableSize(elems, table, bits);
    ChainedRemove(elems, table, bits, c);
    assert forall x :: x in elems' ==> elems'[x] == elems[x];
  }

  lemma LeadersWithoutHead(elems: Elements, lru: seq<nat>)
    requires Listed(elems, lru) && |lru| > 0
    ensures lru[0] in elems && Listed(elems - {lru[0]}, lru[1..])
    ensures forall x :: x in elems && x != lru[0] && elems[x].adr == elems[lru[0]].adr ==> !Leading(elems, lru, x)
    ensures forall x :: x in elems && x != lru[0] && elems[x].adr != elems[lru[0]].adr ==>
              Leading(elems - {lru[0]}, lru[1..], x) == Leading(elems, lru, x)
  {
    MinusHead(lru);
    MinusDistinct(lru, lru[0]);
    MinusUnlinks(lru, lru[0]);
    IndexUnique(lru, 0);
    hide IndexOf, Minus, Leading, Unlinked;
    forall x | x in elems && x != lru[0]
      ensures elems[x].adr == elems[lru[0]].adr ==> !Leading(elems, lru, x)
      ensures elems[x].adr != elems[lru[0]].adr ==> Leading(elems - {lru[0]}, lru[1..], x) == Leading(elems, lru, x)
    {
      LeadingWithoutHead(elems, lru, lru[1..], x);
    }
  }

  lemma LeadingWithoutHead(elems: Elements, lru: seq<nat>, lru': seq<nat>, x: nat)
    requires |lru| > 0 && Listed(elems, lru) && Listed(elems - {lru[0]}, lru') && x in elems && x != lru[0]
    requires Unlinked(lru, lru[0], lru') && IndexOf(lru, lru[0]) == 0
    ensures elems[x].adr == elems[lru[0]].adr ==> !Leading(elems, lru, x)
    ensures elems[x].adr != elems[lru[0]].adr ==> Leading(elems - {lru[0]}, lru', x) == Leading(elems, lru, x)
  {
    hide IndexOf;
    var elems' := elems - {lru[0]};
    if Leading(elems', lru', x) && elems[x].adr != elems[lru[0]].adr {
      forall y | y in elems && y != x && elems[y].adr == elems[x].adr
        ensures IndexOf(lru, x) < IndexOf(lru, y)
      {
        assert y in elems' && elems'[y].adr == elems'[x].adr;
      }
    }
  }

  lemma HeadDroppedStored(f: seq<Cell>, elems: Elements, lru: seq<nat>, buckets: map<nat, Bucket>, open: set<nat>,
                          size: nat)
    requires Listed(elems, lru) && |lru| > 0 && Stored(f, elems, buckets, open, size)
    ensures Stored(f, elems - {lru[0]}, buckets - {elems[lru[0]].adr}, open, size)
  {
    var adr, elems' := elems[lru[0]].adr, elems - {lru[0]};
    forall a | a in buckets - {adr} && a !in open && !DirtyAt(elems', a)
      ensures Holds(f, a, BucketCells(buckets[a], size))
    {
      assert forall x :: x in elems && elems[x].adr == a ==> x in elems' && elems'[x] == elems[x];
    }
  }

  lemma HeadDroppedLinks(elems: Elements, lru: seq<nat>, table: seq<seq<nat>>, bits: nat, buckets: map<nat, Bucket>)
    requires Listed(elems, lru) && Chained(elems, table, bits) && |lru| > 0
    requires Current(elems, lru, table, bits, buckets, {})
    ensures var elems', table', buckets' := elems - {lru[0]}, Unchained(elems, table, bits, lru[0]),
              buckets - {elems[lru[0]].adr};
            && (AllLinked(elems, table, bits) ==> AllLinked(elems', table', bits))
            && (AllLinked(elems, table, bits) && (forall x :: x in elems ==> elems[x].adr in buckets) ==>
                  forall x :: x in elems' ==> elems'[x].adr in buckets')
            && (LinkedLive(elems, table, bits, buckets, {}) ==> LinkedLive(elems', table', bits, buckets', {}))
  {
    var c, elems' := lru[0], elems - {lru[0]};
    ChainedRemove(elems, table, bits, c);
    IndexUnique(lru, 0);
    hide AdrHash, Linked, Chained, Unchained, IndexOf;
    forall x | x in elems' && Linked(elems, table, bits, x)
      ensures elems[x].adr != elems[c].adr
    {
      FirstLeads(elems, lru, 0);
      assert Leading(elems, lru, x) && Leading(elems, lru, c);
    }
  }

  lemma DataSet(elems: Elements, lru: seq<nat>, table: seq<seq<nat>>, bits: nat, buckets: map<nat, Bucket>, id: nat,
                d: CachedData)
    requires Listed(elems, lru) && Current(elems, lru, table, bits, buckets, {}) && id in elems
    ensures var elems' := elems[id := elems[id].(data := d)];
            Listed(elems', lru) && Current(elems', lru, table, bits, buckets, {})
  {
    hide AdrHash, IndexOf, Linked, Leading, Chained;
    var e := elems[id].(data := d);
    var elems' := elems[id := e];
    forall x | x in elems
      ensures Linked(elems', table, bits, x) == Linked(elems, table, bits, x)
      ensures Listed(elems', lru) && Leading(elems', lru, x) == Leading(elems, lru, x)
    {
      SameLeading(elems, lru, id, e, x);
      SameLinked(elems, table, bits, id, e, x);
    }
    hide Listed;
    assert forall x :: x in elems ==> elems'[x] == elems[x].(data := elems'[x].data);
  }

  lemma DataSetStored(f: seq<Cell>, elems: Elements, table: seq<seq<nat>>, bits: nat, buckets: map<nat, Bucket>,
                      open: set<nat>, size: nat, id: nat, d: CachedData)
    requires Chained(elems, table, bits) && Stored(f, elems, buckets, open, size) && id in elems
    ensures var elems' := elems[id := elems[id].(data := d)];
            && Chained(elems', table, bits)
            && Stored(f, elems', buckets, open, size) && Dirty(elems') == Dirty(elems)
            && (AllLinked(elems, table, bits) ==> AllLinked(elems', table, bits))
            && (LinkedLive(elems, table, bits, buckets, {}) ==> LinkedLive(elems', table, bits, buckets, {}))
  {
    hide AdrHash, Linked, Chained;
    var e := elems[id].(data := d);
    var elems' := elems[id := e];
    UpdatedLinks(elems, table, bits, buckets, {}, id, e);
    forall x | x in elems
      ensures Linked(elems', table, bits, x) == Linked(elems, table, bits, x)
    {
      SameLinked(elems, table, bits, id, e, x);
    }
    assert forall x :: x in elems ==> elems'[x].adr == elems[x].adr && elems'[x].changed == elems[x].changed;
    assert forall a :: !DirtyAt(elems', a) ==> !DirtyAt(elems, a);
  }

  /** The changed elements came first in the list, so the flush reached them all. */
  lemma AllClean(elems0: Elements, list: seq<nat>, elems: Elements, n: nat)
    requires (forall id :: id in list ==> id in elems0)
    requires (forall id :: id in elems0 && elems0[id].changed ==> id in list)
    requires PrefixOf(list, Dirty(elems0)) && n <= |list| && (n == |list| || !elems0[list[n]].changed)
    requires elems == Cleaned(elems0, set i | 0 <= i < n :: list[i])
    ensures Dirty(elems) == {}
  {
    forall id | id in elems
      ensures !elems[id].changed
    {
      if elems0[id].changed {
        var k :| 0 <= k < |list| && list[k] == id;
        assert n <= k ==> list[n] in list && list[n] !in Dirty(elems0);
      }
    }
  }

  lemma CleanStored(f: seq<Cell>, elems: Elements, buckets: map<nat, Bucket>, size: nat)
    requires Stored(f, elems, buckets, {}, size) && Dirty(elems) == {}
    ensures forall a :: a in buckets ==> Holds(f, a, BucketCells(buckets[a], size))
  {
    assert forall id :: id in elems ==> id !in Dirty(elems);
  }

  lemma NothingDirty(lru: seq<nat>)
    ensures PrefixOf(lru, {})
  {
  }

  lemma LinkedCurrent(elems: Elements, lru: seq<nat>, table: seq<seq<nat>>, bits: nat, buckets: map<nat, Bucket>,
                      raw: set<nat>, id: nat)
    requires Listed(elems, lru) && Current(elems, lru, table, bits, buckets, raw)
    requires Linked(elems, table, bits, id) && id !in raw && elems[id].adr in buckets
    ensures elems[id].bucket == buckets[elems[id].adr]
  {
    hide AdrHash;
  }

  lemma LinkedLeads(elems: Elements, lru: seq<nat>, table: seq<seq<nat>>, bits: nat, buckets: map<nat, Bucket>,
                    raw: set<nat>, id: nat)
    requires Listed(elems, lru) && Current(elems, lru, table, bits, buckets, raw) && Linked(elems, table, bits, id)
    ensures Leading(elems, lru, id)
  {
    hide AdrHash, Leading;
  }

  lemma AbsentAddress(elems: Elements, table: seq<seq<nat>>, bits: nat, adr: nat)
    requires Chained(elems, table, bits) && AllLinked(elems, table, bits) && !InTable(elems, table, bits, adr)
    ensures forall x :: x in elems ==> elems[x].adr != adr
  {
    LookupFresh(elems, table, bits, adr);
  }

  lemma FrontPrefix(elems: Elements, rest: seq<nat>, id: nat)
    requires id in elems && (Dirty(elems) == {} || (elems[id].changed && PrefixOf(rest, Dirty(elems))))
    ensures PrefixOf(InsertAt(rest, 0, id), Dirty(elems))
  {
  }

  lemma PrefixAll(elems: Elements, lru: seq<nat>, elems': Elements, lru': seq<nat>)
    requires PrefixOf(lru, Dirty(elems)) && KeepsPrefixes(elems, lru, elems', lru')
    ensures PrefixOf(lru', Dirty(elems'))
  {
    assert lru[0..] == lru && lru'[0..] == lru';
  }

  lemma TailPrefix(elems0: Elements, lru0: seq<nat>, elems: Elements, lru: seq<nat>, elems': Elements, k: nat, id: nat)
    requires KeepsPrefixes(elems0, lru0, elems, lru) && k <= |lru| && k <= |lru0| && id !in elems
    requires id in elems' && elems' == elems[id := Fresh(elems'[id].adr)]
    ensures PrefixOf(lru0[k..], Dirty(elems0)) ==> PrefixOf(lru[k..], Dirty(elems'))
  {
    assert Dirty(elems') == Dirty(elems);
  }

  lemma StoredClean(elems: Elements, table: seq<seq<nat>>, t: seq<seq<nat>>, bits: nat, id: nat, adr: nat,
                    linked: bool, ids: set<nat>)
    requires Stored1(elems, table, t, bits, id, adr, linked) && id !in elems
    ensures Stored1(Cleaned(elems, ids), table, t, bits, id, adr, linked)
  {
    hide AdrHash, Chained;
    var elems' := Cleaned(elems, ids);
    CleanedLinks(elems, table, bits, ids);
    CleanedLinks(elems[id := Fresh(adr)], t, bits, ids - {id});
    assert Cleaned(elems[id := Fresh(adr)], ids - {id}) == elems'[id := Fresh(adr)];
  }

  ghost predicate SameOrWritten(e: Element, e': Element) {
    e' == e || e' == e.(changed := false, data := NoData)
  }

  /** cache_elem_new: nothing read yet. */
  function Fresh(adr: nat): Element {
    Element(adr, false, NoData, Bucket([], 0, 0, []))
  }

  /** Wherever the changed elements came first from position `k` on, they still do. */
  ghost predicate KeepsPrefixes(elems: Elements, lru: seq<nat>, elems': Elements, lru': seq<nat>) {
    forall k :: 0 <= k <= |lru| && k <= |lru'| && PrefixOf(lru[k..], Dirty(elems)) ==>
          PrefixOf(lru'[k..], Dirty(elems'))
  }

  /** A flush writes the changed elements at the head of the list and stops. */
  lemma FlushKeepsPrefixes(elems: Elements, lru: seq<nat>, n: nat, written: set<nat>)
    requires Listed(elems, lru) && n <= |lru| && (n == |lru| || !elems[lru[n]].changed)
    requires written == set i | 0 <= i < n :: lru[i]
    ensures KeepsPrefixes(elems, lru, Cleaned(elems, written), lru)
  {
    var elems' := Cleaned(elems, written);
    forall k | 0 <= k <= |lru| && PrefixOf(lru[k..], Dirty(elems))
      ensures PrefixOf(lru[k..], Dirty(elems'))
    {
      if n < k {
        forall j | 0 <= j < |lru[k..]|
          ensures lru[k..][j] in Dirty(elems') <==> lru[k..][j] in Dirty(elems)
        {
          assert lru[k + j] in lru;
        }
      } else {
        forall j | 0 <= j < |lru[k..]|
          ensures lru[k..][j] !in Dirty(elems')
        {
          assert lru[k + j] in lru;
          if n <= k + j {
            assert lru[k..][n - k] == lru[n] && lru[n] in lru;
          }
        }
      }
    }
  }

  lemma KeepsPrefixesTrans(a: Elements, l: seq<nat>, b: Elements, m: seq<nat>, c: Elements, n: seq<nat>)
    requires KeepsPrefixes(a, l, b, m) && KeepsPrefixes(b, m, c, n) && |n| <= |m|
    ensures KeepsPrefixes(a, l, c, n)
  {
  }

  /** Cutting the list short. */
  lemma CutKeepsPrefixes(elems: Elements, lru: seq<nat>, elems': Elements, n: nat)
    requires n <= |lru| && forall id :: id in lru[..n] ==>
              id in elems && id in elems' && elems'[id].changed == elems[id].changed
    ensures KeepsPrefixes(elems, lru, elems', lru[..n])
  {
    forall k | 0 <= k <= n && PrefixOf(lru[k..], Dirty(elems))
      ensures PrefixOf(lru[..n][k..], Dirty(elems'))
    {
      forall i, j | 0 <= i < j < n - k && lru[..n][k..][j] in Dirty(elems')
        ensures lru[..n][k..][i] in Dirty(elems')
      {
        assert lru[..n][k + j] in lru[..n] && lru[..n][k + i] in lru[..n];
        assert lru[k..][j] == lru[..n][k..][j] && lru[k..][i] == lru[..n][k..][i];
      }
    }
  }

  /** Storing element `id` for `adr` turned `table` into `t`; it is linked just when `linked`,
      and nothing else becomes linked. */
  ghost predicate Stored1(elems: Elements, table: seq<seq<nat>>, t: seq<seq<nat>>, bits: nat, id: nat, adr: nat,
                          linked: bool) {
    && Chained(elems[id := Fresh(adr)], t, bits)
    && (Linked(elems[id := Fresh(adr)], t, bits, id) <==> linked)
    && (linked && AllLinked(elems, table, bits) && (forall x :: x in elems ==> elems[x].adr != adr) ==>
          AllLinked(elems[id := Fresh(adr)], t, bits))
    && (forall x :: x in elems && Linked(elems[id := Fresh(adr)], t, bits, x) ==>
          Linked(elems, table, bits, x) && elems[x].adr != adr)
  }

  lemma StoreDirectly(elems: Elements, table: seq<seq<nat>>, bits: nat, id: nat, adr: nat, p: nat)
    requires Chained(elems, table, bits) && id !in elems && Passed(elems, table[AdrHash(adr, bits)], p, adr)
    requires p == |table[AdrHash(adr, bits)]| || InTable(elems, table, bits, adr)
    ensures var h := AdrHash(adr, bits);
            Stored1(elems, table, SetLink(table, LinkTo(table, h, p), id), bits, id, adr, true)
  {
    hide AdrHash, SetLink, LinkTo, Chained, Linked;
    ChainedStore(elems, table, bits, id, Fresh(adr), p);
  }

  lemma EvictThenStore(elems: Elements, table: seq<seq<nat>>, bits: nat, victim: nat, id: nat, adr: nat)
    requires Chained(elems, table, bits) && victim in elems && id !in elems && !InTable(elems, table, bits, adr)
    ensures var h := AdrHash(adr, bits);
            var t := Unchained(elems, table, bits, victim);
            Stored1(elems - {victim}, t, SetLink(t, Vacant(table, h), id), bits, id, adr,
                Vacant(table, h) != After(h, victim))
  {
    LookupFresh(elems, table, bits, adr);
    ChainedRemove(elems, table, bits, victim);
    hide AdrHash, SetLink, Vacant, Chained, Linked, Unchained;
    StoredAfterEviction(elems, table, bits, victim, id, Fresh(adr));
  }

  lemma SameDuplicates(elems0: Elements, lru0: seq<nat>, elems: Elements, lru: seq<nat>, n: nat)
    requires (forall id :: id in lru0 ==> id in elems0) && (forall id :: id in lru ==> id in elems)
    requires |lru| <= |lru0| && lru == lru0[..|lru|]
    requires forall id :: id in elems ==> id in elems0 && elems[id].adr == elems0[id].adr
    requires n <= |lru|
    ensures Duplicates(elems, lru, n) == Duplicates(elems0, lru0, n)
  {
    assert forall p :: 0 <= p < |lru| ==> lru[p] == lru0[p] && lru[p] in lru;
  }

  /** After a flush, everything the resize may drop is clean. */
  lemma SurplusClean(elems0: Elements, lru: seq<nat>, elems: Elements, n: nat, written: set<nat>, keep: nat)
    requires (forall id :: id in lru ==> id in elems0) && n <= |lru| && keep <= |lru|
    requires n == |lru| || !elems0[lru[n]].changed
    requires written == (set i | 0 <= i < n :: lru[i]) && elems == Cleaned(elems0, written)
    requires keep == |lru| || PrefixOf(lru, Dirty(elems0))
    ensures forall i :: keep <= i < |lru| ==> !elems[lru[i]].changed
  {
    forall i | keep <= i < |lru|
      ensures !elems[lru[i]].changed
    {
      assert lru[i] in lru;
      if i < n {
        assert lru[i] in written;
      } else {
        assert lru[n] in lru && lru[n] !in Dirty(elems0);
      }
    }
  }

  /** Forgetting the old table. */
  lemma Uncabled(elems: Elements, lru: seq<nat>, table: seq<seq<nat>>, bits: nat, newBits: nat,
                 buckets: map<nat, Bucket>, raw: set<nat>)
    requires Listed(elems, lru) && Current(elems, lru, table, bits, buckets, raw) && newBits <= HASH_BITS + 1
    ensures Current(elems, lru, EmptyTable(newBits), newBits, buckets, raw)
  {
    NothingLinked(elems, lru, newBits);
    hide AdrHash, IndexOf, Linked, Leading;
  }

  lemma DropLast(f: seq<Cell>, elems: Elements, lru: seq<nat>, bits: nat, buckets: map<nat, Bucket>, open: set<nat>,
                 raw: set<nat>, size: nat)
    requires Listed(elems, lru) && |lru| > 0 && bits <= HASH_BITS + 1 && !elems[lru[|lru| - 1]].changed
    requires Current(elems, lru, EmptyTable(bits), bits, buckets, raw) && Stored(f, elems, buckets, open, size)
    ensures var id := lru[|lru| - 1];
            && Minus(lru, id) == lru[..|lru| - 1] && Listed(elems - {id}, Minus(lru, id))
            && Current(elems - {id}, Minus(lru, id), EmptyTable(bits), bits, buckets, raw)
            && Stored(f, elems - {id}, buckets, open, size)
            && Unchained(elems, EmptyTable(bits), bits, id) == EmptyTable(bits)
  {
    var id := lru[|lru| - 1];
    IndexUnique(lru, |lru| - 1);
    MinusLast(lru);
    MinusUnlinks(lru, id);
    NothingLinked(elems, lru, bits);
    NothingLinked(elems - {id}, Minus(lru, id), bits);
    hide Current, Stored, Linked, IndexOf, Unlinked;
    EvictedLast(f, elems, lru, EmptyTable(bits), bits, buckets, open, raw, size, id, Minus(lru, id), EmptyTable(bits));
    assert Unchained(elems, EmptyTable(bits), bits, id) == EmptyTable(bits);
  }

  lemma SameAddress(elems: Elements, lru: seq<nat>, table: seq<seq<nat>>, bits: nat, i: nat, other: nat)
    requires Listed(elems, lru) && i < |lru| && Rehashed(elems, lru, table, bits, i + 1)
    requires Linked(elems, table, bits, other) && elems[other].adr == elems[lru[i]].adr
    ensures Duplicates(elems, lru, |lru|)
  {
    hide AdrHash;
    assert lru[IndexOf(lru, other)] == other;
  }

  lemma LookupFresh(elems: Elements, table: seq<seq<nat>>, bits: nat, adr: nat)
    requires Chained(elems, table, bits) && !InTable(elems, table, bits, adr)
    ensures forall x :: x in elems && elems[x].adr == adr ==> !Linked(elems, table, bits, x)
  {
    hide AdrHash;
  }

  /** Two elements among the first `n` of the list have the same address. */
  ghost predicate Duplicates(elems: Elements, lru: seq<nat>, n: nat)
    requires n <= |lru| && forall id :: id in lru ==> id in elems
  {
    exists p, q :: 0 <= p < q < n && elems[lru[p]].adr == elems[lru[q]].adr
  }

  ghost function Keep(n: nat, bits: nat): (k: nat)
    ensures k <= n && k <= Pow2(bits)
  {
    if n <= Pow2(bits) then n else Pow2(bits)
  }

  /** The part of the list the rehash has reached is what the new table leads to. */
  ghost predicate Rehashed(elems: Elements, lru: seq<nat>, table: seq<seq<nat>>, bits: nat, i: nat)
    requires Listed(elems, lru)
  {
    forall id :: id in elems ==> (Linked(elems, table, bits, id) <==> i <= IndexOf(lru, id))
  }

  lemma NothingLinked(elems: Elements, lru: seq<nat>, bits: nat)
    requires Listed(elems, lru) && bits <= HASH_BITS + 1
    ensures Chained(elems, EmptyTable(bits), bits) && Rehashed(elems, lru, EmptyTable(bits), bits, |lru|)
    ensures forall id :: !Linked(elems, EmptyTable(bits), bits, id)
  {
    hide AdrHash, IndexOf;
  }

  lemma Relink(elems: Elements, lru: seq<nat>, table: seq<seq<nat>>, bits: nat, i: nat)
    requires Listed(elems, lru) && Chained(elems, table, bits) && i < |lru| && Rehashed(elems, lru, table, bits, i + 1)
    requires !InTable(elems, table, bits, elems[lru[i]].adr)
    ensures var h := AdrHash(elems[lru[i]].adr, bits);
            var t := SetLink(table, Vacant(table, h), lru[i]);
            Chained(elems, t, bits) && Rehashed(elems, lru, t, bits, i)
  {
    var id := lru[i];
    var rest := elems - {id};
    IndexUnique(lru, i);
    hide AdrHash, IndexOf, SetLink, Vacant;
    UnlinkedAway(elems, table, bits, id);
    var h := AdrHash(elems[id].adr, bits);
    assert Passed(rest, table[h], |table[h]|, elems[id].adr);
    ChainedStore(rest, table, bits, id, elems[id], |table[h]|);
    assert rest[id := elems[id]] == elems;
  }

  lemma UnlinkedAway(elems: Elements, table: seq<seq<nat>>, bits: nat, id: nat)
    requires Chained(elems, table, bits) && id in elems && !Linked(elems, table, bits, id)
    requires !InTable(elems, table, bits, elems[id].adr)
    ensures Chained(elems - {id}, table, bits) && !InTable(elems - {id}, table, bits, elems[id].adr)
    ensures forall x :: x in elems && x != id ==>
              (Linked(elems - {id}, table, bits, x) <==> Linked(elems, table, bits, x))
  {
    hide AdrHash;
    forall h, i | 0 <= h < |table| && 0 <= i < |table[h]|
      ensures table[h][i] != id
    {
      assert table[h][i] in table[h];
    }
  }

  /** The rehash is complete: addresses are distinct, so every element leads. */
  lemma AllRehashed(elems: Elements, lru: seq<nat>, table: seq<seq<nat>>, bits: nat, buckets: map<nat, Bucket>,
                    raw: set<nat>)
    requires Listed(elems, lru) && Chained(elems, table, bits) && Rehashed(elems, lru, table, bits, 0)
    requires Current(elems, lru, EmptyTable(bits), bits, buckets, raw)
    ensures AllLinked(elems, table, bits) && Current(elems, lru, table, bits, buckets, raw)
  {
    hide AdrHash, IndexOf, Linked, Chained;
    forall a, b | a in elems && b in elems && elems[a].adr == elems[b].adr
      ensures a == b
    {
      LinkedUnique(elems, table, bits, a, b);
    }
  }

  lemma NoDuplicates(elems: Elements, lru: seq<nat>, table: seq<seq<nat>>, bits: nat)
    requires Listed(elems, lru) && Chained(elems, table, bits) && AllLinked(elems, table, bits)
    ensures forall p, q :: 0 <= p < q < |lru| ==> elems[lru[p]].adr != elems[lru[q]].adr
    ensures forall n :: 0 <= n <= |lru| ==> !Duplicates(elems, lru, n)
  {
    hide AdrHash, Linked, Chained;
    forall p, q | 0 <= p < q < |lru|
      ensures elems[lru[p]].adr != elems[lru[q]].adr
    {
      assert lru[p] in lru && lru[q] in lru;
      if elems[lru[p]].adr == elems[lru[q]].adr {
        LinkedUnique(elems, table, bits, lru[p], lru[q]);
      }
    }
  }

  lemma MinusLast(s: seq<nat>)
    requires Distinct(s) && |s| > 0
    ensures Minus(s, s[|s| - 1]) == s[..|s| - 1]
  {
    IndexUnique(s, |s| - 1);
  }

  lemma LinksRemain(elems: Elements, table: seq<seq<nat>>, bits: nat, id: nat)
    requires Chained(elems, table, bits) && id in elems && AllLinked(elems, table, bits)
    ensures AllLinked(elems - {id}, Unchained(elems, table, bits, id), bits)
  {
    ChainedRemove(elems, table, bits, id);
  }

  lemma TableSize(elems: Elements, table: seq<seq<nat>>, bits: nat)
    requires Chained(elems, table, bits)
    ensures bits <= HASH_BITS + 1 && |table| == Pow2(bits)
  {
  }

  lemma CleanedLinks(elems: Elements, table: seq<seq<nat>>, bits: nat, ids: set<nat>)
    ensures AllLinked(Cleaned(elems, ids), table, bits) == AllLinked(elems, table, bits)
    ensures Chained(elems, table, bits) ==> Chained(Cleaned(elems, ids), table, bits)
    ensures forall id :: id in elems ==> Linked(Cleaned(elems, ids), table, bits, id) == Linked(elems, table, bits, id)
  {
    hide AdrHash;
    forall id | id in elems
      ensures Linked(Cleaned(elems, ids), table, bits, id) == Linked(elems, table, bits, id)
    {
    }
  }

  lemma CleanedNone(elems: Elements)
    ensures Cleaned(elems, {}) == elems
  {
  }

  lemma CleanedTwice(elems: Elements, done: set<nat>, id: nat)
    ensures Cleaned(Cleaned(elems, done), {id}) == Cleaned(elems, done + {id})
  {
  }

  lemma OnlyBucketsRefl(own: seq<Owner>, f: seq<Cell>)
    ensures OnlyBuckets(own, f, f)
  {
  }

  lemma OnlyBucketsTrans(own: seq<Owner>, f: seq<Cell>, g: seq<Cell>, h: seq<Cell>)
    requires OnlyBuckets(own, f, g) && OnlyBuckets(own, g, h)
    ensures OnlyBuckets(own, f, h)
  {
  }

  /** Elements with different addresses are no more than the addresses there are. */
  lemma {:induction false} AddressCount(elems: Elements, s: seq<nat>, pool: set<nat>)
    requires forall i :: 0 <= i < |s| ==> s[i] in elems && elems[s[i]].adr in pool
    requires forall i, j :: 0 <= i < j < |s| ==> elems[s[i]].adr != elems[s[j]].adr
    ensures |s| <= |pool|
    decreases |s|
  {
    if |s| > 0 {
      var n := |s| - 1;
      AddressCount(elems, s[..n], pool - {elems[s[n]].adr});
    }
  }

  /** While nothing is cut off, a cache holds no more elements than there are buckets, and fewer
      if some bucket is not in it. */
  lemma FewElements(elems: Elements, lru: seq<nat>, table: seq<seq<nat>>, bits: nat, buckets: map<nat, Bucket>,
                    adr: nat)
    requires Listed(elems, lru) && Chained(elems, table, bits) && AllLinked(elems, table, bits)
    requires forall id :: id in elems ==> elems[id].adr in buckets
    ensures |lru| <= |buckets|
    ensures adr in buckets && !InTable(elems, table, bits, adr) ==> |lru| < |buckets|
  {
    hide Chained, Linked, InTable, AdrHash;
    forall i, j | 0 <= i < j < |lru|
      ensures lru[i] in elems && lru[j] in elems && elems[lru[i]].adr != elems[lru[j]].adr
    {
      assert lru[i] in lru && lru[j] in lru;
      if elems[lru[i]].adr == elems[lru[j]].adr {
        LinkedUnique(elems, table, bits, lru[i], lru[j]);
      }
    }
    AddressCount(elems, lru, buckets.Keys);
    TableSize(elems, table, bits);
    if adr in buckets && !InTable(elems, table, bits, adr) {
      AbsentAddress(elems, table, bits, adr);
      AddressCount(elems, lru, buckets.Keys - {adr});
    }
  }

  class BucketCache {
    const space: FileSpace
    const bucketSize: nat
    const auto: bool
    var bits: nat
    var table: seq<seq<nat>>
    var lru: seq<nat>
    var elems: Elements
    var nextId: nat

    ghost var buckets: map<nat, Bucket>   // what every live bucket holds at this moment
    ghost var orphaned: bool              // some element was once stored through a dead link
    ghost var relinked: bool              // and the table was rebuilt after that

    /** cache_tab_resize on a cache that does not exist yet. */
    constructor (space: FileSpace, bucketSize: nat, auto: bool, bits: nat)
      requires 2 <= bits <= HASH_BITS + 1 && bucketSize > 0
      ensures this.space == space && this.bucketSize == bucketSize && this.auto == auto && this.bits == bits
      ensures Shaped() && elems == map[] && lru == [] && buckets == map[] && !orphaned && !relinked
    {
      this.space, this.bucketSize, this.auto, this.bits := space, bucketSize, auto, bits;
      table, lru, elems, nextId := EmptyTable(bits), [], map[], 0;
      buckets, orphaned, relinked := map[], false, false;
    }

    ghost predicate Shaped()
      reads this
    {
      Wf(elems, lru, table, bits) && forall id :: id in elems ==> id < nextId
    }

    /** Cache, disk and live buckets agree, but for the buckets in `open` (being changed) and
        the elements in `raw` (not filled in yet). */
    ghost predicate Coherent(open: set<nat>, raw: set<nat>)
      requires Listed(elems, lru)
      reads this, space`owner, space`file
    {
      && bucketSize > 0 && Allotted(space.owner, buckets, bucketSize)
      && Current(elems, lru, table, bits, buckets, raw)
      && Stored(space.file, elems, buckets, open, bucketSize)
      && (!orphaned ==> AllLinked(elems, table, bits) && forall id :: id in elems && id !in raw ==>
            elems[id].adr in buckets)
      && (!relinked ==> LinkedLive(elems, table, bits, buckets, raw))
    }

    /** _gdbm_write_bucket */
    method WriteBucket(id: nat, ghost open: set<nat>, ghost raw: set<nat>)
      requires Listed(elems, lru) && Coherent(open, raw) && id in elems && elems[id].changed
      modifies this`elems, space`file
      ensures elems == Cleaned(old(elems), {id})
      ensures Listed(elems, lru) && Coherent(open, raw)
      ensures old(Chained(elems, table, bits)) ==> Chained(elems, table, bits)
      ensures OnlyBuckets(space.owner, old(space.file), space.file)
    {
      hide Current, Stored, Allotted, Linked, Leading, OnlyBuckets, Listed, Chained, AllLinked;
      WroteBucket(space.file, space.owner, elems, lru, table, bits, buckets, open, raw, bucketSize, id);
      CleanedLinks(elems, table, bits, {id});
      space.file := Write(space.file, elems[id].adr, ImageCells(BucketImage(elems[id].bucket), bucketSize));
      elems := elems[id := elems[id].(changed := false, data := NoData)];
      assert elems == Cleaned(old(elems), {id});
    }

    /** _gdbm_cache_flush over `list`: stops at the first clean element. */
    method Flush(list: seq<nat>, ghost open: set<nat>, ghost raw: set<nat>) returns (n: nat)
      requires Listed(elems, lru) && Coherent(open, raw) && Distinct(list) && forall id :: id in list ==> id in elems
      modifies this`elems, space`file
      ensures n <= |list| && (forall i :: 0 <= i < n ==> old(elems)[list[i]].changed)
      ensures n == |list| || !old(elems)[list[n]].changed
      ensures elems == Cleaned(old(elems), set i | 0 <= i < n :: list[i])
      ensures Listed(elems, lru) && Coherent(open, raw)
      ensures old(Chained(elems, table, bits)) ==> Chained(elems, table, bits)
      ensures OnlyBuckets(space.owner, old(space.file), space.file)
    {
      hide Current, Stored, Allotted, Linked, Leading, OnlyBuckets, Listed, AllLinked, Chained;
      OnlyBucketsRefl(space.owner, space.file);
      n := 0;
      ghost var done: set<nat> := {};
      CleanedNone(elems);
      while n < |list| && elems[list[n]].changed
        invariant n <= |list| && (forall i :: 0 <= i < n ==> old(elems)[list[i]].changed)
        invariant done == (set i | 0 <= i < n :: list[i])
        invariant elems == Cleaned(old(elems), done)
        invariant Listed(elems, lru) && Coherent(open, raw)
        invariant old(Chained(elems, table, bits)) ==> Chained(elems, table, bits)
        invariant OnlyBuckets(space.owner, old(space.file), space.file)
      {
        ghost var file1 := space.file;
        assert list[n] !in done;
        CleanedTwice(old(elems), done, list[n]);
        WriteBucket(list[n], open, raw);
        OnlyBucketsTrans(space.owner, old(space.file), file1, space.file);
        done := done + {list[n]};
        n := n + 1;
      }
      assert n < |list| ==> list[n] !in done;
    }

    /** cache_elem_free: off the list and off its chain. */
    method ElemFree(id: nat)
      requires Listed(elems, lru) && Chained(elems, table, bits) && id in elems
      modifies this`elems, this`lru, this`table
      ensures elems == old(elems) - {id} && lru == Minus(old(lru), id)
      ensures table == Unchained(old(elems), old(table), bits, id)
      ensures Listed(elems, lru) && Chained(elems, table, bits) && |lru| == |old(lru)| - 1
    {
      hide Chained;
      TableSize(elems, table, bits);
      ChainedRemove(elems, table, bits, id);
      MinusDistinct(lru, id);
      var h := AdrHash(elems[id].adr, bits);
      lru := Minus(lru, id);
      table := table[h := Minus(table[h], id)];
      elems := elems - {id};
    }

    /** cache_lru_free */
    method LruFree(ghost open: set<nat>, ghost raw: set<nat>)
      requires Shaped() && Coherent(open, raw) && |lru| > 0
      modifies this`elems, this`lru, this`table, space`file
      ensures Shaped() && Coherent(open, raw)
      ensures var victim := old(lru)[|old(lru)| - 1];
              && lru == old(lru)[..|old(lru)| - 1] && elems == old(elems) - {victim}
              && table == Unchained(old(elems), old(table), bits, victim)
      ensures KeepsPrefixes(old(elems), old(lru), elems, lru)
      ensures OnlyBuckets(space.owner, old(space.file), space.file)
    {
      hide Current, Stored, Allotted, Linked, AllLinked, Leading, OnlyBuckets, Chained, IndexOf, AdrHash, Minus,
           Unlinked, KeepsPrefixes, PrefixOf, Dirty, Distinct, Pow2;
      TableSize(elems, table, bits);
      var last := lru[|lru| - 1];
      OnlyBucketsRefl(space.owner, space.file);
      if elems[last].changed {
        WriteBucket(last, open, raw);
      }
      IndexUnique(lru, |lru| - 1);
      ChainedRemove(elems, table, bits, last);
      MinusUnlinks(lru, last);
      MinusLast(lru);
      EvictedLast(space.file, elems, lru, table, bits, buckets, open, raw, bucketSize, last,
                  Minus(lru, last), Unchained(elems, table, bits, last));
      if !orphaned {
        LinksRemain(elems, table, bits, last);
      }
      ElemFree(last);
      assert forall id :: id in lru ==> id in elems;
      CutKeepsPrefixes(old(elems), old(lru), elems, |lru|);
    }

    /** cache_tab_resize: flush, drop the surplus from the old end of the list, rehash the rest.
        The C library aborts the process when two elements claim one address. */
    method TabResize(newBits: nat, ghost open: set<nat>, ghost raw: set<nat>) returns (aborted: bool,
        ghost written: set<nat>)
      requires Shaped() && Coherent(open, raw) && 2 <= newBits <= HASH_BITS + 1 && newBits != bits
      requires |lru| <= Pow2(newBits) || PrefixOf(lru, Dirty(elems))
      modifies this`elems, this`lru, this`table, this`bits, this`relinked, space`file
      ensures relinked == (old(relinked) || orphaned)
      ensures OnlyBuckets(space.owner, old(space.file), space.file)
      ensures aborted <==> Duplicates(old(elems), old(lru), Keep(|old(lru)|, newBits))
      ensures !old(orphaned) ==> !aborted
      ensures !aborted ==> Shaped() && Coherent(open, raw) && AllLinked(elems, table, bits)
      ensures !aborted ==> bits == newBits && lru == old(lru)[..Keep(|old(lru)|, newBits)]
      ensures !aborted ==> forall id :: id in elems ==>
                id in old(elems) && elems[id] == Cleaned(old(elems), written)[id]
      ensures !aborted ==> KeepsPrefixes(old(elems), old(lru), elems, lru)
    {
      hide Current, Stored, Allotted, Linked, AllLinked, Leading, OnlyBuckets, Chained, IndexOf, AdrHash, PrefixOf,
           Dirty, Distinct, Duplicates, KeepsPrefixes, Pow2, LinkedLive;
      if !orphaned {
        NoDuplicates(elems, lru, table, bits);
      }
      written := Reallocate(newBits, open, raw);
      ghost var elems1 := elems;
      SameDuplicates(old(elems), lru, elems, lru, Keep(|lru|, newBits));
      aborted := Rehash(open, raw);
      relinked := relinked || orphaned;
      if !aborted {
        ResizeKeepsPrefixes(old(elems), old(lru), elems1, elems, |lru|);
        LiveLinked(elems, table, bits, buckets, raw);
      }
    }

    /** The first half of cache_tab_resize: flush, and start with an empty table. */
    method Reallocate(newBits: nat, ghost open: set<nat>, ghost raw: set<nat>) returns (ghost written: set<nat>)
      requires Listed(elems, lru) && Coherent(open, raw) && newBits <= HASH_BITS + 1
      requires |lru| <= Pow2(newBits) || PrefixOf(lru, Dirty(elems))
      modifies this`elems, this`table, this`bits, space`file
      ensures bits == newBits && table == EmptyTable(bits) && elems == Cleaned(old(elems), written)
      ensures Listed(elems, lru) && Current(elems, lru, table, bits, buckets, raw)
      ensures Stored(space.file, elems, buckets, open, bucketSize)
      ensures forall i :: Keep(|lru|, bits) <= i < |lru| ==> !elems[lru[i]].changed
      ensures KeepsPrefixes(old(elems), lru, elems, lru)
      ensures OnlyBuckets(space.owner, old(space.file), space.file)
    {
      hide Current, Stored, Allotted, Linked, AllLinked, Leading, OnlyBuckets, Chained, IndexOf, AdrHash, PrefixOf,
           Dirty, KeepsPrefixes;
      var n := Flush(lru, open, raw);
      written := set i | 0 <= i < n :: lru[i];
      SurplusClean(old(elems), lru, elems, n, written, Keep(|lru|, newBits));
      FlushKeepsPrefixes(old(elems), lru, n, written);
      Uncabled(elems, lru, table, bits, newBits, buckets, raw);
      bits := newBits;
      table := EmptyTable(bits);
    }

    /** The loop of cache_tab_resize, from the least recently used element to the most. */
    method Rehash(ghost open: set<nat>, ghost raw: set<nat>) returns (aborted: bool)
      requires Listed(elems, lru) && bits <= HASH_BITS + 1 && table == EmptyTable(bits)
      requires Current(elems, lru, table, bits, buckets, raw) && Stored(space.file, elems, buckets, open, bucketSize)
      requires forall i :: Keep(|lru|, bits) <= i < |lru| ==> !elems[lru[i]].changed
      modifies this`elems, this`lru, this`table
      ensures aborted <==> Duplicates(old(elems), old(lru), Keep(|old(lru)|, bits))
      ensures !aborted ==> Listed(elems, lru) && Chained(elems, table, bits) && AllLinked(elems, table, bits)
      ensures !aborted ==> Current(elems, lru, table, bits, buckets, raw)
      ensures !aborted ==> Stored(space.file, elems, buckets, open, bucketSize)
      ensures !aborted ==> lru == old(lru)[..Keep(|old(lru)|, bits)]
      ensures !aborted ==> forall id :: id in elems ==> id in old(elems) && elems[id] == old(elems)[id]
    {
      hide Current, Stored, Linked, AllLinked, Leading, Chained, IndexOf, AdrHash;
      ghost var elems1, lru1 := elems, lru;
      DropSurplus(open, raw);
      SameDuplicates(elems1, lru1, elems, lru, |lru|);
      aborted := RelinkAll(raw);
    }

    /** The iterations of the loop that find more elements than the table has room for. */
    method DropSurplus(ghost open: set<nat>, ghost raw: set<nat>)
      requires Listed(elems, lru) && bits <= HASH_BITS + 1 && table == EmptyTable(bits)
      requires Current(elems, lru, table, bits, buckets, raw) && Stored(space.file, elems, buckets, open, bucketSize)
      requires forall i :: Keep(|lru|, bits) <= i < |lru| ==> !elems[lru[i]].changed
      modifies this`elems, this`lru, this`table
      ensures Listed(elems, lru) && table == EmptyTable(bits)
      ensures Current(elems, lru, table, bits, buckets, raw) && Stored(space.file, elems, buckets, open, bucketSize)
      ensures lru == old(lru)[..Keep(|old(lru)|, bits)]
      ensures forall id :: id in elems ==> id in old(elems) && elems[id] == old(elems)[id]
    {
      hide Current, Stored, Linked, AllLinked, Leading, Chained, IndexOf, AdrHash, Unlinked, Unchained;
      ghost var elems1, lru1 := elems, lru;
      while Pow2(bits) < |lru|
        invariant Keep(|lru1|, bits) <= |lru| <= |lru1| && lru == lru1[..|lru|]
        invariant table == EmptyTable(bits) && Listed(elems, lru)
        invariant Current(elems, lru, table, bits, buckets, raw)
        invariant Stored(space.file, elems, buckets, open, bucketSize)
        invariant forall id :: id in elems ==> id in elems1 && elems[id] == elems1[id]
      {
        NothingLinked(elems, lru, bits);
        DropLast(space.file, elems, lru, bits, buckets, open, raw, bucketSize);
        ElemFree(lru[|lru| - 1]);
      }
    }

    /** The other iterations: each element is stored in the new table. */
    method RelinkAll(ghost raw: set<nat>) returns (aborted: bool)
      requires Listed(elems, lru) && bits <= HASH_BITS + 1 && table == EmptyTable(bits)
      requires Current(elems, lru, table, bits, buckets, raw)
      modifies this`table
      ensures aborted <==> Duplicates(elems, lru, |lru|)
      ensures !aborted ==> Chained(elems, table, bits) && AllLinked(elems, table, bits)
      ensures !aborted ==> Current(elems, lru, table, bits, buckets, raw)
    {
      hide Current, Linked, AllLinked, Leading, Chained, IndexOf, AdrHash, SetLink, Rehashed;
      NothingLinked(elems, lru, bits);
      var i: nat := |lru|;
      while i > 0
        invariant i <= |lru| && Chained(elems, table, bits) && Rehashed(elems, lru, table, bits, i)
      {
        i := i - 1;
        var found, link, p := LookupSlot(elems, table, bits, elems[lru[i]].adr);
        if found.Some? {
          SameAddress(elems, lru, table, bits, i, found.value);
          return true;
        }
        Relink(elems, lru, table, bits, i);
        TableSize(elems, table, bits);
        table := SetLink(table, link, lru[i]);
      }
      AllRehashed(elems, lru, table, bits, buckets, raw);
      NoDuplicates(elems, lru, table, bits);
      aborted := false;
    }

    /** A new element is about to be stored through a link that eviction will have freed. */
    ghost predicate StaleLink(adr: nat, dirBits: nat)
      requires Shaped()
      reads this
    {
      && |lru| == Pow2(bits) && |lru| > 0 && !(auto && bits < dirBits)
      && Vacant(table, AdrHash(adr, bits)) == After(AdrHash(adr, bits), lru[|lru| - 1])
    }

    /** The table has room for more than `n` elements, or will be given it. */
    predicate Roomy(n: int, dirBits: nat)
      reads this
    {
      n < Pow2(bits) || (auto && n < Pow2(dirBits))
    }

    /** With room for every bucket nothing is evicted, and no link goes stale. */
    lemma NoStaleLink(adr: nat, dirBits: nat, open: set<nat>)
      requires Shaped() && Coherent(open, {}) && !orphaned && !InTable(elems, table, bits, adr)
      requires Roomy(if adr in buckets then |buckets| - 1 else |buckets|, dirBits)
      ensures !StaleLink(adr, dirBits)
    {
      hide Current, Stored, Allotted, Linked, AllLinked, Leading, Chained, AdrHash, LinkedLive, Vacant, Pow2, InTable;
      FewElements(elems, lru, table, bits, buckets, adr);
      if dirBits <= bits {
        Pow2Monotonic(dirBits, bits);
      }
    }

    /** The middle of cache_lookup: make room by growing the table or by evicting, then store
        the new element through the link found at the start (found again only after growing). */
    method StoreNew(adr: nat, id: nat, dirBits: nat, ghost open: set<nat>, ghost raw: set<nat>)
      returns (aborted: bool, newTable: seq<seq<nat>>)
      requires Shaped() && Coherent(open, raw) && dirBits <= HASH_BITS && id >= nextId
      requires !InTable(elems, table, bits, adr)
      modifies this`elems, this`lru, this`table, this`bits, this`relinked, space`file
      ensures relinked ==> old(relinked) || (auto && orphaned)
      ensures OnlyBuckets(space.owner, old(space.file), space.file)
      ensures aborted ==> auto && orphaned
      ensures !aborted ==> Shaped() && Coherent(open, raw) && |lru| < Pow2(bits) && bits >= old(bits)
      ensures !aborted ==> Stored1(elems, table, newTable, bits, id, adr, !old(StaleLink(adr, dirBits)))
      ensures !aborted ==> lru <= old(lru) && |lru| >= |old(lru)| - 1 && KeepsPrefixes(old(elems), old(lru), elems, lru)
      ensures !aborted && lru != old(lru) ==> |old(lru)| == Pow2(old(bits))
      ensures !aborted ==> forall x :: x in elems ==> x in old(elems) && SameOrWritten(old(elems)[x], elems[x])
    {
      hide Current, Stored, Allotted, Linked, AllLinked, Leading, OnlyBuckets, Chained, IndexOf, AdrHash, Unchained,
           Distinct, SetLink, KeepsPrefixes, InTable, Stored1, Pow2;
      OnlyBucketsRefl(space.owner, space.file);
      aborted := false;
      var found, link, p := LookupSlot(elems, table, bits, adr);
      TableSize(elems, table, bits);
      if |lru| == Pow2(bits) {
        if auto && bits < dirBits {
          ghost var written;
          Pow2Successor(bits);
          aborted, written := TabResize(bits + 1, open, raw);
          if aborted {
            return true, [];
          }
          TableSize(elems, table, bits);
          found, link, p := LookupSlot(elems, table, bits, adr);
          StoreDirectly(elems, table, bits, id, adr, p);
        } else {
          EvictThenStore(elems, table, bits, lru[|lru| - 1], id, adr);
          LruFree(open, raw);
        }
      } else {
        CutKeepsPrefixes(elems, lru, elems, |lru|);
        assert lru[..|lru|] == lru;
        StoreDirectly(elems, table, bits, id, adr, p);
      }
      TableSize(elems, table, bits);
      newTable := SetLink(table, link, id);
    }

    /** cache_lookup for the bucket that is to become current (no reference element). */
    method Acquire(adr: nat, dirBits: nat) returns (rc: Outcome, id: nat)
      requires Shaped() && Coherent({}, {}) && PrefixOf(lru, Dirty(elems)) && adr in buckets && dirBits <= HASH_BITS
      modifies this`elems, this`lru, this`table, this`bits, this`nextId, this`orphaned, this`relinked, space`file
      ensures (old(orphaned) ==> orphaned) && (relinked ==> old(relinked) || (auto && orphaned))
      ensures OnlyBuckets(space.owner, old(space.file), space.file)
      ensures rc == Aborted ==> old(orphaned) && auto
      ensures rc != Aborted ==> Shaped() && PrefixOf(lru, Dirty(elems)) && |lru| > 0 && lru[0] == id && id in elems
      ensures rc != Aborted ==> elems[id].adr == adr && Coherent({}, if rc == New then {id} else {})
      ensures rc == Found <==> old(InTable(elems, table, bits, adr))
      ensures rc != Aborted ==> bits >= old(bits)
      ensures !old(orphaned) && old(Roomy(|buckets| - 1, dirBits)) ==> !orphaned
      ensures rc == New ==> lru[1..] <= old(lru)
      ensures rc == Found ==> id in old(elems) && elems[id] == old(elems)[id] && elems[id].bucket == buckets[adr]
      ensures rc == Found ==> Leading(old(elems), old(lru), id) && Unlinked(old(lru), id, lru[1..])
      ensures rc == New ==> id !in old(elems) && elems[id] == Fresh(adr)
      ensures rc == New ==> Holds(space.file, adr, BucketCells(buckets[adr], bucketSize))
      ensures rc == New ==> (Linked(elems, table, bits, id) <==> !old(StaleLink(adr, dirBits)))
      ensures rc == New ==> orphaned == (old(orphaned) || old(StaleLink(adr, dirBits)))
      ensures rc == Found ==> orphaned == old(orphaned)
      ensures rc != Aborted ==> forall x :: x in elems && x != id ==>
                x in old(elems) && SameOrWritten(old(elems)[x], elems[x])
    {
      hide Current, Stored, Allotted, Linked, AllLinked, Leading, OnlyBuckets, Chained, IndexOf, AdrHash, Unchained,
           KeepsPrefixes, PrefixOf, Dirty, InTable, Stored1, Pow2, Distinct;
      var found, link, p := LookupSlot(elems, table, bits, adr);
      if found.Some? {
        id := found.value;
        rc := Found;
        LinkedLeads(elems, lru, table, bits, buckets, {}, id);
        MoveToFront(id);
      } else {
        id := nextId;
        if !orphaned && Roomy(|buckets| - 1, dirBits) {
          NoStaleLink(adr, dirBits, {});
        }
        rc := EnterFront(adr, id, dirBits);
        NothingDirty(lru);
      }
    }

    method MoveToFront(id: nat)
      requires Shaped() && Coherent({}, {}) && PrefixOf(lru, Dirty(elems)) && id in elems
      requires Linked(elems, table, bits, id)
      modifies this`elems, this`lru, space`file
      ensures Shaped() && Coherent({}, {}) && PrefixOf(lru, Dirty(elems)) && |lru| > 0 && lru[0] == id && id in elems
      ensures id in old(elems) && elems[id] == old(elems)[id]
      ensures elems[id].adr in buckets ==> elems[id].bucket == buckets[elems[id].adr]
      ensures Unlinked(old(lru), id, lru[1..])
      ensures forall x :: x in elems && x != id ==> x in old(elems) && SameOrWritten(old(elems)[x], elems[x])
      ensures OnlyBuckets(space.owner, old(space.file), space.file)
    {
      hide Current, Stored, Allotted, Linked, AllLinked, Leading, OnlyBuckets, Chained, IndexOf, AdrHash, PrefixOf,
           Dirty, Pow2, Distinct, Unlinked, LinkedAt;
      OnlyBucketsRefl(space.owner, space.file);
      if elems[id].adr in buckets {
        LinkedCurrent(elems, lru, table, bits, buckets, {}, id);
      }
      var rest := Minus(lru, id);
      MinusUnlinks(lru, id);
      MinusDistinct(lru, id);
      PrefixMinus(lru, Dirty(elems), id);
      if !elems[id].changed {
        var n := Flush(rest, {}, {});
        AllClean(old(elems), rest, elems, n);
        CleanedSame(old(elems), lru, table, bits, set i | 0 <= i < n :: rest[i]);
      }
      RelistFront(id, rest);
      assert lru[1..] == rest;
    }

    /** Linking an element at the head of the list again. */
    method RelistFront(id: nat, rest: seq<nat>)
      requires Shaped() && Coherent({}, {}) && id in elems && Linked(elems, table, bits, id)
      requires Distinct(lru) && rest == Minus(lru, id)
      requires (Dirty(elems) == {} || (elems[id].changed && PrefixOf(rest, Dirty(elems))))
      modifies this`lru
      ensures lru == InsertAt(rest, 0, id)
      ensures Shaped() && Coherent({}, {}) && PrefixOf(lru, Dirty(elems)) && |lru| > 0 && lru[0] == id
    {
      hide Current, Stored, Allotted, Linked, AllLinked, Leading, Chained, IndexOf, AdrHash, PrefixOf, Dirty, Pow2,
           Unlinked, LinkedAt;
      assert Current(elems, lru, table, bits, buckets, {});
      LinkedLeads(elems, lru, table, bits, buckets, {}, id);
      MinusUnlinks(lru, id);
      MinusDistinct(lru, id);
      InsertLinks(rest, 0, id);
      MovedToFront(elems, lru, rest, InsertAt(rest, 0, id), table, bits, buckets, {}, id);
      FrontPrefix(elems, rest, id);
      lru := InsertAt(rest, 0, id);
    }

    method EnterFront(adr: nat, id: nat, dirBits: nat) returns (rc: Outcome)
      requires Shaped() && Coherent({}, {}) && PrefixOf(lru, Dirty(elems)) && adr in buckets && dirBits <= HASH_BITS
      requires !InTable(elems, table, bits, adr) && id == nextId
      modifies this`elems, this`lru, this`table, this`bits, this`nextId, this`orphaned, this`relinked, space`file
      ensures (old(orphaned) ==> orphaned) && (relinked ==> old(relinked) || (auto && orphaned))
      ensures rc in {New, Aborted} && OnlyBuckets(space.owner, old(space.file), space.file)
      ensures rc == Aborted ==> old(orphaned) && auto
      ensures rc == New ==> Shaped() && Dirty(elems) == {} && |lru| > 0 && lru[0] == id && lru[1..] <= old(lru)
      ensures rc == New ==> bits >= old(bits)
      ensures rc == New ==> id in elems && elems[id] == Fresh(adr) && Coherent({}, {id})
      ensures rc == New ==> (Linked(elems, table, bits, id) <==> !old(StaleLink(adr, dirBits)))
      ensures rc == New ==> orphaned == (old(orphaned) || old(StaleLink(adr, dirBits)))
      ensures rc == New ==> Holds(space.file, adr, BucketCells(buckets[adr], bucketSize))
      ensures rc == New ==> forall x :: x in elems && x != id ==>
                x in old(elems) && SameOrWritten(old(elems)[x], elems[x])
    {
      hide Current, Stored, Allotted, Linked, AllLinked, Leading, OnlyBuckets, Chained, IndexOf, AdrHash, PrefixOf,
           InTable, Pow2, Distinct, Dirty, Stored1, Vacant;
      ghost var stale := StaleLink(adr, dirBits);
      if !orphaned {
        AbsentAddress(elems, table, bits, adr);
      }
      var aborted, newTable := StoreAndFlush(adr, id, dirBits);
      if aborted {
        return Aborted;
      }
      rc := New;
      PutInFront(id, adr, newTable, stale);
    }

    /** cache_lookup up to the point where the element is linked at the head of the list. */
    method StoreAndFlush(adr: nat, id: nat, dirBits: nat) returns (aborted: bool, newTable: seq<seq<nat>>)
      requires Shaped() && Coherent({}, {}) && PrefixOf(lru, Dirty(elems)) && dirBits <= HASH_BITS
      requires !InTable(elems, table, bits, adr) && id == nextId
      modifies this`elems, this`lru, this`table, this`bits, this`relinked, space`file
      ensures relinked ==> old(relinked) || (auto && orphaned)
      ensures OnlyBuckets(space.owner, old(space.file), space.file)
      ensures aborted ==> orphaned && auto
      ensures !aborted ==> Shaped() && Coherent({}, {}) && Dirty(elems) == {} && |lru| < Pow2(bits) && lru <= old(lru)
      ensures !aborted ==> bits >= old(bits)
      ensures !aborted ==> Stored1(elems, table, newTable, bits, id, adr, !old(StaleLink(adr, dirBits)))
      ensures !aborted ==> forall x :: x in elems ==> x in old(elems) && SameOrWritten(old(elems)[x], elems[x])
    {
      hide Current, Stored, Allotted, Linked, AllLinked, Leading, OnlyBuckets, Chained, IndexOf, AdrHash, Unchained,
           KeepsPrefixes, PrefixOf, InTable, Pow2, Distinct, Dirty, Stored1, Vacant;
      ghost var stale := StaleLink(adr, dirBits);
      aborted, newTable := StoreNew(adr, id, dirBits, {}, {});
      if aborted {
        return;
      }
      ghost var file1, elems1 := space.file, elems;
      PrefixAll(old(elems), old(lru), elems, lru);
      var n := Flush(lru, {}, {});
      OnlyBucketsTrans(space.owner, old(space.file), file1, space.file);
      AllClean(elems1, lru, elems, n);
      StoredClean(elems1, table, newTable, bits, id, adr, !stale, set i | 0 <= i < n :: lru[i]);
      assert forall x :: x in elems ==> x in elems1 && SameOrWritten(elems1[x], elems[x]);
    }

    /** cache_lookup for a bucket just allocated, to be linked after `ref` at position `k`: the
        list's head stays current and nothing is flushed. */
    method AcquireAfter(adr: nat, k: nat, dirBits: nat, ghost open: set<nat>) returns (rc: Outcome, id: nat)
      requires Shaped() && Coherent(open, {}) && dirBits <= HASH_BITS && k <= 1 && k < |lru|
      requires adr !in buckets && forall q :: 0 <= q <= k ==> elems[lru[q]].adr in buckets
      modifies this`elems, this`lru, this`table, this`bits, this`nextId, this`orphaned, this`relinked, space`file
      ensures (old(orphaned) ==> orphaned) && (relinked ==> old(relinked) || (auto && orphaned))
      ensures OnlyBuckets(space.owner, old(space.file), space.file)
      ensures rc == Aborted ==> old(orphaned) && auto
      ensures rc == Found ==> old(relinked)
      ensures !old(orphaned) && rc == New && old(Roomy(|buckets|, dirBits)) ==> !orphaned
      ensures rc == New ==> Shaped() && id in elems && elems[id] == Fresh(adr) && Coherent(open, {id})
      ensures rc == New ==> id !in old(elems) && k + 1 < |lru| && lru[..k + 1] == old(lru)[..k + 1] && lru[k + 1] == id
      ensures rc == New ==> lru[k + 2..] <= old(lru)[k + 1..]
      ensures rc == New ==> bits >= old(bits)
      ensures rc == New ==> (PrefixOf(old(lru)[k + 1..], Dirty(old(elems))) ==> PrefixOf(lru[k + 2..], Dirty(elems)))
      ensures rc == New ==> (Linked(elems, table, bits, id) <==> !old(StaleLink(adr, dirBits)))
      ensures rc == New ==> orphaned == (old(orphaned) || old(StaleLink(adr, dirBits)))
      ensures rc == New ==> forall x :: x in elems && x != id ==>
                x in old(elems) && SameOrWritten(old(elems)[x], elems[x])
    {
      hide Current, Stored, Allotted, Linked, AllLinked, Leading, OnlyBuckets, Chained, IndexOf, AdrHash,
           KeepsPrefixes, PrefixOf, InTable, Distinct, Dirty, Stored1, Vacant, InsertAt;
      OnlyBucketsRefl(space.owner, space.file);
      id := nextId;
      var found, link, p := LookupSlot(elems, table, bits, adr);
      if found.Some? {
        assert relinked;
        return Found, found.value;
      }
      if !orphaned && Roomy(|buckets|, dirBits) {
        NoStaleLink(adr, dirBits, open);
      }
      rc := EnterAfter(adr, id, k, dirBits, open);
    }

    method EnterAfter(adr: nat, id: nat, k: nat, dirBits: nat, ghost open: set<nat>) returns (rc: Outcome)
      requires Shaped() && Coherent(open, {}) && dirBits <= HASH_BITS && k <= 1 && k < |lru| && id == nextId
      requires adr !in buckets && forall q :: 0 <= q <= k ==> elems[lru[q]].adr in buckets
      requires !InTable(elems, table, bits, adr)
      modifies this`elems, this`lru, this`table, this`bits, this`nextId, this`orphaned, this`relinked, space`file
      ensures (old(orphaned) ==> orphaned) && (relinked ==> old(relinked) || (auto && orphaned))
      ensures OnlyBuckets(space.owner, old(space.file), space.file)
      ensures rc in {New, Aborted} && (rc == Aborted ==> old(orphaned) && auto)
      ensures rc == New ==> Shaped() && id in elems && elems[id] == Fresh(adr) && Coherent(open, {id})
      ensures rc == New ==> k + 1 < |lru| && lru[..k + 1] == old(lru)[..k + 1] && lru[k + 1] == id
      ensures rc == New ==> lru[k + 2..] <= old(lru)[k + 1..]
      ensures rc == New ==> bits >= old(bits)
      ensures rc == New ==> (PrefixOf(old(lru)[k + 1..], Dirty(old(elems))) ==> PrefixOf(lru[k + 2..], Dirty(elems)))
      ensures rc == New ==> (Linked(elems, table, bits, id) <==> !old(StaleLink(adr, dirBits)))
      ensures rc == New ==> orphaned == (old(orphaned) || old(StaleLink(adr, dirBits)))
      ensures rc == New ==> forall x :: x in elems && x != id ==>
                x in old(elems) && SameOrWritten(old(elems)[x], elems[x])
    {
      hide Current, Stored, Allotted, Linked, AllLinked, Leading, OnlyBuckets, Chained, IndexOf, AdrHash,
           KeepsPrefixes, PrefixOf, InTable, Distinct, Dirty, Stored1, Vacant, InsertAt, Pow2, LinkedLive,
           SameOrWritten;
      ghost var stale := StaleLink(adr, dirBits);
      if !orphaned {
        AbsentAddress(elems, table, bits, adr);
      }
      RoomForFour(bits);
      var aborted, newTable := StoreNew(adr, id, dirBits, open, {});
      if aborted {
        return Aborted;
      }
      rc := New;
      StillLive(old(elems), old(lru), elems, lru, buckets, k);
      PutInPlace(id, adr, k, newTable, open, stale, old(elems), old(lru));
    }

    /** The new element takes its place in the list, which may have lost its last element. */
    method PutInPlace(id: nat, adr: nat, k: nat, newTable: seq<seq<nat>>, ghost open: set<nat>, ghost stale: bool,
                      ghost elems0: Elements, ghost lru0: seq<nat>)
      requires Shaped() && Coherent(open, {}) && |lru| < Pow2(bits) && id == nextId && k < |lru| && lru <= lru0
      requires adr !in buckets && forall q :: 0 <= q <= k ==> elems[lru[q]].adr in buckets
      requires Stored1(elems, table, newTable, bits, id, adr, !stale) && KeepsPrefixes(elems0, lru0, elems, lru)
      requires !orphaned ==> forall x :: x in elems ==> elems[x].adr != adr
      modifies this`elems, this`lru, this`table, this`nextId, this`orphaned
      ensures Shaped() && elems == old(elems)[id := Fresh(adr)]
      ensures Coherent(open, {id}) && orphaned == (old(orphaned) || stale)
      ensures Linked(elems, table, bits, id) <==> !stale
      ensures k + 1 < |lru| && lru[..k + 1] == lru0[..k + 1] && lru[k + 1] == id && lru[k + 2..] <= lru0[k + 1..]
      ensures PrefixOf(lru0[k + 1..], Dirty(elems0)) ==> PrefixOf(lru[k + 2..], Dirty(elems))
    {
      hide Current, Stored, Allotted, Linked, AllLinked, Leading, Chained, IndexOf, AdrHash, KeepsPrefixes, PrefixOf,
           Distinct, Dirty, Stored1, Pow2, LinkedLive, InsertAt;
      ghost var elems1, lru1 := elems, lru;
      PutAfter(id, adr, k, newTable, open, stale);
      InsertedShape(lru1, lru0, k + 1, id);
      TailPrefix(elems0, lru0, elems1, lru1, elems, k + 1, id);
    }

    method PutAfter(id: nat, adr: nat, k: nat, newTable: seq<seq<nat>>, ghost open: set<nat>, ghost stale: bool)
      requires Shaped() && Coherent(open, {}) && |lru| < Pow2(bits) && id == nextId && k < |lru|
      requires adr !in buckets && forall q :: 0 <= q <= k ==> elems[lru[q]].adr in buckets
      requires Stored1(elems, table, newTable, bits, id, adr, !stale)
      requires !orphaned ==> forall x :: x in elems ==> elems[x].adr != adr
      modifies this`elems, this`lru, this`table, this`nextId, this`orphaned
      ensures Shaped() && lru == InsertAt(old(lru), k + 1, id) && elems == old(elems)[id := Fresh(adr)]
      ensures Coherent(open, {id}) && orphaned == (old(orphaned) || stale)
      ensures Linked(elems, table, bits, id) <==> !stale
    {
      hide Allotted, Linked, AllLinked, Leading, Chained, IndexOf, AdrHash, Pow2, LinkedAt, Stored, Stored1,
           LinkedLive, Distinct;
      EnteredLinks(elems, table, newTable, bits, buckets, id, adr, !stale);
      InsertLinks(lru, k + 1, id);
      forall x | x in elems && elems[x].adr == adr
        ensures !elems[x].changed && k + 1 <= IndexOf(lru, x)
      {
        assert lru[IndexOf(lru, x)] == x;
      }
      EnteredAt(space.file, elems, lru, table, newTable, bits, buckets, open, {}, bucketSize, k + 1, id, Fresh(adr),
          InsertAt(lru, k + 1, id));
      assert {} + {id} == {id};
      elems := elems[id := Fresh(adr)];
      lru := InsertAt(lru, k + 1, id);
      table := newTable;
      nextId := id + 1;
      orphaned := orphaned || stale;
    }

    /** The address of the current bucket: the one at the head of the list. */
    ghost function Cur(): nat
      requires Listed(elems, lru) && |lru| > 0
      reads this
    {
      elems[lru[0]].adr
    }

    /** Writing to the bucket at position `k` of the list; `changed` sets its dirty flag. */
    method Fill(k: nat, b: Bucket, changed: bool, ghost open: set<nat>, ghost raw: set<nat>)
      requires Shaped() && Coherent(open, raw) && First(elems, lru, k) && raw <= {lru[k]}
      requires Painted(space.owner, elems[lru[k]].adr, bucketSize, BucketAt(elems[lru[k]].adr))
      modifies this`elems, this`buckets
      ensures Shaped() && Coherent(open + {old(elems)[lru[k]].adr}, {})
      ensures buckets == old(buckets)[old(elems)[lru[k]].adr := b]
      ensures var e := old(elems)[lru[k]];
              elems == old(elems)[lru[k] := e.(bucket := b, changed := e.changed || changed)]
    {
      hide Stored, Linked, Leading, Chained, AdrHash, IndexOf, Pow2, Current, AllLinked, LinkedLive, Distinct;
      var id := lru[k];
      var e := elems[id].(bucket := b, changed := elems[id].changed || changed);
      FirstLeads(elems, lru, k);
      Updated(elems, lru, table, bits, buckets, raw, id, e);
      UpdatedLinks(elems, table, bits, buckets, raw, id, e);
      UpdatedStored(space.file, elems, buckets, open, bucketSize, id, e);
      buckets := buckets[elems[id].adr := b];
      elems := elems[id := e];
    }

    /** The bucket just read becomes the content of the element at the head of the list. */
    method Load(b: Bucket)
      requires Shaped() && |lru| > 0 && Coherent({}, {lru[0]}) && Cur() in buckets && b == buckets[Cur()]
      modifies this`elems
      ensures Shaped() && Coherent({}, {}) && elems == old(elems)[lru[0] := old(elems)[lru[0]].(bucket := b)]
    {
      hide Stored, Linked, Leading, Chained, AdrHash, IndexOf, Pow2, Current, AllLinked, LinkedLive, Distinct;
      var id := lru[0];
      var e := elems[id].(bucket := b);
      FirstLeads(elems, lru, 0);
      Updated(elems, lru, table, bits, buckets, {id}, id, e);
      UpdatedLinks(elems, table, bits, buckets, {id}, id, e);
      LoadedStored(space.file, elems, buckets, bucketSize, id, e);
      assert buckets[e.adr := e.bucket] == buckets;
      elems := elems[id := e];
    }

    /** cache_elem_free for the current bucket, which ceases to exist. */
    method Discard(ghost open: set<nat>)
      requires Shaped() && Coherent(open, {}) && |lru| > 0
      modifies this`elems, this`lru, this`table, this`buckets
      ensures Shaped() && Coherent(open, {})
      ensures elems == old(elems) - {old(lru)[0]} && lru == old(lru)[1..] && buckets == old(buckets) - {old(Cur())}
    {
      hide Stored, Linked, Leading, Chained, AdrHash, IndexOf, Pow2, Current, AllLinked, LinkedLive, Unchained,
           Distinct, Minus, RemoveAt;
      TableSize(elems, table, bits);
      MinusHead(lru);
      HeadDropped(elems, lru, table, bits, buckets);
      HeadDroppedStored(space.file, elems, lru, buckets, open, bucketSize);
      HeadDroppedLinks(elems, lru, table, bits, buckets);
      buckets := buckets - {elems[lru[0]].adr};
      ElemFree(lru[0]);
    }

    /** The second element of the list becomes the first. */
    method Promote(ghost open: set<nat>)
      requires Shaped() && Coherent(open, {}) && First(elems, lru, 1)
      modifies this`lru
      ensures Shaped() && Coherent(open, {}) && lru == [old(lru)[1], old(lru)[0]] + old(lru)[2..]
    {
      hide Stored, Linked, Leading, Chained, AdrHash, IndexOf, Pow2, Current, AllLinked, Unlinked, LinkedAt;
      var id := lru[1];
      FirstLeads(elems, lru, 1);
      IndexUnique(lru, 1);
      var rest := Minus(lru, id);
      MinusUnlinks(lru, id);
      MinusDistinct(lru, id);
      InsertLinks(rest, 0, id);
      MovedToFront(elems, lru, rest, InsertAt(rest, 0, id), table, bits, buckets, {}, id);
      lru := InsertAt(rest, 0, id);
      assert lru == [old(lru)[1], old(lru)[0]] + old(lru)[2..];
    }

    /** The end of a split: the two elements behind the current one get their buckets and take
        its place, and the one that is to be current comes first. */
    method Supplant(b0: Bucket, b1: Bucket, first: bool, ghost open: set<nat>)
      requires Shaped() && Coherent(open, {}) && |lru| > 2
      requires elems[lru[1]].adr in buckets && elems[lru[2]].adr in buckets && First(elems, lru, 1)
      requires First(elems, lru, 2)
      modifies this`elems, this`lru, this`table, this`buckets
      ensures Shaped() && Coherent(open - {old(elems[lru[1]].adr), old(elems[lru[2]].adr)}, {})
      ensures lru == (if first then [old(lru)[1], old(lru)[2]] else [old(lru)[2], old(lru)[1]]) + old(lru)[3..]
      ensures buckets == (old(buckets) - {old(Cur())})[old(elems[lru[1]].adr) := b0][old(elems[lru[2]].adr) := b1]
      ensures var n0, n1 := old(lru)[1], old(lru)[2];
              elems == (old(elems) - {old(lru)[0]})[n0 := old(elems)[n0].(bucket := b0,
                  changed := true)][n1 := old(elems)[n1].(bucket := b1, changed := true)]
    {
      hide Stored, Linked, Leading, Chained, AdrHash, IndexOf, Pow2, Current, AllLinked, LinkedLive, Distinct, Painted;
      ghost var a0, a1, c, n0, n1 := elems[lru[1]].adr, elems[lru[2]].adr, lru[0], lru[1], lru[2];
      DropOrder(buckets, Cur(), a0, b0, a1, b1);
      Apart3(lru);
      DropOrder(elems, c, n0, elems[n0].(bucket := b0, changed := true), n1, elems[n1].(bucket := b1, changed := true));
      Fill(1, b0, true, open, {});
      Fill(2, b1, true, open + {a0}, {});
      Discard(open + {a0} + {a1});
      if !first {
        Promote(open + {a0} + {a1});
      }
      BothDirty(space.file, elems, buckets, open, bucketSize, old(lru)[1], old(lru)[2]);
    }

    /** Forgetting or replacing the current bucket's cached key/data pair. */
    method SetData(d: CachedData, ghost open: set<nat>)
      requires Shaped() && Coherent(open, {}) && |lru| > 0
      modifies this`elems
      ensures Shaped() && Coherent(open, {}) && Cur() == old(Cur()) && Dirty(elems) == Dirty(old(elems))
      ensures elems == old(elems)[lru[0] := old(elems)[lru[0]].(data := d)]
    {
      hide Stored, Linked, Leading, Chained, AdrHash, IndexOf, Pow2, Current, AllLinked, LinkedLive;
      var id := lru[0];
      DataSet(elems, lru, table, bits, buckets, id, d);
      DataSetStored(space.file, elems, table, bits, buckets, open, bucketSize, id, d);
      elems := elems[id := elems[id].(data := d)];
    }

    /** The end of cache_lookup: the new element becomes the most recently used one. */
    method PutInFront(id: nat, adr: nat, newTable: seq<seq<nat>>, ghost stale: bool)
      requires Shaped() && Coherent({}, {}) && Dirty(elems) == {} && |lru| < Pow2(bits) && id == nextId
      requires adr in buckets
      requires Stored1(elems, table, newTable, bits, id, adr, !stale)
      requires !orphaned ==> forall x :: x in elems ==> elems[x].adr != adr
      modifies this`elems, this`lru, this`table, this`nextId, this`orphaned
      ensures Shaped() && Dirty(elems) == {} && lru == [id] + old(lru) && elems == old(elems)[id := Fresh(adr)]
      ensures Coherent({}, {id}) && orphaned == (old(orphaned) || stale)
      ensures Linked(elems, table, bits, id) <==> !stale
      ensures Holds(space.file, adr, BucketCells(buckets[adr], bucketSize))
    {
      hide Current, Allotted, Linked, AllLinked, Leading, Chained, IndexOf, AdrHash, Pow2, LinkedAt, Stored1,
           LinkedLive, Distinct, Stored;
      CleanStored(space.file, elems, buckets, bucketSize);
      EnteredLinks(elems, table, newTable, bits, buckets, id, adr, !stale);
      InsertLinks(lru, 0, id);
      assert InsertAt(lru, 0, id) == [id] + lru;
      assert forall x :: x in elems ==> x !in Dirty(elems);
      EnteredAt(space.file, elems, lru, table, newTable, bits, buckets, {}, {}, bucketSize, 0, id, Fresh(adr),
          [id] + lru);
      assert {} + {id} == {id};
      elems := elems[id := Fresh(adr)];
      lru := [id] + lru;
      table := newTable;
      nextId := id + 1;
      orphaned := orphaned || stale;
    }
  }
}
