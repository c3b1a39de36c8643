/**
 Filling a database with records one after the other, as recovery (src/recover.c) and the loader
 (src/gdbmload.c) do: what it then holds, how its directory grows, and when a cache that resizes
 itself has room all the way.
 */
module Filling {
  import opened Bits
  import opened Layout
  import opened Sequences
  import opened Directory
  import opened Content
  import opened Growth
  import opened Leaves
  import opened Traversal

  /** The map `m` once the records have been stored one after the other. */
  function WithRecords(m: map<Key, Value>, recs: seq<Entry>): map<Key, Value> {
    if |recs| == 0 then m else WithRecords(m, recs[..|recs| - 1])[recs[|recs| - 1].key := recs[|recs| - 1].value]
  }

  /** How the directory grows meanwhile. */
  function FillShape(sh: Shape, m: map<Key, Value>, recs: seq<Entry>, n: nat): Shape {
    if |recs| == 0 then sh
    else
      var front := recs[..|recs| - 1];
      Extended(FillShape(sh, m, front, n), WithRecords(m, front), recs[|recs| - 1].key, n)
  }

  function Extended(sh: Shape, m: map<Key, Value>, key: Key, n: nat): Shape {
    if key in m then sh else Widened(sh, m, Hash(key), n)
  }

  predicate FillStep(sh: Shape, m: map<Key, Value>, key: Key, n: nat, cacheBits: nat) {
    key in m || Easily(sh, m, Hash(key), n, cacheBits)
  }

  /** Every split finds room in the cache. */
  predicate FillsEasily(sh: Shape, m: map<Key, Value>, recs: seq<Entry>, n: nat, cacheBits: nat) {
    forall i :: 0 <= i < |recs| ==>
          FillStep(FillShape(sh, m, recs[..i], n), WithRecords(m, recs[..i]), recs[i].key, n, cacheBits)
  }

  lemma StepStill(sh: Shape, m: map<Key, Value>, key: Key, n: nat, a: nat, b: nat)
    requires FillStep(sh, m, key, n, a) && a <= b
    ensures FillStep(sh, m, key, n, b)
  {
    EasilyStill(sh, m, Hash(key), n, a, b);
  }

  /** What one more record amounts to. */
  lemma OneFilled(sh: Shape, m: map<Key, Value>, recs: seq<Entry>, n: nat, i: nat, a: nat, b: nat)
    requires i < |recs| && a <= b
    ensures var before := WithRecords(m, recs[..i]);
            && WithRecords(m, recs[..i + 1]) == before[recs[i].key := recs[i].value]
            && FillShape(sh, m, recs[..i + 1], n) == Extended(FillShape(sh, m, recs[..i], n), before, recs[i].key, n)
            && (FillsEasily(sh, m, recs, n, a) ==>
                  FillStep(FillShape(sh, m, recs[..i], n), before, recs[i].key, n, b))
  {
    hide Extended, FillStep, FillsEasily;
    assert recs[..i + 1][..i] == recs[..i];
    if FillsEasily(sh, m, recs, n, a) {
      EasyAt(sh, m, recs, n, a, i);
      StepStill(FillShape(sh, m, recs[..i], n), WithRecords(m, recs[..i]), recs[i].key, n, a, b);
    }
  }

  lemma EasyAt(sh: Shape, m: map<Key, Value>, recs: seq<Entry>, n: nat, a: nat, i: nat)
    requires FillsEasily(sh, m, recs, n, a) && i < |recs|
    ensures FillStep(FillShape(sh, m, recs[..i], n), WithRecords(m, recs[..i]), recs[i].key, n, a)
  {
    hide FillStep, FillShape, WithRecords;
  }

  lemma NothingFilled(sh: Shape, m: map<Key, Value>, recs: seq<Entry>, n: nat)
    ensures recs[..0] == [] && WithRecords(m, recs[..0]) == m && FillShape(sh, m, recs[..0], n) == sh
  {
  }

  // ----- when it is easy -----

  lemma {:induction false} FillOnlyGrows(sh: Shape, m: map<Key, Value>, recs: seq<Entry>, n: nat, i: nat)
    requires i <= |recs|
    ensures FillShape(sh, m, recs[..i], n).bits >= sh.bits
    ensures FillShape(sh, m, recs[..i], n).count <= FillShape(sh, m, recs, n).count
    decreases |recs|
  {
    hide WithRoom, Depth, WithRecords;
    if |recs| > 0 {
      var front, key := recs[..|recs| - 1], recs[|recs| - 1].key;
      var mid, now := FillShape(sh, m, front, n), WithRecords(m, front);
      OnlyGrows(mid, now, Hash(key), Depth(mid, Hash(key)), n);
      if i < |recs| {
        FillOnlyGrows(sh, m, front, n, i);
        assert front[..i] == recs[..i];
      } else {
        FillOnlyGrows(sh, m, front, n, |front|);
        assert front[..|front|] == front && recs[..i] == recs;
      }
    }
  }

  /** Filling is easy if it ends with fewer buckets, by two, than the directory or the cache had
      entries to begin with. */
  lemma FewBucketsEasy(sh: Shape, m: map<Key, Value>, recs: seq<Entry>, n: nat, cacheBits: nat, b: nat)
    requires b <= cacheBits || b <= sh.bits
    requires FillShape(sh, m, recs, n).count + 1 < Pow2(b)
    ensures FillsEasily(sh, m, recs, n, cacheBits)
  {
    hide WithRoom, Depth, WithRecords, Easy, Pow2;
    forall i | 0 <= i < |recs|
      ensures FillStep(FillShape(sh, m, recs[..i], n), WithRecords(m, recs[..i]), recs[i].key, n, cacheBits)
    {
      var mid, now, hash := FillShape(sh, m, recs[..i], n), WithRecords(m, recs[..i]), Hash(recs[i].key);
      FillOnlyGrows(sh, m, recs, n, i);
      FillOnlyGrows(sh, m, recs, n, i + 1);
      OneFilled(sh, m, recs, n, i, cacheBits, cacheBits);
      if recs[i].key !in now {
        EasyIfSmall(mid, now, hash, Depth(mid, hash), n, cacheBits, b);
      }
    }
  }

  // ----- the records of a database -----

  /** `recs` is the walk so far, each key with its value. */
  ghost predicate Listing(s: Catalog, recs: seq<Entry>, walk: seq<Slot>) {
    && |recs| <= |walk|
    && forall i :: 0 <= i < |recs| ==> Lists(s, recs[i], walk[i])
  }

  ghost predicate Lists(s: Catalog, e: Entry, x: Slot) {
    e.key in s.data && e.key in s.loc && s.loc[e.key] == x && e.value == s.data[e.key]
  }

  ghost function EntryAt(s: Catalog, x: Slot): Entry {
    if exists e :: Lists(s, e, x) then
      var e :| Lists(s, e, x);
      e
    else
      Entry([], [])
  }

  /** The records in the order in which a walk meets them. */
  ghost function Records(s: Catalog): (recs: seq<Entry>)
    ensures |recs| == |SlotsFrom(s, 0)| && forall i :: 0 <= i < |recs| ==> recs[i] == EntryAt(s, SlotsFrom(s, 0)[i])
  {
    var walk := SlotsFrom(s, 0);
    seq(|walk|, i requires 0 <= i < |walk| => EntryAt(s, walk[i]))
  }

  lemma RecordsListed(s: Catalog, n: nat)
    requires s.Ok(n)
    ensures Listing(s, Records(s), SlotsFrom(s, 0)) && |Records(s)| == |SlotsFrom(s, 0)|
  {
    hide SlotsFrom, Catalog.Shaped, Catalog.KeyPlaced, Catalog.SlotPlaced, Distinct;
    WalkComplete(s, n);
    var recs, walk := Records(s), SlotsFrom(s, 0);
    forall i | 0 <= i < |recs|
      ensures Lists(s, recs[i], walk[i])
    {
      assert walk[i] in walk;
      var k :| k in s.loc && s.loc[k] == walk[i];
      assert Lists(s, Entry(k, s.data[k]), walk[i]);
    }
  }

  /** There is only one such listing. */
  lemma OneListing(s: Catalog, n: nat, recs: seq<Entry>)
    requires s.Ok(n) && Listing(s, recs, SlotsFrom(s, 0)) && |recs| == |SlotsFrom(s, 0)|
    ensures recs == Records(s)
  {
    hide SlotsFrom, Catalog.Shaped, Catalog.KeyPlaced, Catalog.SlotPlaced;
    RecordsListed(s, n);
    var all, walk := Records(s), SlotsFrom(s, 0);
    forall i | 0 <= i < |recs|
      ensures recs[i] == all[i]
    {
      assert Lists(s, recs[i], walk[i]) && Lists(s, all[i], walk[i]);
    }
  }

  /** What the first `i` records amount to. */
  lemma {:induction false} OverWalk(s: Catalog, recs: seq<Entry>, i: nat)
    requires Listing(s, recs, SlotsFrom(s, 0)) && i <= |recs|
    ensures forall k :: k in WithRecords(map[], recs[..i]) <==> exists j :: 0 <= j < i && recs[j].key == k
    ensures forall k :: k in WithRecords(map[], recs[..i]) ==>
              k in s.data && WithRecords(map[], recs[..i])[k] == s.data[k]
    decreases i
  {
    hide SlotsFrom;
    if i > 0 {
      OverWalk(s, recs, i - 1);
      assert recs[..i][..i - 1] == recs[..i - 1];
      assert Lists(s, recs[i - 1], SlotsFrom(s, 0)[i - 1]);
    }
  }

  lemma NewKey(s: Catalog, recs: seq<Entry>, i: nat)
    requires Listing(s, recs, SlotsFrom(s, 0)) && Distinct(SlotsFrom(s, 0)) && i < |recs|
    ensures forall j :: 0 <= j < i ==> recs[j].key != recs[i].key
  {
    hide SlotsFrom;
    assert forall j :: 0 <= j <= i ==> Lists(s, recs[j], SlotsFrom(s, 0)[j]);
  }

  // ----- a new database with the same records -----

  /** A new database that is filled with them splits only where it must. */
  lemma {:induction false} CopyNeeded(s: Catalog, n: nat, recs: seq<Entry>, bits: nat, m: nat, i: nat)
    requires s.Ok(n) && Listing(s, recs, SlotsFrom(s, 0)) && i <= |recs| && bits <= MAX_DIR_BITS
    ensures var sh := FillShape(FirstShape(bits), map[], recs[..i], m);
            Tree(sh) && Needed(sh, WithRecords(map[], recs[..i]), m)
    decreases i
  {
    hide SlotsFrom, Catalog.Ok, WithRecords, Tree, Needed, Depth, WithRoom, Hash;
    if i == 0 {
      NothingFilled(FirstShape(bits), map[], recs, m);
      FirstTree(bits);
      NothingNeeded(bits, m);
    } else {
      CopyNeeded(s, n, recs, bits, m, i - 1);
      WalkComplete(s, n);
      OverWalk(s, recs, i - 1);
      NewKey(s, recs, i - 1);
      OneFilled(FirstShape(bits), map[], recs, m, i - 1, 0, 0);
      var sh, now := FillShape(FirstShape(bits), map[], recs[..i - 1], m), WithRecords(map[], recs[..i - 1]);
      var e := recs[i - 1];
      MoreNeeded(sh, now, now[e.key := e.value], m);
      RoomNeeded(sh, now, e.key, e.value, Depth(sh, Hash(e.key)), m);
    }
  }

  lemma NothingNeeded(bits: nat, m: nat)
    ensures Needed(FirstShape(bits), map[], m)
  {
    hide Pow2;
  }

  lemma MoreNeeded(sh: Shape, m: map<Key, Value>, m': map<Key, Value>, n: nat)
    requires Needed(sh, m, n) && m.Keys <= m'.Keys
    ensures Needed(sh, m', n)
  {
    hide Pow2, Sharing, Depth;
    forall h, j | 0 <= h < Pow2(HASH_BITS) && 0 <= j < Depth(sh, h)
      ensures Sharing(m', h, j) > n
    {
      SharingMore(m, m', h, j);
    }
  }

  /** A new database with buckets no smaller gets no more buckets than the one it is filled from, so
      filling it is easy if these are fewer, by two, than its first directory or cache has entries. */
  lemma CopyEasy(s: Catalog, n: nat, bits: nat, m: nat, cacheBits: nat, b: nat)
    requires s.Ok(n) && n <= m && bits <= MAX_DIR_BITS && (b <= cacheBits || b <= bits)
    requires |s.buckets| + 1 < Pow2(b)
    ensures FillShape(FirstShape(bits), map[], Records(s), m).count <= |s.buckets|
    ensures FillsEasily(FirstShape(bits), map[], Records(s), m, cacheBits)
  {
    hide SlotsFrom, Catalog.Ok, Tree, Needed, WithRecords, FillShape, FillsEasily, Pow2;
    var recs := Records(s);
    RecordsListed(s, n);
    assert recs[..|recs|] == recs;
    CopyNeeded(s, n, recs, bits, m, |recs|);
    OverWalk(s, recs, |recs|);
    NoMoreLeaves(FillShape(FirstShape(bits), map[], recs, m), WithRecords(map[], recs), m, s, n);
    FewBucketsEasy(FirstShape(bits), map[], recs, m, cacheBits, b);
  }
}
