/**
 Free-space tables (src/falloc.c): size-ordered arrays of (size, address) entries,
 searched by bisection, with best-fit extraction and coalescing insertion.

 A table is abstracted to the number of its entries that cover each byte of the file.
 */
module AvailTable {

  /** Regions of at most this many bytes are never recorded (src/gdbmconst.h). */
  const IGNORE_SIZE: nat := 4

  datatype Avail = Avail(size: nat, adr: nat)

  function In(e: Avail, x: nat): (n: nat) {
    if e.adr <= x < e.adr + e.size then 1 else 0
  }

  /** How many entries of the table contain byte `x`. */
  ghost function Cover(t: seq<Avail>, x: nat): (n: nat) {
    if |t| == 0 then 0 else In(t[0], x) + Cover(t[1..], x)
  }

  ghost predicate Sorted(t: seq<Avail>) {
    forall i, j :: 0 <= i < j < |t| ==> t[i].size <= t[j].size
  }

  ghost predicate Worthwhile(t: seq<Avail>) {
    forall i :: 0 <= i < |t| ==> t[i].size > IGNORE_SIZE
  }

  /** What every free table satisfies between operations. */
  ghost predicate Tidy(t: seq<Avail>) {
    Sorted(t) && Worthwhile(t)
  }

  /** No entry ends where another one starts: nothing is left to coalesce. */
  ghost predicate Coalesced(t: seq<Avail>) {
    forall i, j :: 0 <= i < |t| && 0 <= j < |t| && i != j ==> t[i].adr + t[i].size != t[j].adr
  }

  function Without(t: seq<Avail>, i: nat): (r: seq<Avail>)
    requires i < |t|
    ensures |r| == |t| - 1
    ensures forall k :: 0 <= k < |r| ==> r[k] == if k < i then t[k] else t[k + 1]
  {
    t[..i] + t[i + 1..]
  }

  lemma WithoutMultiset(t: seq<Avail>, i: nat)
    requires i < |t|
    ensures multiset(Without(t, i)) == multiset(t) - multiset{t[i]}
  {
    assert t == t[..i] + [t[i]] + t[i + 1..];
  }

  lemma {:induction false} CoverConcat(s: seq<Avail>, t: seq<Avail>, x: nat)
    ensures Cover(s + t, x) == Cover(s, x) + Cover(t, x)
  {
    if |s| == 0 {
      assert s + t == t;
    } else {
      assert (s + t)[1..] == s[1..] + t;
      CoverConcat(s[1..], t, x);
    }
  }

  lemma {:induction false} CoverWithout(t: seq<Avail>, i: nat, x: nat)
    requires i < |t|
    ensures Cover(Without(t, i), x) + In(t[i], x) == Cover(t, x)
  {
    CoverConcat(t[..i], t[i + 1..], x);
    assert t == t[..i] + ([t[i]] + t[i + 1..]);
    CoverConcat(t[..i], [t[i]] + t[i + 1..], x);
    assert ([t[i]] + t[i + 1..])[1..] == t[i + 1..];
  }

  lemma {:induction false} CoverInsert(t: seq<Avail>, i: nat, e: Avail, x: nat)
    requires i <= |t|
    ensures Cover(t[..i] + [e] + t[i..], x) == Cover(t, x) + In(e, x)
  {
    var r := t[..i] + [e] + t[i..];
    assert Without(r, i) == t;
    CoverWithout(r, i, x);
  }

  lemma {:induction false} CoverMember(t: seq<Avail>, i: nat, x: nat)
    requires i < |t| && In(t[i], x) == 1
    ensures Cover(t, x) >= 1
  {
    CoverWithout(t, i, x);
  }

  lemma {:induction false} CoverWitness(t: seq<Avail>, x: nat) returns (i: nat)
    requires Cover(t, x) > 0
    ensures i < |t| && In(t[i], x) == 1
  {
    if In(t[0], x) == 1 {
      i := 0;
    } else {
      var j := CoverWitness(t[1..], x);
      i := j + 1;
    }
  }

  /** avail_lookup: the bisection.  Everything before the result is no larger than
      `size`, everything from it on is no smaller. */
  method Lookup(size: nat, t: seq<Avail>) returns (index: nat)
    requires Sorted(t)
    ensures index <= |t|
    ensures forall i :: 0 <= i < index ==> t[i].size <= size
    ensures forall i :: index <= i < |t| ==> size <= t[i].size
    ensures index < |t| && t[index].size != size ==> forall i :: 0 <= i < index ==> t[i].size < size
    ensures index == |t| ==> forall i :: 0 <= i < |t| ==> t[i].size < size
  {
    index := 0;
    var count := |t|;
    while count > 0
      invariant 0 <= index && 0 <= count && index + count <= |t|
      invariant forall i :: 0 <= i < index ==> t[i].size < size
      invariant forall i :: index + count <= i < |t| ==> size < t[i].size
    {
      var pivot := index + count / 2;
      if size == t[pivot].size {
        return pivot;
      }
      if size > t[pivot].size {
        index := pivot + 1;
        count := count - 1;
      }
      count := count / 2;
    }
  }

  ghost predicate Fits(t: seq<Avail>, size: nat) {
    exists e :: e in t && size <= e.size
  }

  /** `e` is large enough, and nothing smaller is. */
  ghost predicate BestFit(t: seq<Avail>, size: nat, e: Avail) {
    e in t && size <= e.size && forall f :: f in t && size <= f.size ==> e.size <= f.size
  }

  /** get_elem: best-fit extraction.  The entry returned is large enough and no entry
      left behind is both large enough and smaller; size 0 means nothing fits. */
  method GetElem(size: nat, t: seq<Avail>) returns (val: Avail, rest: seq<Avail>)
    requires Tidy(t)
    ensures Tidy(rest)
    ensures val.size == 0 <==> !Fits(t, size)
    ensures val.size == 0 ==> rest == t && val == Avail(0, 0)
    ensures val.size != 0 ==> BestFit(t, size, val)
    ensures val.size != 0 ==> val in t && size <= val.size && |rest| == |t| - 1 && val.size > IGNORE_SIZE
    ensures val.size != 0 ==> multiset(rest) == multiset(t) - multiset{val}
    ensures forall x: nat :: Cover(rest, x) + In(val, x) == Cover(t, x)
  {
    hide Cover;
    var index := Lookup(size, t);
    if index >= |t| {
      return Avail(0, 0), t;
    }
    val := t[index];
    rest := Without(t, index);
    WithoutMultiset(t, index);
    assert val in t;
    forall x: nat
      ensures Cover(rest, x) + In(val, x) == Cover(t, x)
    {
      CoverWithout(t, index, x);
    }
  }

  /** One step of the coalescing loop: the entry at `i` touches `el` and is absorbed. */
  function Absorb(el: Avail, e: Avail): (m: Avail) {
    Avail(el.size + e.size, if e.adr + e.size == el.adr then e.adr else el.adr)
  }

  ghost predicate Touches(el: Avail, e: Avail) {
    e.adr + e.size == el.adr || el.adr + el.size == e.adr
  }

  ghost predicate Untouched(el: Avail, t: seq<Avail>) {
    forall k :: 0 <= k < |t| ==> !Touches(el, t[k])
  }

  /** `e` has joined the table, byte for byte and in the order of size: as an entry of its own,
      or, if merging is allowed, as part of what it touches. */
  ghost predicate Gains(t: seq<Avail>, e: Avail, r: seq<Avail>, canMerge: bool) {
    && Sorted(r) && (forall x: nat :: Cover(r, x) == Cover(t, x) + In(e, x))
    && (if canMerge && !Untouched(e, t) then |r| <= |t| else multiset(r) == multiset(t) + multiset{e})
    && (canMerge && Coalesced(t) ==> Coalesced(r))
  }

  /** Entries added to `t` one after the other touch nothing that is there. */
  ghost predicate AddsApart(t: seq<Avail>, more: seq<Avail>) {
    forall i :: 0 <= i < |more| ==> Untouched(more[i], t) && Untouched(more[i], more[..i])
  }

  lemma UntouchedMembers(el: Avail, t: seq<Avail>)
    ensures Untouched(el, t) <==> forall e :: e in multiset(t) ==> !Touches(el, e)
  {
    forall k | 0 <= k < |t|
      ensures t[k] in multiset(t)
    {
    }
  }

  lemma UntouchedPermuted(el: Avail, s: seq<Avail>, t: seq<Avail>, u: seq<Avail>)
    requires multiset(s) == multiset(t) + multiset(u)
    ensures Untouched(el, s) <==> Untouched(el, t) && Untouched(el, u)
  {
    UntouchedMembers(el, s);
    UntouchedMembers(el, t);
    UntouchedMembers(el, u);
  }

  /** `r` is `t` with the entries of `more` added one after the other: the same bytes, and a
      place of its own for every entry exactly if no two of them touch. */
  ghost predicate Merged(t: seq<Avail>, more: seq<Avail>, r: seq<Avail>) {
    && (forall x: nat :: Cover(r, x) == Cover(t, x) + Cover(more, x))
    && |r| <= |t| + |more|
    && (|r| == |t| + |more| <==> AddsApart(t, more))
    && (|r| == |t| + |more| ==> multiset(r) == multiset(t) + multiset(more))
  }

  lemma MergedNone(t: seq<Avail>)
    ensures Merged(t, [], t)
  {
  }

  lemma AddsApartNext(t: seq<Avail>, more: seq<Avail>, e: Avail)
    ensures AddsApart(t, more + [e]) <==> AddsApart(t, more) && Untouched(e, t) && Untouched(e, more)
  {
    var l := more + [e];
    assert forall i :: 0 <= i < |more| ==> l[i] == more[i] && l[..i] == more[..i];
    assert l[|more|] == e && l[..|more|] == more;
  }

  lemma MergedNext(t: seq<Avail>, more: seq<Avail>, s: seq<Avail>, e: Avail, r: seq<Avail>)
    requires Merged(t, more, s) && |r| <= |s| + 1
    requires forall x: nat :: Cover(r, x) == Cover(s, x) + In(e, x)
    requires |r| == |s| + 1 <==> Untouched(e, s)
    requires |r| == |s| + 1 ==> multiset(r) == multiset(s) + multiset{e}
    ensures Merged(t, more + [e], r)
  {
    hide Untouched, AddsApart;
    AddsApartNext(t, more, e);
    if |s| == |t| + |more| {
      UntouchedPermuted(e, s, t, more);
    }
    forall x: nat
      ensures Cover(r, x) == Cover(t, x) + Cover(more + [e], x)
    {
      CoverConcat(more, [e], x);
    }
  }

  lemma {:induction false} AbsorbStep(t: seq<Avail>, i: nat, el: Avail)
    requires i < |t| && Touches(el, t[i]) && Tidy(t)
    ensures Tidy(Without(t, i))
    ensures forall x: nat :: Cover(Without(t, i), x) + In(Absorb(el, t[i]), x) == Cover(t, x) + In(el, x)
  {
    forall x: nat
      ensures Cover(Without(t, i), x) + In(Absorb(el, t[i]), x) == Cover(t, x) + In(el, x)
    {
      CoverWithout(t, i, x);
    }
  }

  /** The coalescing loop's view of a table that had nothing to coalesce: an end of the
      growing region that has moved touches no entry, and scanned entries touch neither end. */
  ghost predicate Merging(newEl: Avail, r: seq<Avail>, el: Avail, i: nat) {
    && i <= |r|
    && Coalesced(r)
    && (el.adr == newEl.adr || forall k :: 0 <= k < |r| ==> r[k].adr + r[k].size != el.adr)
    && (el.adr + el.size == newEl.adr + newEl.size || forall k :: 0 <= k < |r| ==> r[k].adr != el.adr + el.size)
    && (forall k :: 0 <= k < i ==> !Touches(el, r[k]))
  }

  lemma CoalescedWithout(r: seq<Avail>, i: nat)
    requires Coalesced(r) && i < |r|
    ensures Coalesced(Without(r, i))
    ensures forall k :: 0 <= k < |Without(r, i)| ==>
              var e := Without(r, i)[k]; e.adr + e.size != r[i].adr && r[i].adr + r[i].size != e.adr
  {
    var s := Without(r, i);
    forall a, b | 0 <= a < |s| && 0 <= b < |s| && a != b
      ensures s[a].adr + s[a].size != s[b].adr
    {
      var a', b' := if a < i then a else a + 1, if b < i then b else b + 1;
      assert s[a] == r[a'] && s[b] == r[b'];
    }
    forall k | 0 <= k < |s|
      ensures s[k].adr + s[k].size != r[i].adr && r[i].adr + r[i].size != s[k].adr
    {
      var k' := if k < i then k else k + 1;
      assert s[k] == r[k'];
    }
  }

  lemma {:induction false} MergingStep(newEl: Avail, r: seq<Avail>, el: Avail, i: nat)
    requires Merging(newEl, r, el, i) && i < |r| && Touches(el, r[i])
    requires el.size > 0 && r[i].size > 0
    ensures Merging(newEl, Without(r, i), Absorb(el, r[i]), i)
  {
    CoalescedWithout(r, i);
    hide Coalesced;
  }

  lemma MergingStart(newEl: Avail, t: seq<Avail>)
    requires Coalesced(t)
    ensures Merging(newEl, t, newEl, 0)
  {
  }

  lemma MergingPast(newEl: Avail, r: seq<Avail>, el: Avail, i: nat)
    requires Merging(newEl, r, el, i) && i < |r| && !Touches(el, r[i])
    ensures Merging(newEl, r, el, i + 1)
  {
  }

  /** The coalescing loop of _gdbm_put_av_elem. */
  method Coalesce(newEl: Avail, t: seq<Avail>) returns (el: Avail, r: seq<Avail>)
    requires Tidy(t) && newEl.size > IGNORE_SIZE
    ensures Tidy(r) && |r| <= |t| && el.size > IGNORE_SIZE
    ensures forall x: nat :: Cover(r, x) + In(el, x) == Cover(t, x) + In(newEl, x)
    ensures Coalesced(t) ==> Merging(newEl, r, el, |r|)
    ensures |r| == |t| <==> Untouched(newEl, t)
    ensures |r| == |t| ==> r == t && el == newEl
  {
    hide Cover, Merging, Coalesced, Sorted;
    el, r := newEl, t;
    var i := 0;
    if Coalesced(t) {
      MergingStart(newEl, t);
    }
    while i < |r|
      invariant 0 <= i <= |r| <= |t|
      invariant Tidy(r) && el.size > IGNORE_SIZE
      invariant forall x: nat :: Cover(r, x) + In(el, x) == Cover(t, x) + In(newEl, x)
      invariant Coalesced(t) ==> Merging(newEl, r, el, i)
      invariant |r| == |t| ==> r == t && el == newEl && forall k :: 0 <= k < i ==> !Touches(newEl, t[k])
      invariant |r| < |t| ==> !Untouched(newEl, t)
      decreases |r| - i
    {
      if r[i].adr + r[i].size == el.adr || el.adr + el.size == r[i].adr {
        AbsorbStep(r, i, el);
        if Coalesced(t) {
          MergingStep(newEl, r, el, i);
        }
        el, r := Absorb(el, r[i]), Without(r, i);
      } else {
        if Coalesced(t) {
          MergingPast(newEl, r, el, i);
        }
        i := i + 1;
      }
    }
  }

  function Inserted(t: seq<Avail>, i: nat, e: Avail): (r: seq<Avail>)
    requires i <= |t|
    ensures |r| == |t| + 1
    ensures forall k :: 0 <= k < |r| ==> r[k] == if k < i then t[k] else if k == i then e else t[k - 1]
  {
    t[..i] + [e] + t[i..]
  }

  lemma {:induction false} InsertedTidy(t: seq<Avail>, i: nat, e: Avail)
    requires i <= |t| && Tidy(t) && e.size > IGNORE_SIZE
    requires forall k :: 0 <= k < i ==> t[k].size <= e.size
    requires forall k :: i <= k < |t| ==> e.size <= t[k].size
    ensures Tidy(Inserted(t, i, e))
  {
  }

  lemma {:induction false} InsertedCover(t: seq<Avail>, i: nat, e: Avail)
    requires i <= |t|
    ensures forall x: nat :: Cover(Inserted(t, i, e), x) == Cover(t, x) + In(e, x)
    ensures multiset(Inserted(t, i, e)) == multiset(t) + multiset{e}
  {
    assert t == t[..i] + t[i..];
    forall x: nat
      ensures Cover(Inserted(t, i, e), x) == Cover(t, x) + In(e, x)
    {
      CoverInsert(t, i, e, x);
    }
  }

  lemma {:induction false} InsertedCoalesced(t: seq<Avail>, i: nat, e: Avail)
    requires i <= |t| && Coalesced(t) && forall k :: 0 <= k < |t| ==> !Touches(e, t[k])
    ensures Coalesced(Inserted(t, i, e))
  {
    var r := Inserted(t, i, e);
    forall a, b | 0 <= a < |r| && 0 <= b < |r| && a != b
      ensures r[a].adr + r[a].size != r[b].adr
    {
      if a == i {
        assert r[b] == t[if b < i then b else b - 1];
      } else if b == i {
        assert r[a] == t[if a < i then a else a - 1];
      } else {
        assert r[a] == t[if a < i then a else a - 1] && r[b] == t[if b < i then b else b - 1];
      }
    }
  }

  /** _gdbm_put_av_elem: insertion at the place the bisection finds, coalescing first with
      every neighbour when asked to. */
  method PutElem(newEl: Avail, t: seq<Avail>, canMerge: bool) returns (r: seq<Avail>)
    requires Tidy(t)
    ensures Tidy(r)
    ensures newEl.size <= IGNORE_SIZE ==> r == t
    ensures newEl.size > IGNORE_SIZE ==> forall x: nat :: Cover(r, x) == Cover(t, x) + In(newEl, x)
    ensures newEl.size > IGNORE_SIZE ==> Gains(t, newEl, r, canMerge)
    ensures newEl.size > IGNORE_SIZE ==> 1 <= |r| <= |t| + 1
    ensures newEl.size > IGNORE_SIZE ==> (|r| == |t| + 1 <==> !canMerge || Untouched(newEl, t))
    ensures |r| == |t| + 1 ==> multiset(r) == multiset(t) + multiset{newEl}
    ensures newEl.size > IGNORE_SIZE && canMerge && Coalesced(t) ==> Coalesced(r)
  {
    if newEl.size <= IGNORE_SIZE {
      return t;
    }
    var el := newEl;
    r := t;
    if canMerge {
      el, r := Coalesce(newEl, t);
    }
    var index := Lookup(el.size, r);
    InsertedTidy(r, index, el);
    InsertedCover(r, index, el);
    if canMerge && Coalesced(t) {
      InsertedCoalesced(r, index, el);
    }
    r := Inserted(r, index, el);
  }
}
