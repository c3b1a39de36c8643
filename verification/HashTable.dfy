/**
 The open-addressed table inside a bucket: linear probing, insertion (src/gdbmstore.c,
 src/bucket.c) and backward-shift deletion (src/gdbmdelete.c).
 */
module HashTable {
  import opened Layout

  /** The slot after `i`, cyclically. */
  function Next(i: nat, n: nat): (r: nat)
    requires i < n
    ensures r == if i + 1 == n then 0 else i + 1
  {
    (i + 1) % n
  }

  function Home(s: Slot, n: nat): (h: nat)
    requires s.Elem? && n > 0
    ensures h < n
  {
    s.hash % n
  }

  /** Steps needed to walk forward from `a` to `b`. */
  function Dist(a: nat, b: nat, n: nat): (d: nat)
    requires a < n && b < n
    ensures d < n && (d == 0 <==> a == b)
  {
    if a <= b then b - a else b + n - a
  }

  /** `x` is passed on the way from `h` to `i`. */
  ghost predicate OnPath(h: nat, x: nat, i: nat, n: nat)
    requires h < n && x < n && i < n
  {
    Dist(h, x, n) < Dist(h, i, n)
  }

  /** Probing from the home slot reaches slot `i` without meeting an empty slot. */
  ghost predicate Reachable(t: seq<Slot>, i: nat)
    requires i < |t| && t[i].Elem?
  {
    forall x :: 0 <= x < |t| && OnPath(Home(t[i], |t|), x, i, |t|) ==> t[x].Elem?
  }

  /** Every element can be found by probing. */
  ghost predicate Probeable(t: seq<Slot>) {
    forall i :: 0 <= i < |t| && t[i].Elem? ==> Reachable(t, i)
  }

  ghost function Occupied(t: seq<Slot>): (n: int) {
    |t| - multiset(t)[Empty]
  }

  // ----- insertion -----

  /** The probe loop of gdbm_store and of the redistribution in a split: the first empty slot
      from the home slot of `hash` on.  A full table is reported as -1. */
  method FindEmpty(t: seq<Slot>, hash: nat) returns (loc: int)
    requires |t| > 0
    ensures loc == -1 <==> Empty !in t
    ensures loc != -1 ==> 0 <= loc < |t| && t[loc].Empty?
    ensures loc != -1 ==> forall x :: 0 <= x < |t| && OnPath(hash % |t|, x, loc, |t|) ==> t[x].Elem?
  {
    var start := hash % |t|;
    loc := start;
    ghost var steps := 0;
    while t[loc].Elem?
      invariant 0 <= loc < |t| && steps == Dist(start, loc, |t|)
      invariant forall x :: 0 <= x < |t| && Dist(start, x, |t|) < steps ==> t[x].Elem?
      decreases |t| - steps
    {
      loc := Next(loc, |t|);
      if loc == start {
        assert forall x :: 0 <= x < |t| ==> t[x].Elem?;
        return -1;
      }
      steps := steps + 1;
    }
  }

  lemma Inserted(t: seq<Slot>, loc: nat, s: Slot)
    requires Probeable(t) && loc < |t| && t[loc].Empty? && s.Elem?
    requires forall x :: 0 <= x < |t| && OnPath(Home(s, |t|), x, loc, |t|) ==> t[x].Elem?
    ensures Probeable(t[loc := s])
    ensures multiset(t[loc := s]) == multiset(t) - multiset{Empty} + multiset{s}
    ensures Occupied(t[loc := s]) == Occupied(t) + 1
  {
    var r := t[loc := s];
    forall i | 0 <= i < |r| && r[i].Elem?
      ensures Reachable(r, i)
    {
      if i != loc {
        assert Reachable(t, i);
      }
    }
  }

  // ----- backward-shift deletion -----

  /** Slot `hole` is empty; the `done` slots from it on are settled.  Paths run over occupied
      slots or the hole, and only elements further on may still depend on the hole. */
  ghost predicate Shifting(t: seq<Slot>, hole: nat, done: nat) {
    && hole < |t| && t[hole].Empty? && 1 <= done <= |t|
    && (forall i, x :: 0 <= i < |t| && t[i].Elem? && 0 <= x < |t| && OnPath(Home(t[i], |t|), x, i, |t|) ==>
          t[x].Elem? || x == hole)
    && (forall i :: 0 <= i < |t| && t[i].Elem? && Dist(hole, i, |t|) < done ==>
          !OnPath(Home(t[i], |t|), hole, i, |t|))
  }

  /** The test of gdbm_delete, line by line. */
  predicate MustMove(home: nat, hole: nat, loc: nat) {
    || (hole < loc && (home <= hole || home > loc))
    || (hole > loc && home <= hole && home > loc)
  }

  lemma MustMoveMeaning(home: nat, hole: nat, loc: nat, n: nat)
    requires home < n && hole < n && loc < n && hole != loc
    ensures MustMove(home, hole, loc) <==> OnPath(home, hole, loc, n)
  {
  }

  /** Sum of all elements' distances from home: what the shift reduces. */
  ghost function Displacement(t: seq<Slot>, n: nat, k: nat): nat
    requires k <= |t| && |t| <= n && n > 0
  {
    if k == 0 then 0 else Displacement(t, n, k - 1) + Away(t[k - 1], k - 1, n)
  }

  ghost function Away(s: Slot, i: nat, n: nat): nat
    requires i < n
  {
    if s.Elem? then Dist(Home(s, n), i, n) else 0
  }

  lemma {:induction false} DisplacementUpdate(t: seq<Slot>, n: nat, k: nat, i: nat, s: Slot)
    requires k <= |t| && |t| <= n && n > 0 && i < |t|
    ensures Displacement(t[i := s], n, k) ==
            Displacement(t, n, k) + if i < k then Away(s, i, n) - Away(t[i], i, n) else 0
    decreases k
  {
    if k > 0 {
      DisplacementUpdate(t, n, k - 1, i, s);
    }
  }

  /** Moving the element at `loc` into the hole. */
  ghost function Moved(t: seq<Slot>, hole: nat, loc: nat): seq<Slot>
    requires hole < |t| && loc < |t|
  {
    t[hole := t[loc]][loc := Empty]
  }

  lemma MoveStep(t: seq<Slot>, hole: nat, done: nat, loc: nat)
    requires Shifting(t, hole, done) && loc < |t| && t[loc].Elem? && loc != hole
    requires OnPath(Home(t[loc], |t|), hole, loc, |t|)
    ensures Shifting(Moved(t, hole, loc), loc, 1)
    ensures multiset(Moved(t, hole, loc)) == multiset(t)
    ensures Displacement(Moved(t, hole, loc), |t|, |t|) < Displacement(t, |t|, |t|)
  {
    var n := |t|;
    var u := t[hole := t[loc]];
    var r := u[loc := Empty];
    DisplacementUpdate(t, n, n, hole, t[loc]);
    DisplacementUpdate(u, n, n, loc, Empty);
    forall i, x | 0 <= i < n && r[i].Elem? && 0 <= x < n && OnPath(Home(r[i], n), x, i, n)
      ensures r[x].Elem? || x == loc
    {
      if i == hole {
        assert OnPath(Home(t[loc], n), x, loc, n);
      } else {
        assert t[i] == r[i];
      }
    }
  }

  lemma SettleStep(t: seq<Slot>, hole: nat, done: nat, loc: nat)
    requires Shifting(t, hole, done) && loc < |t| && loc != hole && Dist(hole, loc, |t|) == done
    requires t[loc].Elem? && !OnPath(Home(t[loc], |t|), hole, loc, |t|)
    ensures done < |t| && Shifting(t, hole, done + 1)
  {
  }

  /** Once the scan meets an empty slot or has gone all the way round, no element depends on
      the hole any more. */
  lemma ShiftDone(t: seq<Slot>, hole: nat, done: nat)
    requires Shifting(t, hole, done)
    requires done == |t| || exists p :: 0 <= p < |t| && p != hole && t[p].Empty? && Dist(hole, p, |t|) == done
    ensures Probeable(t)
  {
    var n := |t|;
    forall i | 0 <= i < n && t[i].Elem?
      ensures Reachable(t, i)
    {
      var h := Home(t[i], n);
      if OnPath(h, hole, i, n) {
        var p :| 0 <= p < n && p != hole && t[p].Empty? && Dist(hole, p, n) == done;
        assert OnPath(h, p, i, n);
      }
    }
  }

  lemma Emptied(t: seq<Slot>, loc: nat)
    requires Probeable(t) && loc < |t| && t[loc].Elem?
    ensures Shifting(t[loc := Empty], loc, 1)
  {
    var r := t[loc := Empty];
    forall i, x | 0 <= i < |r| && r[i].Elem? && 0 <= x < |r| && OnPath(Home(r[i], |r|), x, i, |r|)
      ensures r[x].Elem? || x == loc
    {
      assert Reachable(t, i);
    }
  }

  /** The deletion loop of gdbm_delete, in place.  Exactly the element at `loc` disappears and
      every other element can still be found; the loop ends even on a table that was full. */
  method RemoveAt(h: array<Slot>, loc: nat)
    requires loc < h.Length && h[loc].Elem? && Probeable(h[..])
    modifies h
    ensures Probeable(h[..])
    ensures multiset(h[..]) == multiset(old(h[..])) - multiset{old(h[loc])} + multiset{Empty}
  {
    hide Shifting, Probeable, Displacement, OnPath, Home, MustMove;
    var n := h.Length;
    ghost var t := h[..];
    Emptied(t, loc);
    h[loc] := Empty;
    t := t[loc := Empty];
    assert h[..] == t;
    ghost var all := multiset(t);
    var last: nat, p: nat := loc, Next(loc, n);
    ghost var done := 1;
    while p != last && h[p].Elem?
      invariant last < n && p < n && t == h[..] && Shifting(t, last, done) && t[last].Empty?
      invariant 1 <= done <= n && (if p == last then done == n else done == Dist(last, p, n))
      invariant multiset(t) == all
      decreases Displacement(t, n, n), n - done
    {
      var home := Home(h[p], n);
      MustMoveMeaning(home, last, p, n);
      if MustMove(home, last, p) {
        MoveStep(t, last, done, p);
        h[last] := h[p];
        h[p] := Empty;
        t := Moved(t, last, p);
        assert h[..] == t;
        last, done := p, 1;
      } else {
        SettleStep(t, last, done, p);
        done := done + 1;
      }
      p := Next(p, n);
    }
    ShiftDone(t, last, done);
  }
}
