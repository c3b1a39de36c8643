/**
 log2i (src/bucket.c): the exponent of the least power of two that is not below a number, found
 by filling in bits and a perfect hash of the 32 powers.
 */
module Logarithm {
  const DBP: seq<bv32> :=
    [0, 1, 28, 2, 29, 14, 24, 3, 30, 22, 20, 15, 25, 17, 4, 8,
     31, 27, 13, 23, 21, 19, 16, 7, 26, 12, 18, 6, 11, 5, 10, 9]

  /** The number, rounded up to a power of two. */
  function Smear(v: bv32): bv32 {
    var a := v - 1;
    var b := a | (a >> 1);
    var c := b | (b >> 2);
    var d := c | (c >> 4);
    var e := d | (d >> 8);
    var f := e | (e >> 16);
    f + 1
  }

  function TableIndex(p: bv32): (i: bv5) {
    ((p * 0x077C_B531) >> 27) as bv5
  }

  function Log2i(v: bv32): bv32 {
    DBP[TableIndex(Smear(v)) as int]
  }

  /** What the filling in achieves. */
  lemma Smeared(v: bv32)
    requires 1 <= v <= 0x8000_0000
    ensures Smear(v) != 0 && Smear(v) & (Smear(v) - 1) == 0 && v <= Smear(v) && Smear(v) >> 1 < v
  {
  }

  /** The table is right for a power of two. */
  lemma PowerFound(p: bv32)
    requires p != 0 && p & (p - 1) == 0
    ensures var r := DBP[TableIndex(p) as int]; r < 32 && p == 1 << r
  {
    OneBit(p);
    assert TableIndex(0x1) == 0 && TableIndex(0x2) == 1 && TableIndex(0x4) == 3 && TableIndex(0x8) == 7
        && TableIndex(0x10) == 14 && TableIndex(0x20) == 29 && TableIndex(0x40) == 27 && TableIndex(0x80) == 23;
    assert TableIndex(0x100) == 15 && TableIndex(0x200) == 31 && TableIndex(0x400) == 30
        && TableIndex(0x800) == 28 && TableIndex(0x1000) == 25 && TableIndex(0x2000) == 18 && TableIndex(0x4000) == 5
        && TableIndex(0x8000) == 11;
    assert TableIndex(0x10000) == 22 && TableIndex(0x20000) == 13 && TableIndex(0x40000) == 26
        && TableIndex(0x80000) == 21 && TableIndex(0x100000) == 10 && TableIndex(0x200000) == 20
        && TableIndex(0x400000) == 9 && TableIndex(0x800000) == 19;
    assert TableIndex(0x1000000) == 6 && TableIndex(0x2000000) == 12 && TableIndex(0x4000000) == 24
        && TableIndex(0x8000000) == 17 && TableIndex(0x10000000) == 2 && TableIndex(0x20000000) == 4
        && TableIndex(0x40000000) == 8 && TableIndex(0x80000000) == 16;
  }

  lemma OneBit(p: bv32)
    requires p != 0 && p & (p - 1) == 0
    ensures p == 0x1 || p == 0x2 || p == 0x4 || p == 0x8 || p == 0x10 || p == 0x20 || p == 0x40 || p == 0x80
        || p == 0x100 || p == 0x200 || p == 0x400 || p == 0x800 || p == 0x1000 || p == 0x2000 || p == 0x4000
            || p == 0x8000 || p == 0x10000 || p == 0x20000 || p == 0x40000 || p == 0x80000 || p == 0x100000
                || p == 0x200000 || p == 0x400000 || p == 0x800000 || p == 0x1000000 || p == 0x2000000
                    || p == 0x4000000 || p == 0x8000000 || p == 0x10000000 || p == 0x20000000 || p == 0x40000000
                        || p == 0x80000000
  {
  }

  /** The logarithm, rounded up. */
  lemma Ceiling(v: bv32)
    requires 1 <= v <= 0x8000_0000
    ensures var r := Log2i(v); r < 32 && (1 << r) >> 1 < v <= 1 << r
  {
    Smeared(v);
    PowerFound(Smear(v));
  }

  const INIT_CACHE_BITS: bv32 := 9

  /** _gdbm_cache_init on a database that has no cache yet: the bits for a cache of `size`
      buckets, at least four; for 0 the cache starts small and resizes itself. */
  function CacheBits(size: bv32): bv32 {
    if size == 0 then INIT_CACHE_BITS else Log2i(if size < 4 then 4 else size)
  }

  /** The cache has room for at least as many buckets as were asked for, and for four. */
  lemma CacheBitsFit(size: bv32)
    requires size <= 0x8000_0000
    ensures var r := CacheBits(size); 2 <= r < 32 && size <= 1 << r && (size > 4 ==> (1 << r) >> 1 < size)
  {
    hide Log2i;
    if size != 0 {
      Ceiling(if size < 4 then 4 else size);
    }
  }
}
