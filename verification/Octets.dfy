/**
 The shifts and masks with which src/base64.c takes octets apart into sextets and puts them
 together again, as divisions and remainders.
 */
module Octets {
  type octet = b: int | 0 <= b < 256
  type sextet = b: int | 0 <= b < 64

  lemma Halved(x: bv8)
    ensures (x >> 1) as int == x as int / 2 && (x & 0x1) as int == x as int % 2
  {
  }

  /** The bits of an octet. */
  function Bits(a: octet): (x: bv8)
    ensures x as int == a
  {
    if a == 0 then 0
    else
      var y := Bits(a / 2);
      var r := if a % 2 == 1 then (y << 1) | 1 else y << 1;
      Narrow(y);
      assert r >> 1 == y && r & 0x1 == if a % 2 == 1 then 1 else 0;
      Halved(r);
      r
  }

  lemma Narrow(x: bv8)
    requires x as int < 128
    ensures x < 128
  {
    assert (x >> 7) as int == x as int / 128;
    assert x >> 7 == 0;
  }

  lemma High2(x: bv8)
    ensures (x >> 2) as int == x as int / 4
  {
  }

  lemma High4(x: bv8)
    ensures (x >> 4) as int == x as int / 16
  {
  }

  lemma High6(x: bv8)
    ensures (x >> 6) as int == x as int / 64
  {
  }

  lemma Low2(x: bv8)
    ensures (x & 0x3) as int == x as int % 4
  {
  }

  lemma Low4(x: bv8)
    ensures (x & 0xf) as int == x as int % 16
  {
  }

  lemma Low6(x: bv8)
    ensures (x & 0x3f) as int == x as int % 64
  {
  }

  lemma Small(a: sextet)
    ensures Bits(a) < 64
  {
    High6(Bits(a));
    assert Bits(a) >> 6 == 0;
  }

  // ----- the four sextets of three octets -----

  function Sextet0(a: octet): (v: sextet)
    ensures v == a / 4
  {
    High2(Bits(a));
    (Bits(a) >> 2) as int
  }

  lemma Join1(x: bv8, y: bv8)
    ensures (((x << 4) & 0x30) | (y >> 4)) as int == (x as int % 4) * 16 + y as int / 16
  {
    var r := ((x << 4) & 0x30) | (y >> 4);
    assert r >> 4 == x & 0x3 && r & 0xf == y >> 4;
    Low2(x);
    High4(y);
    High4(r);
    Low4(r);
  }

  function Sextet1(a: octet, b: octet): (v: sextet)
    ensures v == (a % 4) * 16 + b / 16
  {
    Join1(Bits(a), Bits(b));
    (((Bits(a) << 4) & 0x30) | (Bits(b) >> 4)) as int
  }

  lemma Join2(x: bv8, y: bv8)
    ensures (((x << 2) & 0x3c) | (y >> 6)) as int == (x as int % 16) * 4 + y as int / 64
  {
    var r := ((x << 2) & 0x3c) | (y >> 6);
    assert r >> 2 == x & 0xf && r & 0x3 == y >> 6;
    Low4(x);
    High6(y);
    High2(r);
    Low2(r);
  }

  function Sextet2(b: octet, c: octet): (v: sextet)
    ensures v == (b % 16) * 4 + c / 64
  {
    Join2(Bits(b), Bits(c));
    (((Bits(b) << 2) & 0x3c) | (Bits(c) >> 6)) as int
  }

  function Sextet3(c: octet): (v: sextet)
    ensures v == c % 64
  {
    Low6(Bits(c));
    (Bits(c) & 0x3f) as int
  }

  // ----- the three octets of four sextets -----

  lemma Glue0(x: bv8, y: bv8)
    requires x < 64 && y < 64
    ensures ((x << 2) | (y >> 4)) as int == x as int * 4 + y as int / 16
  {
    var r := (x << 2) | (y >> 4);
    assert r >> 2 == x && r & 0x3 == y >> 4;
    High4(y);
    High2(r);
    Low2(r);
  }

  function Octet0(v: sextet, w: sextet): (a: octet)
    ensures a == v * 4 + w / 16
  {
    Small(v);
    Small(w);
    Glue0(Bits(v), Bits(w));
    ((Bits(v) << 2) | (Bits(w) >> 4)) as int
  }

  lemma Glue1(x: bv8, y: bv8)
    requires y < 64
    ensures (((x << 4) & 0xf0) | (y >> 2)) as int == (x as int % 16) * 16 + y as int / 4
  {
    var r := ((x << 4) & 0xf0) | (y >> 2);
    assert r >> 4 == x & 0xf && r & 0xf == y >> 2;
    Low4(x);
    High2(y);
    High4(r);
    Low4(r);
  }

  function Octet1(v: sextet, w: sextet): (b: octet)
    ensures b == (v % 16) * 16 + w / 4
  {
    Small(w);
    Glue1(Bits(v), Bits(w));
    (((Bits(v) << 4) & 0xf0) | (Bits(w) >> 2)) as int
  }

  lemma Glue2(x: bv8, y: bv8)
    requires y < 64
    ensures (((x << 6) & 0xc0) | y) as int == (x as int % 4) * 64 + y as int
  {
    var r := ((x << 6) & 0xc0) | y;
    assert r >> 6 == x & 0x3 && r & 0x3f == y;
    Low2(x);
    High6(r);
    Low6(r);
  }

  function Octet2(v: sextet, w: sextet): (c: octet)
    ensures c == (v % 4) * 64 + w
  {
    Small(w);
    Glue2(Bits(v), Bits(w));
    (((Bits(v) << 6) & 0xc0) | Bits(w)) as int
  }
}
