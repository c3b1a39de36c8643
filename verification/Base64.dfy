/**
 The base64 coder of src/base64.c (section 4 of RFC 4648).
 */
module Base64 {
  import opened Layout
  import opened Octets

  type Text = seq<char>

  // ----- the alphabet -----

  function B64Char(v: nat): (c: char)
    requires v < 64
  {
    if v < 26 then 'A' + v as char
    else if v < 52 then 'a' + (v - 26) as char
    else if v < 62 then '0' + (v - 52) as char
    else if v == 62 then '+' else '/'
  }

  /** b64val; characters beyond 127 have no value either. */
  function B64Val(c: char): (v: int)
    ensures -1 <= v < 64
  {
    if 'A' <= c <= 'Z' then c as int - 'A' as int
    else if 'a' <= c <= 'z' then c as int - 'a' as int + 26
    else if '0' <= c <= '9' then c as int - '0' as int + 52
    else if c == '+' then 62 else if c == '/' then 63 else -1
  }

  /** Table 1 of RFC 4648, eight characters a line. */
  const ALPHABET: seq<Text> :=
    ["ABCDEFGH", "IJKLMNOP", "QRSTUVWX", "YZabcdef", "ghijklmn", "opqrstuv", "wxyz0123", "456789+/"]

  function Letter(v: nat): (c: char)
    requires v < 64
  {
    ALPHABET[v / 8][v % 8]
  }

  /** The coder uses that table. */
  lemma Table(v: nat)
    requires v < 64
    ensures B64Char(v) == Letter(v)
  {
  }

  /** A character has the value of its place in the table, and none if it is not there. */
  lemma Values(c: char)
    ensures forall v: nat | v < 64 :: B64Val(c) == v <==> c == Letter(v)
    ensures B64Val(c) == -1 <==> forall v: nat | v < 64 :: c != Letter(v)
  {
    hide B64Val, Letter;
    forall v: nat | v < 64
      ensures B64Val(c) == v <==> c == Letter(v)
    {
      Table(v);
      Alphabet(v);
      if B64Val(c) == v { Unread(c); }
    }
    if B64Val(c) != -1 {
      var v: nat := B64Val(c);
      assert c == Letter(v);
    }
  }

  lemma Unread(c: char)
    requires B64Val(c) >= 0
    ensures B64Char(B64Val(c)) == c
  {
  }

  /** The two tables are inverse to each other; no letter is a pad, a line end or a comment mark. */
  lemma Alphabet(v: nat)
    requires v < 64
    ensures B64Val(B64Char(v)) == v && B64Char(v) !in {'=', '\n', '#', '\0'}
  {
  }

  // ----- specification -----

  /** The k-th six bits of three bytes. */
  function Field(a: byte, b: byte, c: byte, k: nat): (v: nat)
    ensures v < 64
  {
    if k == 0 then a / 4 else if k == 1 then (a % 4) * 16 + b / 16
    else if k == 2 then (b % 16) * 4 + c / 64 else c % 64
  }

  function Encode3(a: byte, b: byte, c: byte): (t: Text)
    ensures |t| == 4
  {
    [B64Char(Field(a, b, c, 0)), B64Char(Field(a, b, c, 1)), B64Char(Field(a, b, c, 2)), B64Char(Field(a, b, c, 3))]
  }

  function EncodeTail(s: seq<byte>): (t: Text)
    requires |s| < 3
    ensures |t| == if |s| == 0 then 0 else 4
  {
    if |s| == 0 then []
    else
      var a, b := s[0], if |s| == 2 then s[1] else 0;
      [B64Char(Field(a, b, 0, 0)), B64Char(Field(a, b, 0, 1)),
       if |s| == 2 then B64Char(Field(a, b, 0, 2)) else '=', '=']
  }

  function Encoded(s: seq<byte>): (t: Text)
    ensures |t| == 4 * ((|s| + 2) / 3)
  {
    if |s| >= 3 then Encode3(s[0], s[1], s[2]) + Encoded(s[3..]) else EncodeTail(s)
  }

  /** One group of four characters; None if a character is out of place. */
  function DecodeGroup(t: Text): (r: Option<seq<byte>>)
    requires |t| == 4
    ensures r.Some? ==> 1 <= |r.value| <= 3
  {
    var v0, v1, v2, v3 := B64Val(t[0]), B64Val(t[1]), B64Val(t[2]), B64Val(t[3]);
    if v0 == -1 || v1 == -1 || (t[2] != '=' && v2 == -1) || (t[3] != '=' && v3 == -1) then None
    else
      Some([v0 * 4 + v1 / 16]
           + (if t[2] != '=' then [(v1 % 16) * 16 + v2 / 4] + (if t[3] != '=' then [(v2 % 4) * 64 + v3] else [])
               else []))
  }

  datatype Decoding = Decoding(ok: bool, bytes: seq<byte>, consumed: nat)

  function Decoded(t: Text): (d: Decoding)
    ensures d.consumed <= |t| && |d.bytes| <= d.consumed
  {
    if |t| < 4 then Decoding(true, [], 0)
    else
      var g := DecodeGroup(t[..4]);
      if g.None? then Decoding(false, [], 0)
      else
        var d := Decoded(t[4..]);
        Decoding(d.ok, g.value + d.bytes, 4 + d.consumed)
  }

  // ----- the loops -----

  /** _gdbm_base64_encode.  The output and its terminator fit the size computed for it. */
  method Encode(input: seq<byte>) returns (out: Text)
    ensures out == Encoded(input)
    ensures |out| + 1 <= 4 * (|input| + 2) / 3 + 1
  {
    hide Sextet0, Sextet1, Sextet2, Sextet3;
    out := [];
    var i := 0;
    while |input| - i >= 3
      invariant i <= |input| && out + Encoded(input[i..]) == Encoded(input)
    {
      var a, b, c := input[i], input[i + 1], input[i + 2];
      var group := [B64Char(Sextet0(a)), B64Char(Sextet1(a, b)), B64Char(Sextet2(b, c)), B64Char(Sextet3(c))];
      assert Encoded(input[i..]) == group + Encoded(input[i..][3..]);
      assert input[i..][3..] == input[i + 3..];
      out := out + group;
      i := i + 3;
    }
    if i < |input| {
      var last := EncodeLast(input[i..]);
      out := out + last;
    }
  }

  /** The last one or two bytes. */
  method EncodeLast(s: seq<byte>) returns (group: Text)
    requires 0 < |s| < 3
    ensures group == EncodeTail(s)
  {
    hide Sextet0, Sextet1, Sextet2;
    var a, b := s[0], if |s| > 1 then s[1] else 0;
    group := [B64Char(Sextet0(a)), B64Char(Sextet1(a, b)), if |s| < 2 then '=' else B64Char(Sextet2(b, 0)), '='];
  }

  /** The body of the decoder's loop. */
  method DecodeFour(t: Text) returns (r: Option<seq<byte>>)
    requires |t| == 4
    ensures r == DecodeGroup(t)
  {
    hide Octet0, Octet1, Octet2, B64Val;
    var v0, v1, v2, v3 := B64Val(t[0]), B64Val(t[1]), B64Val(t[2]), B64Val(t[3]);
    if v0 == -1 || v1 == -1 || (t[2] != '=' && v2 == -1) || (t[3] != '=' && v3 == -1) {
      return None;
    }
    var out := [Octet0(v0, v1)];
    if t[2] != '=' {
      out := out + [Octet1(v1, v2)];
      if t[3] != '=' {
        out := out + [Octet2(v2, v3)];
      }
    }
    assert out == DecodeGroup(t).value;
    return Some(out);
  }

  /** _gdbm_base64_decode.  The output fits a buffer of the input's size. */
  method Decode(input: Text) returns (d: Decoding)
    ensures d == Decoded(input) && |d.bytes| <= |input|
  {
    hide DecodeGroup;
    var out, i := [], 0;
    assert input[0..] == input;
    while |input| - i >= 4
      invariant i <= |input| && |out| <= i
      invariant var rest := Decoded(input[i..]);
                Decoded(input) == Decoding(rest.ok, out + rest.bytes, i + rest.consumed)
    {
      var g := DecodeFour(input[i..i + 4]);
      assert input[i..][..4] == input[i..i + 4] && input[i..][4..] == input[i + 4..];
      ghost var rest := Decoded(input[i + 4..]);
      assert g.Some? ==> out + (g.value + rest.bytes) == out + g.value + rest.bytes;
      if g.None? {
        return Decoding(false, out, i);
      }
      out := out + g.value;
      i := i + 4;
    }
    d := Decoding(true, out, i);
  }

  // ----- what the text means -----

  function ByteAt(s: seq<byte>, i: nat): byte {
    if i < |s| then s[i] else 0
  }

  /** Bits 6k to 6k + 5 of the bytes, the first bit being the highest of the first byte, with zeros
      after the end. */
  function SixBits(s: seq<byte>, k: nat): (v: nat)
    ensures v < 64
  {
    var i, skip := 6 * k / 8, 6 * k % 8;
    (256 * ByteAt(s, i) + ByteAt(s, i + 1)) / [1024, 256, 64, 16][skip / 2] % 64
  }

  /** The k-th character of an encoding is the letter of the k-th six bits, or a pad behind the last
      bit. */
  lemma {:induction false} EncodedAt(s: seq<byte>, k: nat)
    requires k < |Encoded(s)|
    ensures Encoded(s)[k] == if 6 * k < 8 * |s| then Letter(SixBits(s, k)) else '='
  {
    hide Letter, B64Char, SixBits;
    if |s| >= 3 && k >= 4 {
      EncodedAt(s[3..], k - 4);
      LaterBits(s, k);
    } else {
      FirstGroup(s, k);
    }
  }

  lemma LaterBits(s: seq<byte>, k: nat)
    requires |s| >= 3 && k >= 4
    ensures SixBits(s, k) == SixBits(s[3..], k - 4)
  {
    assert 6 * k == 6 * (k - 4) + 24;
  }

  lemma FirstGroup(s: seq<byte>, k: nat)
    requires k < 4 && 0 < |s|
    ensures Encoded(s)[k] == if 6 * k < 8 * |s| then Letter(SixBits(s, k)) else '='
  {
    hide Letter, B64Char, SixBits, Encoded;
    FirstBits(s, k);
    Table(SixBits(s, k));
    Shape(s, k);
  }

  lemma Shape(s: seq<byte>, k: nat)
    requires k < 4 && 0 < |s|
    ensures var v := Field(ByteAt(s, 0), ByteAt(s, 1), ByteAt(s, 2), k);
            v < 64 && Encoded(s)[k] == if 6 * k < 8 * |s| then B64Char(v) else '='
  {
    hide B64Char, Field, Encode3, EncodeTail;
    if |s| >= 3 {
      ShapeThree(s[0], s[1], s[2], k);
      assert Encoded(s) == Encode3(s[0], s[1], s[2]) + Encoded(s[3..]);
    } else {
      ShapeTail(s, k);
    }
  }

  lemma ShapeThree(a: byte, b: byte, c: byte, k: nat)
    requires k < 4
    ensures Encode3(a, b, c)[k] == B64Char(Field(a, b, c, k))
  {
    hide B64Char, Field;
  }

  lemma ShapeTail(s: seq<byte>, k: nat)
    requires k < 4 && 0 < |s| < 3
    ensures EncodeTail(s)[k] ==
            if 6 * k < 8 * |s| then B64Char(Field(ByteAt(s, 0), ByteAt(s, 1), ByteAt(s, 2), k)) else '='
  {
    hide B64Char, Field;
  }

  lemma FirstBits(s: seq<byte>, k: nat)
    requires k < 4
    ensures SixBits(s, k) == Field(ByteAt(s, 0), ByteAt(s, 1), ByteAt(s, 2), k)
  {
    hide ByteAt;
    var a, b, c := ByteAt(s, 0), ByteAt(s, 1), ByteAt(s, 2);
    if k == 0 {
      Window0(a, b);
    } else if k == 1 {
      Window1(a, b);
    } else if k == 2 {
      Window2(b, c);
    } else {
      Window3(c, ByteAt(s, 3));
    }
  }

  lemma Window0(a: byte, b: byte)
    ensures (256 * a + b) / 1024 % 64 == a / 4
  {
    assert 256 * a + b == 1024 * (a / 4) + (256 * (a % 4) + b);
  }

  lemma Window1(a: byte, b: byte)
    ensures (256 * a + b) / 16 % 64 == (a % 4) * 16 + b / 16
  {
    assert (256 * a + b) / 16 == 64 * (a / 4) + ((a % 4) * 16 + b / 16);
  }

  lemma Window2(a: byte, b: byte)
    ensures (256 * a + b) / 64 % 64 == (a % 16) * 4 + b / 64
  {
    assert (256 * a + b) / 64 == 64 * (a / 16) + ((a % 16) * 4 + b / 64);
  }

  lemma Window3(a: byte, b: byte)
    ensures (256 * a + b) / 256 % 64 == a % 64
  {
    assert (256 * a + b) / 256 == a;
  }

  predicate IsLetter(c: char) {
    exists v: nat :: v < 64 && c == Letter(v)
  }

  /** A character in its place: a letter, or a pad in the second half of a group. */
  predicate Fits(t: Text, k: nat)
    requires k < |t|
  {
    IsLetter(t[k]) || (t[k] == '=' && k % 4 >= 2)
  }

  lemma FitsValue(t: Text, k: nat)
    requires k < |t|
    ensures Fits(t, k) <==> B64Val(t[k]) != -1 || (t[k] == '=' && k % 4 >= 2)
  {
    hide B64Val, IsLetter;
    LetterValue(t[k]);
  }

  lemma LetterValue(c: char)
    ensures IsLetter(c) <==> B64Val(c) != -1
    ensures c == '=' ==> !IsLetter(c)
  {
    Values(c);
  }

  /** Decoding goes through the whole groups up to the first one with a character out of place, and
      gives what these alone would give; it succeeds exactly if there is none. */
  lemma {:induction false} DecodedUpTo(t: Text)
    ensures var d := Decoded(t);
            && d.consumed % 4 == 0 && (forall k: nat | k < d.consumed :: Fits(t, k))
            && Decoded(t[..d.consumed]) == Decoding(true, d.bytes, d.consumed)
            && (if d.ok then |t| - d.consumed < 4
                else d.consumed + 4 <= |t| && !GroupFits(t, d.consumed))
  {
    hide DecodeGroup, Fits, GroupFits;
    if |t| >= 4 {
      GroupOk(t);
      if DecodeGroup(t[..4]).Some? {
        var rest := t[4..];
        var d := Decoded(rest);
        DecodedUpTo(rest);
        forall k: nat | 4 <= k < |t|
          ensures Fits(t, k) <==> Fits(rest, k - 4)
        {
          NextGroup(t, k);
        }
        if !d.ok {
          NextGroups(t, 4 + d.consumed);
        }
        var u := t[..4 + d.consumed];
        assert u[..4] == t[..4] && u[4..] == rest[..d.consumed];
      }
    }
  }

  predicate GroupFits(t: Text, p: nat)
    requires p + 4 <= |t|
  {
    Fits(t, p) && Fits(t, p + 1) && Fits(t, p + 2) && Fits(t, p + 3)
  }

  lemma NextGroups(t: Text, p: nat)
    requires 4 <= p && p + 4 <= |t|
    ensures GroupFits(t, p) <==> GroupFits(t[4..], p - 4)
  {
    hide Fits;
    NextGroup(t, p);
    NextGroup(t, p + 1);
    NextGroup(t, p + 2);
    NextGroup(t, p + 3);
  }

  lemma NextGroup(t: Text, k: nat)
    requires 4 <= k < |t|
    ensures Fits(t, k) <==> Fits(t[4..], k - 4)
  {
  }

  lemma GroupOk(t: Text)
    requires |t| >= 4
    ensures DecodeGroup(t[..4]).Some? <==> GroupFits(t, 0)
    ensures GroupFits(t, 0) ==> forall k: nat | k < 4 :: Fits(t, k)
  {
    hide B64Val, Fits;
    FitsValue(t, 0);
    FitsValue(t, 1);
    FitsValue(t, 2);
    FitsValue(t, 3);
  }

  function ValueAt(t: Text, i: nat): (v: nat)
    ensures v < 64
  {
    if i < |t| && B64Val(t[i]) != -1 then B64Val(t[i]) else 0
  }

  /** Bits 8j to 8j + 7 of the characters, six to each, with zeros for pads. */
  function EightBits(t: Text, j: nat): (b: byte) {
    var i, skip := 8 * j / 6, 8 * j % 6;
    (64 * ValueAt(t, i) + ValueAt(t, i + 1)) / [16, 4, 1][skip / 2] % 256
  }

  /** Letters, with one or two pads at the end of the last group at most. */
  predicate WellFormed(t: Text) {
    |t| % 4 == 0 && forall k: nat | k < |t| - Pads(t) :: IsLetter(t[k])
  }

  function Pads(t: Text): (n: nat)
    ensures n <= |t| && n <= 2
  {
    if |t| < 2 || t[|t| - 1] != '=' then 0 else if t[|t| - 2] != '=' then 1 else 2
  }

  /** The j-th byte of a decoding is the j-th eight bits; only the pads' bytes are missing. */
  lemma {:induction false} DecodedAt(t: Text, j: nat)
    requires WellFormed(t)
    ensures var d := Decoded(t);
            && d.ok && d.consumed == |t| && |d.bytes| == |t| / 4 * 3 - Pads(t)
            && (j < |d.bytes| ==> d.bytes[j] == EightBits(t, j))
  {
    hide DecodeGroup, EightBits, IsLetter;
    if |t| > 0 {
      var lost := if |t| == 4 then Pads(t) else 0;
      FirstBytes(t, lost, if j < 3 - lost then j else 0);
      if |t| > 4 {
        var rest := t[4..];
        DecodedAt(rest, if j >= 3 then j - 3 else 0);
        if j >= 3 {
          LaterBytes(t, j);
        }
      }
    }
  }

  lemma LaterBytes(t: Text, j: nat)
    requires |t| >= 4 && j >= 3
    ensures EightBits(t, j) == EightBits(t[4..], j - 3)
  {
    hide B64Val;
    assert 8 * j == 8 * (j - 3) + 24;
  }

  /** The bytes of the first group, of which the last `lost` are missing. */
  lemma FirstBytes(t: Text, lost: nat, j: nat)
    requires |t| >= 4 && lost <= 2 && j < 3 - lost
    requires forall k: nat | k < 4 - lost :: IsLetter(t[k])
    requires forall k: nat | 4 - lost <= k < 4 :: t[k] == '='
    ensures var g := DecodeGroup(t[..4]);
            g.Some? && |g.value| == 3 - lost && g.value[j] == EightBits(t, j)
  {
    hide B64Val, IsLetter;
    LetterValue(t[0]);
    LetterValue(t[1]);
    LetterValue(t[2]);
    LetterValue(t[3]);
    if j == 0 {
      Bytes0(ValueAt(t, 0), ValueAt(t, 1));
    } else if j == 1 {
      Bytes1(ValueAt(t, 1), ValueAt(t, 2));
    } else {
      Bytes2(ValueAt(t, 2), ValueAt(t, 3));
    }
  }

  lemma Bytes0(v: nat, w: nat)
    requires v < 64 && w < 64
    ensures (64 * v + w) / 16 % 256 == v * 4 + w / 16
  {
  }

  lemma Bytes1(v: nat, w: nat)
    requires v < 64 && w < 64
    ensures (64 * v + w) / 4 % 256 == (v % 16) * 16 + w / 4
  {
    assert (64 * v + w) / 4 == 256 * (v / 16) + ((v % 16) * 16 + w / 4);
  }

  lemma Bytes2(v: nat, w: nat)
    requires v < 64 && w < 64
    ensures (64 * v + w) / 1 % 256 == (v % 4) * 64 + w
  {
    assert (64 * v + w) / 1 == 256 * (v / 4) + ((v % 4) * 64 + w);
  }

  // ----- round trip -----

  /** The bit fields of three bytes, taken apart and put together again. */
  lemma Fields(a: byte, b: byte, c: byte)
    ensures var v1, v2 := (a % 4) * 16 + b / 16, (b % 16) * 4 + c / 64;
            && v1 < 64 && v2 < 64
            && (a / 4) * 4 + v1 / 16 == a && (v1 % 16) * 16 + v2 / 4 == b && (v2 % 4) * 64 + c % 64 == c
  {
  }

  lemma GroupRoundTrip(a: byte, b: byte, c: byte)
    ensures DecodeGroup(Encode3(a, b, c)) == Some([a, b, c])
  {
    hide B64Char, B64Val;
    Fields(a, b, c);
    Alphabet(a / 4);
    Alphabet((a % 4) * 16 + b / 16);
    Alphabet((b % 16) * 4 + c / 64);
    Alphabet(c % 64);
    var r := DecodeGroup(Encode3(a, b, c));
    assert r.Some? && |r.value| == 3 && r.value[0] == a && r.value[1] == b && r.value[2] == c;
    assert r.value == [a, b, c];
  }

  lemma TailRoundTrip(s: seq<byte>)
    requires 0 < |s| < 3
    ensures DecodeGroup(EncodeTail(s)) == Some(s)
  {
    hide B64Char, B64Val;
    var a, b := s[0], if |s| == 2 then s[1] else 0;
    Fields(a, b, 0);
    Alphabet(a / 4);
    Alphabet((a % 4) * 16 + b / 16);
    Alphabet((b % 16) * 4);
    var r := DecodeGroup(EncodeTail(s));
    assert r.Some? && |r.value| == |s| && r.value[0] == s[0] && (|s| == 2 ==> r.value[1] == s[1]);
    assert r.value == s;
  }

  /** Decoding an encoding gives the bytes back and leaves nothing over. */
  lemma {:induction false} RoundTrip(s: seq<byte>)
    ensures Decoded(Encoded(s)) == Decoding(true, s, |Encoded(s)|)
  {
    hide DecodeGroup, B64Char, B64Val;
    var t := Encoded(s);
    if |s| >= 3 {
      GroupRoundTrip(s[0], s[1], s[2]);
      RoundTrip(s[3..]);
      assert t[..4] == Encode3(s[0], s[1], s[2]) && t[4..] == Encoded(s[3..]);
      assert s == [s[0], s[1], s[2]] + s[3..];
    } else if |s| > 0 {
      TailRoundTrip(s);
      assert t[..4] == t && t[4..] == [];
    }
  }

  /** An encoding contains no line end, comment mark or terminator. */
  lemma EncodedPlain(s: seq<byte>)
    ensures forall c :: c in Encoded(s) ==> c !in {'\n', '#', '\0'}
  {
    hide B64Char;
    forall k: nat | k < |Encoded(s)|
      ensures Encoded(s)[k] !in {'\n', '#', '\0'}
    {
      EncodedAt(s, k);
      Table(SixBits(s, k));
      Alphabet(SixBits(s, k));
    }
  }
}
