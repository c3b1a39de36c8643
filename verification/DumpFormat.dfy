/**
 The ASCII dump format: what the dumper writes (src/gdbmdump.c) and how the loader takes it
 apart (src/gdbmload.c), line by line.
 */
module DumpFormat {
  import opened Layout
  import opened Base64

  type Line = Text

  /** _GDBM_MAX_DUMP_LINE_LEN */
  const LINE_LEN: nat := 76

  const NUL: char := '\0'

  // ----- numbers -----

  function Digit(n: nat): (c: char)
    requires n < 10
  {
    '0' + n as char
  }

  predicate IsDigit(c: char) {
    '0' <= c <= '9'
  }

  /** %lu */
  function Decimal(n: nat): (t: Text)
    ensures |t| > 0 && forall c :: c in t ==> IsDigit(c)
  {
    if n < 10 then [Digit(n)] else Decimal(n / 10) + [Digit(n % 10)]
  }

  /** strtoul up to the terminator: None unless every character is a digit. */
  function Number(t: Text): (r: Option<nat>) {
    if |t| == 0 then Some(0)
    else
      var c, r := t[|t| - 1], Number(t[..|t| - 1]);
      if IsDigit(c) && r.Some? then Some(10 * r.value + (c as int - '0' as int)) else None
  }

  lemma {:induction false} NumberRoundTrip(n: nat)
    ensures Number(Decimal(n)) == Some(n)
  {
    var t := Decimal(n);
    if n < 10 {
      assert t[..0] == [];
    } else {
      NumberRoundTrip(n / 10);
      assert t[..|t| - 1] == Decimal(n / 10);
    }
  }

  function Pow10(n: nat): nat {
    if n == 0 then 1 else 10 * Pow10(n - 1)
  }

  /** Digits have their places, the highest first. */
  lemma {:induction false} HighestFirst(t: Text)
    requires |t| > 0
    ensures Number(t).Some? <==> IsDigit(t[0]) && Number(t[1..]).Some?
    ensures Number(t).Some? ==>
              Number(t).value == (t[0] as int - '0' as int) * Pow10(|t| - 1) + Number(t[1..]).value
  {
    if |t| == 1 {
      assert t[..0] == [] && t[1..] == [];
    } else {
      var u := t[..|t| - 1];
      HighestFirst(u);
      assert t[1..][..|t| - 2] == u[1..];
    }
  }

  /** A number is printed without zeros in front. */
  lemma {:induction false} NoLeadingZero(n: nat)
    ensures Decimal(n)[0] == '0' <==> n == 0
  {
    if n >= 10 {
      NoLeadingZero(n / 10);
    }
  }

  // ----- what the dumper writes, and what earlier versions wrote -----

  /** The header kind of the database; whether a datum of no length has a mark in place of its data,
      which is new in version 1.2 of the format; and the count in the final parameter block, if there
      is one. */
  datatype Form = Form(numsync: bool, marks: bool, count: Option<nat>)

  /** The form in which dumps are written now. */
  function Today(numsync: bool, count: nat): Form { Form(numsync, true, Some(count)) }

  function Chunks(t: Text): (r: seq<Line>)
    ensures (t == []) == (r == [])
    ensures forall l :: l in r ==> 0 < |l| <= LINE_LEN
    ensures forall i :: 0 <= i < |r| - 1 ==> |r[i]| == LINE_LEN
  {
    if |t| == 0 then []
    else if |t| <= LINE_LEN then [t]
    else [t[..LINE_LEN]] + Chunks(t[LINE_LEN..])
  }

  /** A line with one parameter. */
  function ParmText(name: Text, value: Text): Line { "#:" + (name + "=" + value) }

  function LenLine(n: nat): Line { ParmText("len", Decimal(n)) }

  function CountLine(n: nat): Line { ParmText("count", Decimal(n)) }

  function DatumLines(d: seq<byte>, marks: bool): (r: seq<Line>)
    ensures |r| >= 1
  {
    [LenLine(|d|)] + (if d != [] then Chunks(Encoded(d)) else if marks then ["#"] else [])
  }

  function RecordLines(recs: seq<Entry>, marks: bool): seq<Line> {
    if |recs| == 0 then []
    else DatumLines(recs[0].key, marks) + (DatumLines(recs[0].value, marks) + RecordLines(recs[1..], marks))
  }

  function HeaderLines(numsync: bool, marks: bool): seq<Line> {
    ["# GDBM dump file", ParmText("version", if marks then "1.2" else "1.1"),
        ParmText("format", if numsync then "numsync" else "standard"), "# End of header"]
  }

  function TrailerLines(n: nat): seq<Line> {
    [CountLine(n), "# End of data"]
  }

  function LastLines(form: Form): seq<Line> {
    if form.count.Some? then TrailerLines(form.count.value) else []
  }

  function DumpLines(recs: seq<Entry>, form: Form): seq<Line> {
    HeaderLines(form.numsync, form.marks) + (RecordLines(recs, form.marks) + LastLines(form))
  }

  function Unlines(lines: seq<Line>): (t: Text) {
    if |lines| == 0 then [] else lines[0] + ['\n'] + Unlines(lines[1..])
  }

  lemma {:induction false} UnlinesConcat(a: seq<Line>, b: seq<Line>)
    ensures Unlines(a + b) == Unlines(a) + Unlines(b)
  {
    if |a| == 0 {
      assert a + b == b;
    } else {
      UnlinesConcat(a[1..], b);
      assert (a + b)[1..] == a[1..] + b && (a + b)[0] == a[0];
      var head, x, y := a[0] + ['\n'], Unlines(a[1..]), Unlines(b);
      assert Unlines(a + b) == head + (x + y);
      assert head + (x + y) == head + x + y;
    }
  }

  // ----- how the loader reads it -----

  function SkipBlanks(s: Text): (r: Text)
    ensures |r| <= |s|
  {
    if |s| > 0 && s[0] in {' ', '\t'} then SkipBlanks(s[1..]) else s
  }

  /** How far the text goes before a character of `stop`. */
  function Until(s: Text, stop: set<char>): (n: nat)
    ensures n <= |s| && (n < |s| ==> s[n] in stop) && forall i :: 0 <= i < n ==> s[i] !in stop
  {
    if |s| == 0 || s[0] in stop then 0 else 1 + Until(s[1..], stop)
  }

  predicate StartsWith(s: Text, p: Text) {
    p <= s
  }

  /** What one parameter line yields: its parameters, each with a terminator; or that it is to be
      read again, from `line` on. */
  datatype Scan =
    | Parsed(parms: Text, count: nat, lenSeen: bool)
    | Again(parms: Text, count: nat, line: Line)
    | Malformed

  datatype Taken = Taken(parm: Text, rest: Text)

  /** One parameter, copied with its terminator, and what follows it; None without an equals sign. */
  function TakeParm(p: Text): (r: Option<Taken>)
    ensures r.Some? ==> |r.value.parm| + |r.value.rest| <= |p| + 1 && |r.value.rest| < |p|
    ensures r.Some? ==> r.value.rest == p[|p| - |r.value.rest|..]
  {
    var n := Until(p, {'='});
    if n == |p| then None
    else
      var v := p[n + 1..];
      if |v| > 0 && v[0] == '"' then
        var m := Until(v[1..], {'"'});
        Some(Taken(p[..n] + ['='] + v[1..][..m] + [NUL], if m < |v[1..]| then v[1..][m + 1..] else []))
      else
        var m := Until(v, {','});
        Some(Taken(p[..n] + ['='] + v[..m] + [NUL], v[m..]))
  }

  /** The character loop of get_parms, from a character to be passed over on. */
  function ScanParms(line: Line, s: Text, lenSeen: bool): (r: Scan)
    decreases |s|
  {
    if |s| == 0 then Parsed([], 0, lenSeen)
    else
      var p := SkipBlanks(s[1..]);
      if |p| == 0 then Parsed([], 0, lenSeen)
      else if StartsWith(p, "len=") && lenSeen then Again([], 0, "#:" + p)
      else if lenSeen && StartsWith(p, "count=") then Again([], 0, line)
      else
        match TakeParm(p)
        case None => Malformed
        case Some(taken) =>
          match ScanParms(line, taken.rest, lenSeen || StartsWith(p, "len="))
          case Parsed(parms, count, seen) => Parsed(taken.parm + parms, count + 1, seen)
          case Again(parms, count, l) => Again(taken.parm + parms, count + 1, l)
          case Malformed => Malformed
  }

  datatype Status = OK | EOF | MALFORMED | NOT_FOUND

  /** What get_parms leaves: the lines not used up, the parameters, and whether it met the end. */
  datatype Parms = Parms(rc: Status, lines: seq<Line>, buffer: Text, parmc: nat, atEnd: bool)

  /** get_parms */
  function GetParms(lines: seq<Line>, buffer: Text, parmc: nat, lenSeen: bool): (r: Parms)
    decreases |lines|
  {
    if |lines| == 0 then Parms(if |buffer| > 0 then OK else EOF, [], buffer, parmc, true)
    else
      var line := lines[0];
      if |line| == 0 || line[0] != '#' then Parms(OK, lines, buffer, parmc, false)
      else if |line| == 1 || line[1] != ':' then
        if parmc > 0 then Parms(OK, lines[1..], buffer, parmc, false) else GetParms(lines[1..], buffer, parmc, lenSeen)
      else
        match ScanParms(line, line[1..], lenSeen)
        case Parsed(parms, count, seen) => GetParms(lines[1..], buffer + parms, parmc + count, seen)
        case Again(parms, count, l) => Parms(OK, [l] + lines[1..], buffer + parms, parmc + count, false)
        case Malformed => Parms(MALFORMED, lines, buffer, parmc, false)
  }

  /** getparm: the value of the first parameter with the given name. */
  function GetParm(buffer: Text, name: Text): (r: Option<Text>) {
    if |buffer| == 0 then None
    else
      var n := Until(buffer, {NUL});
      var parm := buffer[..n];
      if StartsWith(parm, name + "=") then Some(parm[|name| + 1..])
      else if n == |buffer| then None else GetParm(buffer[n + 1..], name)
  }

  /** get_num */
  function GetNum(buffer: Text, name: Text): (r: (Status, nat)) {
    match GetParm(buffer, name)
    case None => (NOT_FOUND, 0)
    case Some(t) => match Number(t) case None => (MALFORMED, 0) case Some(n) => (OK, n)
  }

  /** get_data, once a line of data is at hand: all lines up to the next mark. */
  function GetData(lines: seq<Line>): (r: (Text, seq<Line>))
    decreases |lines|
  {
    if |lines| == 0 || |lines[0]| == 0 || lines[0][0] == '#' then ([], lines)
    else var r := GetData(lines[1..]); (lines[0] + r.0, r.1)
  }

  datatype Datum = Datum(rc: Status, bytes: seq<byte>, lines: seq<Line>, buffer: Text, atEnd: bool)

  /** read_record */
  function ReadDatum(lines: seq<Line>): (r: Datum) {
    var p := GetParms(lines, [], 0, false);
    if p.rc != OK then Datum(p.rc, [], p.lines, p.buffer, p.atEnd)
    else if p.parmc == 0 then Datum(NOT_FOUND, [], p.lines, p.buffer, p.atEnd)
    else
      var (rc, len) := GetNum(p.buffer, "len");
      if rc != OK then Datum(rc, [], p.lines, p.buffer, p.atEnd)
      else if len == 0 then Datum(OK, [], p.lines, p.buffer, p.atEnd)
      else if p.lines == [] then Datum(EOF, [], [], [], true)
      else
        var (text, rest) := GetData(p.lines);
        var d := Decoded(text);
        if !d.ok || d.consumed != |text| || |d.bytes| != len then Datum(MALFORMED, [], rest, text, p.atEnd)
        else Datum(OK, d.bytes, rest, text, p.atEnd)
  }

  // ----- the loader on the dumper's output -----

  /** When a length is announced, no marked line is left by get_parms: get_data would read it over
      and over again. */
  predicate DataFollows(lines: seq<Line>) {
    var p := GetParms(lines, [], 0, false);
    p.rc == OK && p.parmc > 0 && GetNum(p.buffer, "len").0 == OK && GetNum(p.buffer, "len").1 > 0 ==> !Marked(p.lines)
  }

  /** Lines that belong to the next datum, to the trailer or to nothing. */
  predicate Marked(lines: seq<Line>) {
    |lines| > 0 && |lines[0]| > 0 && lines[0][0] == '#'
  }

  /** What may come after a datum: the next one, the trailer, or nothing. */
  ghost predicate Follows(rest: seq<Line>) {
    rest == [] || exists n: nat :: rest[0] in {LenLine(n), CountLine(n)}
  }

  lemma {:induction false} ChunksJoined(t: Text, rest: seq<Line>)
    requires (forall i :: 0 <= i < |t| ==> t[i] != '#') && (Marked(rest) || rest == [])
    ensures GetData(Chunks(t) + rest) == (t, rest)
    decreases |t|
  {
    var lines := Chunks(t) + rest;
    if |t| == 0 {
      assert lines == rest;
    } else if |t| <= LINE_LEN {
      assert lines[0] == t && lines[1..] == rest;
      assert GetData(rest) == ([], rest);
      assert t + [] == t;
    } else {
      ChunksJoined(t[LINE_LEN..], rest);
      assert lines[0] == t[..LINE_LEN] && lines[1..] == Chunks(t[LINE_LEN..]) + rest;
      assert t == t[..LINE_LEN] + t[LINE_LEN..];
    }
  }

  lemma UntilIs(s: Text, stop: set<char>, n: nat)
    requires n <= |s| && (n < |s| ==> s[n] in stop) && forall i :: 0 <= i < n ==> s[i] !in stop
    ensures Until(s, stop) == n
  {
    hide Until;
    var m := Until(s, stop);
    assert m <= |s|;
  }

  /** The parameters the dumper writes. */
  ghost predicate Name(name: Text) {
    name in {"len", "count", "version", "format"}
  }

  ghost predicate Simple(value: Text) {
    |value| > 0 && value[0] != '"' && forall i :: 0 <= i < |value| ==> value[i] !in {',', NUL}
  }

  lemma Names(name: Text)
    requires Name(name)
    ensures |name| >= 3 && name[0] !in {' ', '\t'} && forall i :: 0 <= i < |name| ==> name[i] !in {'=', NUL}
    ensures name[0] == 'l' <==> name == "len"
  {
  }

  lemma DecimalSimple(n: nat)
    ensures Simple(Decimal(n))
  {
    var v := Decimal(n);
    assert forall i :: 0 <= i < |v| ==> v[i] in v;
  }

  lemma ParmShape(name: Text, v: Text)
    requires Name(name) && Simple(v)
    ensures var p := name + "=" + v;
            && SkipBlanks(p) == p && Until(p, {'='}) == |name| && p[..|name|] == name && p[|name| + 1..] == v
            && StartsWith(p, "len=") == (name == "len")
    ensures Until(v, {','}) == |v|
  {
    hide Name, StartsWith, Until;
    Names(name);
    LenFirst(name, v);
    var p := name + "=" + v;
    assert p[0] == name[0];
    UntilIs(p, {'='}, |name|);
    UntilIs(v, {','}, |v|);
  }

  lemma LenFirst(name: Text, v: Text)
    requires Name(name)
    ensures StartsWith(name + "=" + v, "len=") == (name == "len")
  {
    var p := name + "=" + v;
    if name == "len" {
      assert p[..4] == "len=";
    } else {
      assert name[0] != 'l' && p[0] == name[0];
    }
  }

  /** A parameter line as the dumper writes them. */
  lemma OneParm(line: Line, name: Text, v: Text)
    requires line == "#:" + (name + "=" + v) && Name(name) && Simple(v)
    ensures |line| > 2 && line[1] == ':' && line[0] == '#'
    ensures ScanParms(line, line[1..], false) == Parsed(name + "=" + v + [NUL], 1, name == "len")
  {
    hide Until, SkipBlanks, Name, StartsWith, TakeParm;
    ParmShape(name, v);
    var p := name + "=" + v;
    assert line[1..][1..] == p;
    LastTaken(name, v);
    assert ScanParms(line, [], name == "len") == Parsed([], 0, name == "len");
  }

  /** Two parameters on a line: a second length puts that part of the line back, and a count after a
      length the whole line. */
  lemma TwoParms(line: Line, name: Text, v: Text, name': Text, v': Text)
    requires Name(name) && Simple(v) && Name(name') && Simple(v')
    requires line == "#:" + (name + "=" + v + "," + (name' + "=" + v'))
    ensures var one, two := name + "=" + v + [NUL], name' + "=" + v' + [NUL];
            ScanParms(line, line[1..], false) ==
            if name == "len" && name' == "len" then Again(one, 1, "#:" + (name' + "=" + v'))
            else if name == "len" && name' == "count" then Again(one, 1, line)
            else Parsed(one + two, 2, name == "len" || name' == "len")
  {
    hide Until, SkipBlanks, Name, StartsWith, TakeParm;
    var p, p' := name + "=" + v + "," + (name' + "=" + v'), name' + "=" + v';
    FirstOfTwo(name, v, p');
    ParmShape(name', v');
    LastTaken(name', v');
    CountFirst(name', v');
    assert line[1..][1..] == p && ("," + p')[1..] == p';
    var seen := name == "len";
    assert ScanParms(line, [], seen || name' == "len") == Parsed([], 0, seen || name' == "len");
    var rest := ScanParms(line, "," + p', seen);
    assert rest == if seen && name' == "len" then Again([], 0, "#:" + p')
                   else if seen && name' == "count" then Again([], 0, line)
                   else Parsed(name' + "=" + v' + [NUL], 1, seen || name' == "len");
  }

  lemma FirstOfTwo(name: Text, v: Text, more: Text)
    requires Name(name) && Simple(v)
    ensures var p := name + "=" + v + "," + more;
            && SkipBlanks(p) == p && StartsWith(p, "len=") == (name == "len")
            && TakeParm(p) == Some(Taken(name + "=" + v + [NUL], "," + more))
  {
    hide Name, Until;
    Names(name);
    var p := name + "=" + v + "," + more;
    assert p == name + "=" + (v + "," + more);
    LenFirst(name, v + "," + more);
    assert p[0] == name[0];
    UntilIs(p, {'='}, |name|);
    var w := p[|name| + 1..];
    assert w == v + "," + more && p[..|name|] == name && w[0] == v[0];
    UntilIs(w, {','}, |v|);
    assert w[..|v|] == v && w[|v|..] == "," + more;
  }

  lemma LastTaken(name: Text, v: Text)
    requires Name(name) && Simple(v)
    ensures TakeParm(name + "=" + v) == Some(Taken(name + "=" + v + [NUL], []))
  {
    hide Name, Until;
    ParmShape(name, v);
    assert v[|v|..] == [] && v[..|v|] == v;
  }

  /** A quoted value may contain commas, and ends with the quote. */
  lemma QuotedTaken(name: Text, v: Text, more: Text)
    requires Name(name) && forall i :: 0 <= i < |v| ==> v[i] != '"'
    ensures TakeParm(name + "=" + (['"'] + v + ['"'] + more)) == Some(Taken(name + "=" + v + [NUL], more))
  {
    hide Name, Until;
    Names(name);
    var p := name + "=" + (['"'] + v + ['"'] + more);
    UntilIs(p, {'='}, |name|);
    var w := p[|name| + 1..];
    assert w == ['"'] + v + ['"'] + more && p[..|name|] == name;
    UntilIs(w[1..], {'"'}, |v|);
    assert w[1..][..|v|] == v && w[1..][|v| + 1..] == more;
  }

  lemma CountFirst(name: Text, v: Text)
    requires Name(name)
    ensures StartsWith(name + "=" + v, "count=") == (name == "count")
  {
    var p := name + "=" + v;
    if name == "count" {
      assert p[..6] == "count=";
    } else {
      assert name[0] != 'c' && p[0] == name[0];
    }
  }

  /** With a length seen, a line that announces the next datum or the count is put back. */
  lemma PutBack(line: Line, n: nat)
    requires line in {LenLine(n), CountLine(n)}
    ensures |line| > 2 && line[0] == '#' && line[1] == ':' && ScanParms(line, line[1..], true) == Again([], 0, line)
  {
    hide Decimal, SkipBlanks, Name, StartsWith, TakeParm;
    LenName();
    DecimalSimple(n);
    var name := if line == LenLine(n) then "len" else "count";
    ParmShape(name, Decimal(n));
    CountFirst(name, Decimal(n));
    var p := name + "=" + Decimal(n);
    assert line == "#:" + p && line[1..][1..] == p;
  }

  /** The value of a lone parameter, and of one that is not there. */
  lemma LoneParm(name: Text, v: Text, other: Text)
    requires Name(name) && Simple(v) && Name(other)
    ensures GetParm(name + "=" + v + [NUL], other) == if other == name then Some(v) else None
  {
    Names(name);
    Names(other);
    hide Name;
    var buffer, parm := name + "=" + v + [NUL], name + "=" + v;
    UntilIs(buffer, {NUL}, |parm|);
    assert buffer[..|parm|] == parm && buffer[|parm| + 1..] == [];
    assert parm[..|name| + 1] == name + "=" && parm[|name| + 1..] == v;
    if StartsWith(parm, other + "=") {
      SameName(name, other, v);
    }
  }

  lemma SameName(name: Text, other: Text, v: Text)
    requires (forall i :: 0 <= i < |name| ==> name[i] != '=') && (forall i :: 0 <= i < |other| ==> other[i] != '=')
    requires StartsWith(name + "=" + v, other + "=")
    ensures other == name
  {
    var parm, head := name + "=" + v, other + "=";
    assert forall i :: 0 <= i < |head| ==> parm[i] == head[i];
    UntilIs(parm, {'='}, |name|);
    UntilIs(parm, {'='}, |other|);
    assert parm[..|name|] == name && parm[..|other|] == other;
  }

  lemma LoneNum(name: Text, n: nat, other: Text)
    requires Name(name) && Name(other)
    ensures GetNum(name + "=" + Decimal(n) + [NUL], other) == if other == name then (OK, n) else (NOT_FOUND, 0)
  {
    hide Name, Decimal, Number;
    DecimalSimple(n);
    LoneParm(name, Decimal(n), other);
    NumberRoundTrip(n);
  }

  /** What get_parms makes of the first line of a datum, and where it stops. */
  lemma LengthRead(d: seq<byte>, marks: bool, rest: seq<Line>)
    requires Follows(rest)
    ensures var buffer := "len" + "=" + Decimal(|d|) + [NUL];
            && GetNum(buffer, "len") == (OK, |d|)
            && GetParms(DatumLines(d, marks) + rest, [], 0, false) ==
               Parms(OK, if d == [] then rest else Chunks(Encoded(d)) + rest, buffer, 1, AtVeryEnd(d, marks, rest))
  {
    hide Decimal, Number, ScanParms, Name, Encoded, GetParm, GetNum, GetParms, Chunks, Follows;
    var more := if d != [] then Chunks(Encoded(d)) else if marks then ["#"] else [];
    var buffer := "len" + "=" + Decimal(|d|) + [NUL];
    LenName();
    LoneNum("len", |d|, "len");
    LengthFirst(|d|, more + rest);
    assert DatumLines(d, marks) + rest == [LenLine(|d|)] + (more + rest);
    if d == [] && marks {
      CommentEnds(rest, buffer);
    } else if d == [] {
      assert more + rest == rest;
      NextEnds(rest, buffer);
    } else {
      EncodedPlain(d);
      var t := Encoded(d);
      assert |t| > 0;
      assert forall i :: 0 <= i < |t| ==> t[i] in t;
      FirstChunk(t, rest);
      DataEnds(Chunks(t) + rest, buffer);
    }
  }

  /** The announcement of an empty datum, without a mark, is the last line of the file. */
  predicate AtVeryEnd(d: seq<byte>, marks: bool, rest: seq<Line>) {
    d == [] && !marks && rest == []
  }

  /** Without a mark, the next announcement or the end of the file shows that there are no data. */
  lemma NextEnds(rest: seq<Line>, buffer: Text)
    requires Follows(rest) && |buffer| > 0
    ensures GetParms(rest, buffer, 1, true) == Parms(OK, rest, buffer, 1, rest == [])
  {
    hide ScanParms, LenLine, CountLine;
    if rest != [] {
      var n: nat :| rest[0] in {LenLine(n), CountLine(n)};
      PutBack(rest[0], n);
      assert [rest[0]] + rest[1..] == rest && buffer + [] == buffer;
    }
  }

  lemma LengthFirst(n: nat, more: seq<Line>)
    ensures GetParms([LenLine(n)] + more, [], 0, false) == GetParms(more, "len" + "=" + Decimal(n) + [NUL], 1, true)
  {
    hide Decimal, ScanParms, Name;
    var lines, buffer := [LenLine(n)] + more, "len" + "=" + Decimal(n) + [NUL];
    DecimalSimple(n);
    LenName();
    OneParm(LenLine(n), "len", Decimal(n));
    assert lines[0] == LenLine(n) && lines[1..] == more && [] + buffer == buffer;
  }

  lemma CommentEnds(rest: seq<Line>, buffer: Text)
    ensures GetParms(["#"] + rest, buffer, 1, true) == Parms(OK, rest, buffer, 1, false)
  {
    assert (["#"] + rest)[1..] == rest;
  }

  lemma DataEnds(lines: seq<Line>, buffer: Text)
    requires |lines| > 0 && |lines[0]| > 0 && lines[0][0] != '#'
    ensures GetParms(lines, buffer, 1, true) == Parms(OK, lines, buffer, 1, false)
  {
  }

  /** read_record gives a datum back and stops where it ends, with a mark for no data or without. */
  lemma DatumRead(d: seq<byte>, marks: bool, rest: seq<Line>)
    requires Follows(rest)
    ensures ReadDatum(DatumLines(d, marks) + rest).(buffer := []) == Datum(OK, d, rest, [], AtVeryEnd(d, marks, rest))
    ensures DataFollows(DatumLines(d, marks) + rest)
  {
    hide Decimal, GetParms, GetNum, Decoded, Encoded, DatumLines, Marked, Follows;
    LengthRead(d, marks, rest);
    FollowsMarked(rest);
    if d != [] {
      RoundTrip(d);
      EncodedPlain(d);
      var t := Encoded(d);
      assert |t| > 0;
      assert forall i :: 0 <= i < |t| ==> t[i] in t;
      ChunksJoined(t, rest);
      FirstChunk(t, rest);
      PlainUnmarked(Chunks(t) + rest);
    }
  }

  lemma FollowsMarked(rest: seq<Line>)
    requires Follows(rest)
    ensures Marked(rest) || rest == []
  {
  }

  lemma PlainUnmarked(lines: seq<Line>)
    requires |lines| > 0 && |lines[0]| > 0 && lines[0][0] != '#'
    ensures !Marked(lines)
  {
  }

  lemma LenName()
    ensures Name("len") && Name("count") && Name("version") && Name("format")
  {
  }

  lemma FirstChunk(t: Text, rest: seq<Line>)
    requires |t| > 0 && t[0] != '#'
    ensures var more := Chunks(t) + rest;
            |more| > 0 && |more[0]| > 0 && more[0][0] != '#'
  {
  }

  /** At the trailer there is no further record, and the count is known. */
  lemma TrailerRead(n: nat)
    ensures var r := ReadDatum(TrailerLines(n));
            r.rc == NOT_FOUND && !r.atEnd && r.lines == [] && GetNum(r.buffer, "count") == (OK, n)
    ensures DataFollows(TrailerLines(n))
  {
    hide Decimal, Number, ScanParms, Name, GetParm;
    var lines, buffer := TrailerLines(n), "count" + "=" + Decimal(n) + [NUL];
    DecimalSimple(n);
    LenName();
    OneParm(CountLine(n), "count", Decimal(n));
    LoneNum("count", n, "count");
    LoneNum("count", n, "len");
    assert lines[0] == CountLine(n) && lines[1..] == ["# End of data"] && [] + buffer == buffer;
    assert GetParms(lines, [], 0, false) == GetParms(lines[1..], buffer, 1, false);
  }

  /** The header is passed over. */
  lemma HeaderRead(numsync: bool, marks: bool, rest: seq<Line>)
    ensures var p := GetParms(HeaderLines(numsync, marks) + rest, [], 0, false);
            p.rc == OK && p.lines == rest && p.parmc == 2 && !p.atEnd
            && GetParm(p.buffer, "format") == Some(if numsync then "numsync" else "standard")
  {
    hide ScanParms, Name, GetParm, GetParms;
    var version, format := if marks then "1.2" else "1.1", if numsync then "numsync" else "standard";
    LenName();
    assert Simple(version) && Simple(format);
    var l1, l2 := "#:" + ("version" + "=" + version), "#:" + ("format" + "=" + format);
    OneParm(l1, "version", version);
    OneParm(l2, "format", format);
    assert HeaderLines(numsync, marks) == ["# GDBM dump file", l1, l2, "# End of header"];
    hide Simple, HeaderLines;
    HeaderSteps(l1, l2, rest, "version" + "=" + version + [NUL], "format" + "=" + format + [NUL]);
    SecondParm(version, format);
  }

  lemma HeaderSteps(l1: Line, l2: Line, rest: seq<Line>, one: Text, two: Text)
    requires |l1| > 2 && l1[0] == '#' && l1[1] == ':' && |l2| > 2 && l2[0] == '#' && l2[1] == ':'
    requires ScanParms(l1, l1[1..], false) == Parsed(one, 1, false)
    requires ScanParms(l2, l2[1..], false) == Parsed(two, 1, false)
    ensures GetParms(["# GDBM dump file", l1, l2, "# End of header"] + rest, [], 0, false) ==
            Parms(OK, rest, one + two, 2, false)
  {
    hide ScanParms;
    var lines := ["# GDBM dump file", l1, l2, "# End of header"] + rest;
    var lines1, lines2, lines3 := lines[1..], lines[2..], lines[3..];
    assert lines1[1..] == lines2 && lines2[1..] == lines3 && lines3[1..] == rest && [] + one == one;
    assert GetParms(lines3, one + two, 2, false) == Parms(OK, rest, one + two, 2, false);
    assert GetParms(lines2, one, 1, false) == GetParms(lines3, one + two, 2, false);
    assert GetParms(lines1, [], 0, false) == GetParms(lines2, one, 1, false);
    assert lines[0] == "# GDBM dump file";
  }

  lemma SecondParm(version: Text, format: Text)
    requires Simple(version) && Simple(format)
    ensures GetParm("version" + "=" + version + [NUL] + ("format" + "=" + format + [NUL]), "format") == Some(format)
  {
    var one, two := "version" + "=" + version + [NUL], "format" + "=" + format + [NUL];
    var buffer := one + two;
    UntilIs(buffer, {NUL}, |one| - 1);
    assert buffer[..|one| - 1] == "version=" + version && buffer[|one|..] == two;
    assert buffer[0] == 'v';
    LenName();
    LoneParm("format", format, "format");
  }

  // ----- bounds on what a parameter line yields -----

  /** The parameters are no longer than the line they come from, and a line put back no longer
      than it was. */
  lemma {:induction false} ScanFits(line: Line, s: Text, lenSeen: bool)
    requires |s| < |line|
    ensures var r := ScanParms(line, s, lenSeen);
            (r.Malformed? || |r.parms| <= |s|) && (r.Again? ==> 0 < |r.line| <= |line|)
    decreases |s|
  {
    hide TakeParm, Until;
    if |s| > 0 {
      var p := SkipBlanks(s[1..]);
      match TakeParm(p)
      case None =>
      case Some(taken) =>
        ScanFits(line, taken.rest, lenSeen || StartsWith(p, "len="));
    }
  }

  /** The text has no other characters. */
  ghost predicate Over(t: Text, ok: set<char>) {
    forall i :: 0 <= i < |t| ==> t[i] in ok
  }

  lemma SuffixOver(t: Text, n: nat, ok: set<char>)
    requires Over(t, ok) && n <= |t|
    ensures Over(t[n..], ok)
  {
  }

  /** A line put back consists of the same characters. */
  lemma {:induction false} ScanSame(line: Line, s: Text, lenSeen: bool, ok: set<char>)
    requires Over(line, ok) && Over(s, ok) && '#' in ok && ':' in ok
    ensures var r := ScanParms(line, s, lenSeen);
            r.Again? ==> Over(r.line, ok)
    decreases |s|
  {
    if |s| > 0 {
      BlanksSuffix(s[1..]);
      var p := SkipBlanks(s[1..]);
      SuffixOver(s, 1, ok);
      SuffixOver(s[1..], |s[1..]| - |p|, ok);
      assert Over("#:" + p, ok);
      hide TakeParm, Until, Over, SkipBlanks, StartsWith;
      match TakeParm(p)
      case None =>
      case Some(taken) =>
        SuffixOver(p, |p| - |taken.rest|, ok);
        ScanSame(line, taken.rest, lenSeen || StartsWith(p, "len="), ok);
    }
  }

  lemma {:induction false} BlanksSuffix(s: Text)
    ensures SkipBlanks(s) == s[|s| - |SkipBlanks(s)|..]
  {
    if |s| > 0 && s[0] in {' ', '\t'} {
      BlanksSuffix(s[1..]);
    }
  }
}
