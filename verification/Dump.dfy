/**
 Dumping a database to text (src/gdbmdump.c) and loading the text into another one
 (src/gdbmload.c).
 */
module Dump {
  import opened Layout
  import opened Base64
  import opened DumpFormat

  // ----- the dumper -----

  /** print_datum */
  method PrintDatum(d: seq<byte>) returns (text: Text)
    ensures text == Unlines(DatumLines(d, true))
  {
    hide Decimal, Encoded, Chunks;
    text := "#:len=" + Decimal(|d|) + "\n";
    assert "#:len=" + Decimal(|d|) == LenLine(|d|);
    var code := Encode(d);
    ghost var lines := if d == [] then ["#"] else Chunks(code);
    UnlinesFirst(LenLine(|d|), lines);
    if |code| == 0 {
      UnlinesFirst("#", []);
      text := text + "#\n";
    } else {
      var body := PrintLines(code);
      text := text + body;
    }
  }

  /** The loop of print_datum: lines of at most 76 characters. */
  method PrintLines(code: Text) returns (text: Text)
    ensures text == Unlines(Chunks(code))
  {
    hide Unlines, Chunks;
    text := [];
    var p := 0;
    ghost var all := Unlines(Chunks(code));
    assert code[0..] == code;
    while p < |code|
      invariant p <= |code| && text + Unlines(Chunks(code[p..])) == all
    {
      var rest := code[p..];
      var n := if |rest| > LINE_LEN then LINE_LEN else |rest|;
      NextChunk(rest, n);
      assert rest[n..] == code[p + n..];
      ghost var more := Unlines(Chunks(code[p + n..]));
      assert text + (rest[..n] + ['\n'] + more) == text + rest[..n] + ['\n'] + more;
      text := text + rest[..n] + ['\n'];
      p := p + n;
    }
    NoChunks();
    assert code[p..] == [];
  }

  lemma NoChunks()
    ensures Unlines(Chunks([])) == []
  {
  }

  lemma NextChunk(t: Text, n: nat)
    requires 0 < |t| && n == if |t| > LINE_LEN then LINE_LEN else |t|
    ensures Unlines(Chunks(t)) == t[..n] + ['\n'] + Unlines(Chunks(t[n..]))
  {
    UnlinesFirst(t[..n], Chunks(t[n..]));
    assert |t| <= LINE_LEN ==> t[..n] == t && t[n..] == [];
    assert Chunks(t) == [t[..n]] + Chunks(t[n..]);
  }

  lemma UnlinesFirst(line: Line, lines: seq<Line>)
    ensures Unlines([line] + lines) == line + ['\n'] + Unlines(lines)
  {
    assert ([line] + lines)[1..] == lines;
  }

  // ----- the loader's input -----

  /** fgets on a buffer of 80 characters: up to a line end, or 79 characters. */
  method FGets(input: Text) returns (buf: Text)
    ensures buf <= input && |buf| <= 79 && (buf == [] <==> input == [])
    ensures forall i :: 0 <= i < |buf| - 1 ==> buf[i] != '\n'
    ensures |buf| > 0 && buf[|buf| - 1] != '\n' ==> |buf| == 79 || buf == input
  {
    var n := 0;
    while n < |input| && n < 79 && (n == 0 || input[n - 1] != '\n')
      invariant n <= |input| && n <= 79 && forall i :: 0 <= i < n - 1 ==> input[i] != '\n'
    {
      n := n + 1;
    }
    buf := input[..n];
  }

  /** A line of a dump: not empty, and without line ends and terminators inside. */
  ghost predicate Proper(line: Line) {
    |line| > 0 && forall i :: 0 <= i < |line| ==> line[i] !in {'\n', NUL}
  }

  class DumpReader {
    var input: Text           // what is left of the stream
    var linebuf: Text         // the current line; empty when it has been used up
    var lbsize: nat
    var buffer: Text
    var bufsize: nat
    var parmc: nat

    /** The lines still to be read. */
    ghost var lines: seq<Line>

    ghost predicate Valid()
      reads this
    {
      && (forall l :: l in lines ==> Proper(l))
      && (linebuf == [] ==> input == Unlines(lines))
      && (linebuf != [] ==> lines != [] && linebuf == lines[0] && input == Unlines(lines[1..]))
      && |linebuf| <= lbsize
    }

    constructor (text: Text, ghost lines: seq<Line>)
      requires text == Unlines(lines) && forall l :: l in lines ==> Proper(l)
      ensures Valid() && this.lines == lines
    {
      input, linebuf, buffer, parmc := text, [], [], 0;
      lbsize, bufsize := 0, 0;
      this.lines := lines;
    }

    /** get_dump_line: the next line, whole, however long it is. */
    method GetDumpLine() returns (rc: Status)
      requires Valid()
      modifies this`input, this`linebuf, this`lbsize
      ensures Valid() && (rc == if lines == [] then EOF else OK)
      ensures rc == OK ==> linebuf == lines[0]
      ensures old(linebuf) != [] ==> linebuf == old(linebuf) && input == old(input) && lbsize == old(lbsize)
    {
      hide Unlines, Proper;
      if linebuf == [] {
        FillLine();
      }
      rc := if |linebuf| == 0 then EOF else OK;
      if lines != [] {
        assert lines[0] in lines;
        NotEmpty(lines[0]);
      }
    }

    /** Its loop: pieces of at most 79 characters are put together up to the end of the line. */
    method FillLine()
      requires Valid() && linebuf == []
      modifies this`input, this`linebuf, this`lbsize
      ensures Valid() && linebuf == if lines == [] then [] else lines[0]
    {
      hide Unlines;
      ghost var line, rest := FirstLine(lines);
      var done := false;
      while !done && input != []
        invariant |linebuf| <= lbsize
        invariant lines == [] ==> linebuf == [] && input == []
        invariant lines != [] && done ==> linebuf == line && input == rest
        invariant lines != [] && !done ==> linebuf <= line && input == line[|linebuf|..] + ['\n'] + rest
        decreases |input|
      {
        var buf := FGets(input);
        ChunkOf(line[|linebuf|..], rest, buf);
        input := input[|buf|..];
        done := buf[|buf| - 1] == '\n';
        var n := if done then |buf| - 1 else |buf|;
        if n + 1 + |linebuf| > lbsize {
          lbsize := (|linebuf| + n + LINE_LEN) / LINE_LEN * LINE_LEN;
        }
        assert |linebuf| + n + 1 <= lbsize;
        ghost var l0 := |linebuf|;
        linebuf := linebuf + buf[..n];
        assert line == line[..l0] + line[l0..];
      }
    }

    /** The current line has been used up: lblevel = 0. */
    method Consume()
      requires Valid() && linebuf != []
      modifies this`linebuf, this`lines
      ensures Valid() && linebuf == [] && lines == old(lines)[1..]
    {
      linebuf := [];
      lines := lines[1..];
    }

    /** get_parms */
    method CollectParms() returns (rc: Status, atEnd: bool)
      requires Valid()
      modifies this
      ensures Valid() && GetParms(old(lines), [], 0, false) == Parms(rc, lines, buffer, parmc, atEnd)
    {
      hide Unlines, ScanParms, Proper;
      buffer, parmc, atEnd := [], 0, false;
      var lenSeen := false;
      ghost var all := GetParms(lines, [], 0, false);
      while true
        invariant Valid() && GetParms(lines, buffer, parmc, lenSeen) == all && !atEnd
        decreases |lines|
      {
        rc := GetDumpLine();
        if rc == EOF {
          atEnd := true;
          rc := if |buffer| > 0 then OK else EOF;
          return;
        }
        var line := linebuf;
        assert line in lines;
        NotEmpty(line);
        if line[0] != '#' {
          return;
        }
        if |line| == 1 || line[1] != ':' {
          Consume();
          if parmc > 0 {
            return;
          }
          continue;
        }
        var more;
        more, rc, lenSeen := ParmLine(lenSeen);
        if !more {
          return;
        }
      }
    }

    /** A line of parameters: they are copied, and the line is used up or, in part, put back. */
    method ParmLine(lenSeen: bool) returns (more: bool, rc: Status, seen: bool)
      requires Valid() && |linebuf| > 1 && linebuf[0] == '#' && linebuf[1] == ':'
      modifies this
      ensures Valid() && (more ==> |lines| < |old(lines)|)
      ensures more ==> GetParms(lines, buffer, parmc, seen) == GetParms(old(lines), old(buffer), old(parmc), lenSeen)
      ensures !more ==> GetParms(old(lines), old(buffer), old(parmc), lenSeen) == Parms(rc, lines, buffer, parmc, false)
    {
      hide Unlines, ScanParms;
      rc, seen, more := OK, lenSeen, false;
      var line := linebuf;
      assert line in lines;
      var n := |line| - 1;
      if n + 1 + |buffer| > bufsize {
        bufsize := (|buffer| + n + LINE_LEN) / LINE_LEN * LINE_LEN;
      }
      ScanFits(line, line[1..], lenSeen);
      match ScanParms(line, line[1..], lenSeen) {
        case Parsed(parms, count, s) =>
          assert |buffer| + |parms| + 1 <= bufsize;
          buffer, parmc, seen, more := buffer + parms, parmc + count, s, true;
          Consume();
        case Again(parms, count, l) =>
          assert |buffer| + |parms| + 1 <= bufsize;
          StillProper(line, lenSeen, l);
          buffer, parmc := buffer + parms, parmc + count;
          linebuf, lines := l, [l] + lines[1..];
        case Malformed =>
          rc := MALFORMED;
      }
    }

    /** One round of the loop at the start of get_data, which is to skip comments: it goes on exactly
        if the line at hand begins with the comment mark, and never uses that line up. */
    method SkipRound() returns (rc: Status, again: bool)
      requires Valid()
      modifies this`input, this`linebuf, this`lbsize
      ensures Valid() && (rc == if lines == [] then EOF else OK) && (rc == OK ==> linebuf == lines[0])
      ensures again <==> Marked(lines)
      ensures old(linebuf) != [] ==> linebuf == old(linebuf) && input == old(input) && lbsize == old(lbsize)
    {
      hide Unlines;
      rc := GetDumpLine();
      assert rc == OK ==> linebuf in lines;
      again := rc == OK && linebuf[0] == '#';
    }

    /** With such a line at hand the loop has not ended after any number of rounds. */
    method SkipRounds(n: nat) returns (again: bool)
      requires Valid() && Marked(lines)
      modifies this`input, this`linebuf, this`lbsize
      ensures Valid() && again && Marked(lines)
    {
      hide Unlines, Valid;
      again := true;
      var i := 0;
      while i < n && again
        invariant i <= n && Valid() && again
      {
        var rc;
        rc, again := SkipRound();
        i := i + 1;
      }
    }

    /** get_data.  With a comment line at hand its first loop does not come to an end; otherwise it
        ends in its first round. */
    method CollectData() returns (rc: Status)
      requires Valid() && !Marked(lines)
      modifies this
      ensures Valid() && GetData(old(lines)) == (buffer, lines) && rc == (if old(lines) == [] then EOF else OK)
    {
      hide Unlines;
      buffer, parmc := [], 0;
      ghost var all := GetData(lines);
      assert [] + all.0 == all.0;
      var again;
      rc, again := SkipRound();
      if again {
        assert false;
      }
      if rc != OK {
        return;
      }
      assert linebuf in lines;
      while rc == OK && linebuf[0] != '#'
        invariant Valid() && (rc == OK ==> lines != [] && linebuf == lines[0] && linebuf in lines)
        invariant (rc != OK ==> lines == [])
        invariant all.0 == buffer + GetData(lines).0 && all.1 == GetData(lines).1
        invariant (rc == OK || (rc == EOF && |buffer| > 0))
        decreases |lines|
      {
        var n := |linebuf|;
        if n + |buffer| > bufsize {
          bufsize := (|buffer| + n + LINE_LEN - 1) / LINE_LEN * LINE_LEN;
        }
        assert |buffer| + n <= bufsize;
        ghost var more := GetData(lines[1..]);
        assert buffer + (linebuf + more.0) == buffer + linebuf + more.0;
        buffer := buffer + linebuf;
        Consume();
        rc := GetDumpLine();
      }
      assert GetData(lines) == ([], lines) && buffer + [] == buffer;
      if rc == EOF && |buffer| > 0 {
        rc := OK;
      }
    }

    /** read_record */
    method ReadRecord() returns (rc: Status, bytes: seq<byte>, atEnd: bool)
      requires Valid() && DataFollows(lines)
      modifies this
      ensures Valid()
      ensures ReadDatum(old(lines)) == Datum(rc, bytes, lines, buffer, atEnd)
    {
      hide Unlines, GetParms, Valid;
      bytes := [];
      rc, atEnd := CollectParms();
      if rc != OK {
        return;
      }
      if parmc == 0 {
        return NOT_FOUND, [], atEnd;
      }
      var num := GetNum(buffer, "len");
      var len := num.1;
      rc := num.0;
      if rc != OK || len == 0 {
        return;
      }
      rc := CollectData();
      if rc != OK {
        atEnd := true;
        return;
      }
      var d := Decode(buffer);
      if !d.ok || d.consumed != |buffer| || |d.bytes| != len {
        return MALFORMED, [], atEnd;
      }
      bytes := d.bytes;
    }
  }

  lemma NotEmpty(line: Line)
    requires Proper(line)
    ensures |line| > 0
  {
  }

  lemma StillProper(line: Line, lenSeen: bool, l: Line)
    requires Proper(line) && line[0] == '#' && |line| > 1 && line[1] == ':'
    requires var r := ScanParms(line, line[1..], lenSeen); r.Again? && r.line == l
    ensures Proper(l)
  {
    var ok := set c | c in line;
    assert line[0] in ok && line[1] in ok;
    SuffixOver(line, 1, ok);
    ScanSame(line, line[1..], lenSeen, ok);
    ScanFits(line, line[1..], lenSeen);
  }

  lemma FirstLine(lines: seq<Line>) returns (line: Line, rest: Text)
    requires forall l :: l in lines ==> Proper(l)
    ensures lines == [] ==> Unlines(lines) == []
    ensures lines != [] ==> line == lines[0] && Proper(line) && rest == Unlines(lines[1..])
    ensures lines != [] ==> Unlines(lines) == line[0..] + ['\n'] + rest
  {
    if lines == [] {
      line, rest := [], [];
    } else {
      line, rest := lines[0], Unlines(lines[1..]);
    }
  }

  /** What fgets makes of the rest of a line. */
  lemma ChunkOf(tail: Text, rest: Text, buf: Text)
    requires (forall i :: 0 <= i < |tail| ==> tail[i] != '\n') && buf <= tail + ['\n'] + rest && |buf| > 0
    requires forall i :: 0 <= i < |buf| - 1 ==> buf[i] != '\n'
    ensures if buf[|buf| - 1] == '\n' then buf == tail + ['\n'] && (tail + ['\n'] + rest)[|buf|..] == rest
            else buf <= tail && (tail + ['\n'] + rest)[|buf|..] == tail[|buf|..] + ['\n'] + rest
  {
    var all := tail + ['\n'] + rest;
    assert all[|tail|] == '\n';
    assert forall i :: 0 <= i < |buf| ==> buf[i] == all[i];
    assert forall i :: 0 <= i < |tail| ==> all[i] == tail[i];
    assert |buf| <= |tail| + 1;
  }
}
