/** The CSV source: parsing a line, reading one page, and following the pages of a whole file. */
module CsvSource {
  import opened Text

  // ---- One line ----

  /** The values still to come, given the value being read and whether it is inside quotes. */
  function ParseRest(line: string, current: string, quoted: bool): (values: seq<string>)
    ensures values != []
    decreases |line|
  {
    if line == [] then [Trim(current)]
    else if line[0] == '"' && quoted && |line| > 1 && line[1] == '"' then ParseRest(line[2..], current + ['"'], true)
    else if line[0] == '"' then ParseRest(line[1..], current, !quoted)
    else if line[0] == ',' && !quoted then [Trim(current)] + ParseRest(line[1..], [], false)
    else ParseRest(line[1..], current + [line[0]], quoted)
  }

  function ParseLine(line: string): seq<string> { ParseRest(line, [], false) }

  method ParseCsvLine(line: string) returns (values: seq<string>)
    ensures values == ParseLine(line)
  {
    values := [];
    var current := "";
    var quoted := false;
    var i := 0;
    while i < |line|
      invariant i <= |line|
      invariant values + ParseRest(line[i..], current, quoted) == ParseLine(line)
    {
      var ch := line[i];
      i := i + 1;
      if ch == '"' && quoted && i < |line| && line[i] == '"' {
        assert line[i - 1..][2..] == line[i + 1..];
        current := current + ['"'];
        i := i + 1;
      } else if ch == '"' {
        quoted := !quoted;
      } else if ch == ',' && !quoted {
        values := values + [Trim(current)];
        current := "";
      } else {
        current := current + [ch];
      }
    }
    values := values + [Trim(current)];
  }

  // ---- Writing a line, after section 2 of RFC 4180 ----

  /** A field, and whether it is written in quotes. */
  datatype Cell = Cell(text: string, quoted: bool)

  function Doubled(text: string): string {
    if text == [] then [] else (if text[0] == '"' then ['"', '"'] else [text[0]]) + Doubled(text[1..])
  }

  function CellText(c: Cell): string { if c.quoted then ['"'] + Doubled(c.text) + ['"'] else c.text }

  function RowText(row: seq<Cell>): string {
    if row == [] then [] else if |row| == 1 then CellText(row[0]) else CellText(row[0]) + [','] + RowText(row[1..])
  }

  /** A field with a comma or a quote is written in quotes. */
  predicate Writable(c: Cell) { c.quoted || (',' !in c.text && '"' !in c.text) }

  predicate WritableRow(row: seq<Cell>) {
    row != [] && forall i :: 0 <= i < |row| ==> Writable(row[i])
  }

  function Texts(row: seq<Cell>): seq<string> {
    if row == [] then [] else [row[0].text] + Texts(row[1..])
  }

  function TrimAll(values: seq<string>): (r: seq<string>)
    ensures |r| == |values| && forall i :: 0 <= i < |values| ==> r[i] == Trim(values[i])
  {
    if values == [] then [] else [Trim(values[0])] + TrimAll(values[1..])
  }

  /** The end of a field: the end of the line or a comma. */
  predicate EndsField(rest: string) { rest == [] || rest[0] == ',' }

  lemma {:induction false} ParseQuoted(text: string, rest: string, current: string)
    requires EndsField(rest)
    ensures ParseRest(Doubled(text) + ['"'] + rest, current, true) == ParseRest(rest, current + text, false)
  {
    var line := Doubled(text) + ['"'] + rest;
    if text == [] {
      assert line == ['"'] + rest && line[1..] == rest && current + text == current;
    } else {
      var more := Doubled(text[1..]) + ['"'] + rest;
      ParseQuoted(text[1..], rest, current + [text[0]]);
      assert current + [text[0]] + text[1..] == current + text;
      if text[0] == '"' {
        assert line == ['"', '"'] + more && line[2..] == more;
      } else {
        assert line == [text[0]] + more && line[1..] == more;
      }
    }
  }

  lemma {:induction false} ParsePlain(text: string, rest: string, current: string)
    requires EndsField(rest) && ',' !in text && '"' !in text
    ensures ParseRest(text + rest, current, false) == ParseRest(rest, current + text, false)
  {
    if text == [] {
      assert text + rest == rest && current + text == current;
    } else {
      assert (text + rest)[1..] == text[1..] + rest;
      assert text[0] in text && forall c :: c in text[1..] ==> c in text;
      ParsePlain(text[1..], rest, current + [text[0]]);
      assert current + [text[0]] + text[1..] == current + text;
    }
  }

  lemma ParseCell(c: Cell, rest: string)
    requires EndsField(rest) && Writable(c)
    ensures ParseRest(CellText(c) + rest, [], false) == ParseRest(rest, c.text, false)
  {
    assert [] + c.text == c.text;
    if c.quoted {
      var line := CellText(c) + rest;
      assert line[1..] == Doubled(c.text) + ['"'] + rest;
      ParseQuoted(c.text, rest, []);
    } else {
      ParsePlain(c.text, rest, []);
    }
  }

  /** Parsing recovers the fields of every written line, quoted or not, up to their outer white space. */
  lemma {:induction false} LineReadsBack(row: seq<Cell>)
    requires WritableRow(row)
    ensures ParseLine(RowText(row)) == TrimAll(Texts(row))
  {
    if |row| == 1 {
      ParseCell(row[0], []);
      assert CellText(row[0]) + [] == CellText(row[0]);
      assert row[1..] == [];
    } else {
      var rest := [','] + RowText(row[1..]);
      assert RowText(row) == CellText(row[0]) + rest;
      ParseCell(row[0], rest);
      assert rest[1..] == RowText(row[1..]);
      LineReadsBack(row[1..]);
    }
  }

  lemma {:induction false} TrimAllFixes(values: seq<string>)
    ensures TrimAll(values) == values <==> forall i :: 0 <= i < |values| ==> Trimmed(values[i])
  {
    forall i | 0 <= i < |values| ensures Trim(values[i]) == values[i] <==> Trimmed(values[i]) {
      TrimIsTrimmed(values[i]);
      if Trimmed(values[i]) {
        TrimOfTrimmed(values[i]);
      }
    }
    if TrimAll(values) == values {
      assert forall i :: 0 <= i < |values| ==> Trim(values[i]) == values[i];
    }
  }

  lemma {:induction false} TextsAt(row: seq<Cell>)
    ensures |Texts(row)| == |row| && forall i :: 0 <= i < |row| ==> Texts(row)[i] == row[i].text
  {
    if row != [] {
      TextsAt(row[1..]);
    }
  }

  /** A written line is read back as it was if and only if no field has outer white space. */
  lemma LineRoundTripExactly(row: seq<Cell>)
    requires WritableRow(row)
    ensures ParseLine(RowText(row)) == Texts(row) <==> forall i :: 0 <= i < |row| ==> Trimmed(row[i].text)
  {
    LineReadsBack(row);
    TextsAt(row);
    TrimAllFixes(Texts(row));
    assert (forall i :: 0 <= i < |row| ==> Trimmed(row[i].text)) <==> forall i :: 0 <= i < |row| ==> Trimmed(Texts(row)[i]);
  }

  /** Even in quotes, a padded field comes back without its padding. */
  lemma PaddedFieldIsTrimmed()
    ensures ParseLine(RowText([Cell(" x", true)])) == ["x"] && Texts([Cell(" x", true)]) == [" x"]
  {
    var row := [Cell(" x", true)];
    LineReadsBack(row);
    TextsAt(row);
    assert " x"[1..] == "x";
    TrimOfTrimmed("x");
  }

  // ---- Lines of a file ----

  function LineEnd(s: string): (n: nat)
    ensures n <= |s| && '\n' !in s[..n] && (n < |s| ==> s[n] == '\n')
  {
    if s == [] || s[0] == '\n' then 0
    else
      var n := LineEnd(s[1..]);
      assert s[..n + 1] == [s[0]] + s[1..][..n];
      n + 1
  }

  function StripReturn(line: string): string {
    if line != [] && line[|line| - 1] == '\r' then line[..|line| - 1] else line
  }

  /** Lines end at a line feed, with or without a carriage return before it; the last may be unterminated. */
  function Lines(s: string): seq<string>
    decreases |s|
  {
    if s == [] then []
    else
      var n := LineEnd(s);
      if n == |s| then [s] else [StripReturn(s[..n])] + Lines(s[n + 1..])
  }

  /** The lines with a line break after each; the last break may be missing. */
  function FileText(lines: seq<string>, crlf: bool, closed: bool): string {
    if lines == [] then []
    else if |lines| == 1 && !closed then lines[0]
    else lines[0] + Break(crlf) + FileText(lines[1..], crlf, closed)
  }

  lemma LineEndAt(s: string, n: nat)
    requires n <= |s| && '\n' !in s[..n] && (n < |s| ==> s[n] == '\n')
    ensures LineEnd(s) == n
  {
    var m := LineEnd(s);
    assert forall i :: 0 <= i < m ==> s[i] in s[..m];
    assert forall i :: 0 <= i < n ==> s[i] in s[..n];
  }

  function Break(crlf: bool): string { if crlf then "\r\n" else "\n" }

  lemma FirstLine(line: string, crlf: bool, rest: string)
    requires '\n' !in line
    ensures Lines(line + Break(crlf) + rest) == [if crlf then line else StripReturn(line)] + Lines(rest)
  {
    var ended := line + if crlf then "\r" else "";
    var s := line + Break(crlf) + rest;
    assert s == ended + ['\n'] + rest;
    var n := |ended|;
    assert s[..n] == ended && s[n + 1..] == rest;
    LineEndAt(s, n);
    if crlf {
      assert StripReturn(ended) == line;
    } else {
      assert ended == line;
    }
  }

  /** No line contains a line feed; without a carriage return in the line break none ends in one; and the last line is
      not both empty and unterminated. */
  ghost predicate Intact(lines: seq<string>, crlf: bool, closed: bool) {
    && (forall i :: 0 <= i < |lines| ==> '\n' !in lines[i])
    && (forall i :: 0 <= i < |lines| && (closed || i < |lines| - 1) && !crlf ==> StripReturn(lines[i]) == lines[i])
    && (lines != [] && !closed ==> lines[|lines| - 1] != [])
  }

  lemma IntactTail(lines: seq<string>, crlf: bool, closed: bool)
    requires |lines| > 1 || (|lines| == 1 && closed)
    ensures Intact(lines, crlf, closed)
            <==> '\n' !in lines[0] && (!crlf ==> StripReturn(lines[0]) == lines[0]) && Intact(lines[1..], crlf, closed)
  {
    var rest := lines[1..];
    assert forall i :: 0 <= i < |rest| ==> rest[i] == lines[i + 1];
    if '\n' !in lines[0] && (!crlf ==> StripReturn(lines[0]) == lines[0]) && Intact(rest, crlf, closed) {
      forall i | 0 <= i < |lines| ensures '\n' !in lines[i] && ((closed || i < |lines| - 1) && !crlf ==> StripReturn(lines[i]) == lines[i]) {
        assert i == 0 || rest[i - 1] == lines[i];
      }
    }
  }

  lemma {:induction false} LinesHoldNoFeed(s: string)
    ensures forall i :: 0 <= i < |Lines(s)| ==> '\n' !in Lines(s)[i]
    decreases |s|
  {
    if s != [] {
      var n := LineEnd(s);
      if n < |s| {
        LinesHoldNoFeed(s[n + 1..]);
        assert forall c :: c in StripReturn(s[..n]) ==> c in s[..n];
      } else {
        assert s[..n] == s;
      }
    }
  }

  lemma HeadAndTail(lines: seq<string>, head: string, tail: seq<string>)
    requires lines != []
    ensures [head] + tail == lines <==> head == lines[0] && tail == lines[1..]
  {
    var all := [head] + tail;
    assert all[0] == head && all[1..] == tail;
    if head == lines[0] && tail == lines[1..] {
      assert lines == [lines[0]] + lines[1..];
    }
  }

  lemma {:induction false} FileReadsBack(lines: seq<string>, crlf: bool, closed: bool)
    requires forall i :: 0 <= i < |lines| ==> '\n' !in lines[i]
    ensures Lines(FileText(lines, crlf, closed)) == lines <==> Intact(lines, crlf, closed)
  {
    if lines == [] {
    } else if |lines| == 1 && !closed {
      LineEndAt(lines[0], |lines[0]|);
    } else {
      FileReadsBack(lines[1..], crlf, closed);
      FirstLine(lines[0], crlf, FileText(lines[1..], crlf, closed));
      IntactTail(lines, crlf, closed);
      HeadAndTail(lines, if crlf then lines[0] else StripReturn(lines[0]), Lines(FileText(lines[1..], crlf, closed)));
    }
  }

  /** A written file is read back line by line if and only if its lines are intact. */
  lemma FileRoundTripExactly(lines: seq<string>, crlf: bool, closed: bool)
    ensures Lines(FileText(lines, crlf, closed)) == lines <==> Intact(lines, crlf, closed)
  {
    if forall i :: 0 <= i < |lines| ==> '\n' !in lines[i] {
      FileReadsBack(lines, crlf, closed);
    } else {
      LinesHoldNoFeed(FileText(lines, crlf, closed));
    }
  }
}
