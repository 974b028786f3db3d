/** Pages of a CSV file: one bounded page, and the file put together again by following the cursor. */
module CsvPages {
  import opened Common
  import opened Text
  import opened CsvSource

  const DEFAULT_BATCH_LIMIT: nat := 100
  const MAX_BATCH_LIMIT: nat := 1000

  datatype Plan = Plan(limit: Option<nat>, offset: Option<nat>)

  function Limit(p: Plan): (n: nat)
    ensures 1 <= n <= 1000
    ensures p.limit.None? ==> n == 100
    ensures p.limit.Some? && 1 <= p.limit.value <= 1000 ==> n == p.limit.value
    ensures p.limit.Some? && p.limit.value > 1000 ==> n == 1000
  {
    var n := if p.limit.Some? then p.limit.value else DEFAULT_BATCH_LIMIT;
    if n < 1 then 1 else if n > MAX_BATCH_LIMIT then MAX_BATCH_LIMIT else n
  }

  function Offset(p: Plan): nat { if p.offset.Some? then p.offset.value else 0 }

  /** A row: each header with its text, or nothing where the line is too short. */
  type Row = map<string, Option<string>>

  datatype Batch = Batch(rows: seq<Row>, rowCount: nat, truncated: bool, offset: nat, limit: nat, next: Option<nat>)

  function ValueAt(values: seq<string>, i: nat): Option<string> { if i < |values| then Some(values[i]) else None }

  /** Every header in turn is given its value; a repeated header keeps the last. */
  function RowOf(headers: seq<string>, values: seq<string>): Row {
    if headers == [] then map[]
    else
      var n := |headers| - 1;
      RowOf(headers[..n], values)[headers[n] := ValueAt(values, n)]
  }

  /** A row has exactly the headers, and under each the text in its last place, or nothing where the line is too short. */
  lemma {:induction false} RowReads(headers: seq<string>, values: seq<string>, h: string)
    ensures h in RowOf(headers, values) <==> h in headers
    ensures forall i :: 0 <= i < |headers| && headers[i] == h && h !in headers[i + 1..] ==>
              RowOf(headers, values)[h] == if i < |values| then Some(values[i]) else None
  {
    if headers != [] {
      var n := |headers| - 1;
      RowReads(headers[..n], values, h);
      assert headers == headers[..n] + [headers[n]];
      forall i | 0 <= i < |headers| && headers[i] == h && h !in headers[i + 1..]
        ensures RowOf(headers, values)[h] == if i < |values| then Some(values[i]) else None {
        if i < n {
          assert headers[n] == headers[i + 1..][n - i - 1];
          assert headers[..n][i] == h && headers[i + 1..] == headers[..n][i + 1..] + [headers[n]];
        }
      }
    }
  }

  function Headers(lines: seq<string>): seq<string> { if lines == [] then [] else TrimAll(ParseLine(lines[0])) }

  function Inked(lines: seq<string>): seq<string> {
    if lines == [] then [] else (if Blank(lines[0]) then [] else [lines[0]]) + Inked(lines[1..])
  }

  function RowsOf(headers: seq<string>, lines: seq<string>): (rows: seq<Row>)
    ensures |rows| == |lines|
  {
    if lines == [] then [] else [RowOf(headers, ParseLine(lines[0]))] + RowsOf(headers, lines[1..])
  }

  /** Every row of the file: blank lines do not count. */
  function AllRows(content: string): seq<Row> {
    var lines := Lines(content);
    RowsOf(Headers(lines), Inked(if lines == [] then [] else lines[1..]))
  }

  function Window<T>(all: seq<T>, offset: nat, limit: nat): seq<T> {
    if offset >= |all| then [] else if offset + limit >= |all| then all[offset..] else all[offset..offset + limit]
  }

  function BatchOf(p: Plan, rows: seq<Row>, total: nat): Batch {
    var offset := Offset(p);
    var remaining := if total < offset then 0 else total - offset;
    Batch(rows, total, |rows| < remaining, offset, Limit(p),
          if offset + |rows| < total then Some(offset + |rows|) else None)
  }

  /** The page of a list of rows. */
  function PageOf(all: seq<Row>, p: Plan): Batch { BatchOf(p, Window(all, Offset(p), Limit(p)), |all|) }

  function Read(content: string, p: Plan): Batch { PageOf(AllRows(content), p) }

  // ---- The reading loop ----

  method BuildRow(headers: seq<string>, values: seq<string>) returns (row: Row)
    ensures row == RowOf(headers, values)
  {
    row := map[];
    for i := 0 to |headers|
      invariant row == RowOf(headers[..i], values)
    {
      assert headers[..i + 1][..i] == headers[..i];
      row := row[headers[i] := ValueAt(values, i)];
    }
    assert headers[..|headers|] == headers;
  }

  lemma {:induction false} InkedConcat(a: seq<string>, b: seq<string>)
    ensures Inked(a + b) == Inked(a) + Inked(b)
  {
    if a == [] {
      assert a + b == b;
    } else {
      assert (a + b)[1..] == a[1..] + b;
      InkedConcat(a[1..], b);
    }
  }

  lemma {:induction false} RowsConcat(headers: seq<string>, a: seq<string>, b: seq<string>)
    ensures RowsOf(headers, a + b) == RowsOf(headers, a) + RowsOf(headers, b)
  {
    if a == [] {
      assert a + b == b;
    } else {
      assert (a + b)[1..] == a[1..] + b;
      RowsConcat(headers, a[1..], b);
    }
  }

  lemma WindowGrows<T>(all: seq<T>, x: T, offset: nat, limit: nat)
    ensures Window(all + [x], offset, limit)
            == Window(all, offset, limit) + if |all| >= offset && |Window(all, offset, limit)| < limit then [x] else []
  {
  }

  lemma RowsUpTo(headers: seq<string>, lines: seq<string>, i: nat)
    requires i < |lines|
    ensures RowsOf(headers, Inked(lines[..i + 1]))
            == RowsOf(headers, Inked(lines[..i])) + if Blank(lines[i]) then [] else [RowOf(headers, ParseLine(lines[i]))]
  {
    var one := [lines[i]];
    assert lines[..i + 1] == lines[..i] + one && one[1..] == [];
    InkedConcat(lines[..i], one);
    assert Inked(one) == if Blank(lines[i]) then [] else one;
    RowsConcat(headers, Inked(lines[..i]), Inked(one));
  }

  /** The page is collected in one pass over the lines, which also counts them. */
  method CollectRows(headers: seq<string>, lines: seq<string>, offset: nat, limit: nat) returns (rows: seq<Row>, total: nat)
    ensures rows == Window(RowsOf(headers, Inked(lines)), offset, limit)
    ensures total == |RowsOf(headers, Inked(lines))|
  {
    rows, total := [], 0;
    for i := 0 to |lines|
      invariant rows == Window(RowsOf(headers, Inked(lines[..i])), offset, limit)
      invariant total == |RowsOf(headers, Inked(lines[..i]))|
    {
      RowsUpTo(headers, lines, i);
      TrimBlank(lines[i]);
      if Trim(lines[i]) == [] {
        continue;
      }
      ghost var before := RowsOf(headers, Inked(lines[..i]));
      var values := ParseCsvLine(lines[i]);
      WindowGrows(before, RowOf(headers, values), offset, limit);
      if total >= offset && |rows| < limit {
        var row := BuildRow(headers, values);
        rows := rows + [row];
      }
      total := total + 1;
    }
    assert lines[..|lines|] == lines;
  }

  method ReadCsvBatch(content: string, p: Plan) returns (b: Batch)
    ensures b == Read(content, p)
  {
    var lines := Lines(content);
    var headers := Headers(lines);
    var rows, total := CollectRows(headers, if lines == [] then [] else lines[1..], Offset(p), Limit(p));
    b := BatchOf(p, rows, total);
  }

  // ---- Following the cursor ----

  lemma PageTruncated(all: seq<Row>, p: Plan)
    ensures var b := PageOf(all, p);
            && (b.truncated <==> b.next.Some?)
            && (b.next.Some? <==> Offset(p) + Limit(p) < |all|)
            && (b.next.Some? ==> |b.rows| == Limit(p) && b.next.value == Offset(p) + Limit(p))
            && b.rows == Window(all, Offset(p), Limit(p))
  {
  }

  /** A page says it is truncated exactly when it names a next offset, and then rows remain and it was full. */
  lemma TruncatedExactly(content: string, p: Plan)
    ensures var b := Read(content, p);
            && (b.truncated <==> b.next.Some?)
            && (b.next.Some? <==> Offset(p) + Limit(p) < |AllRows(content)|)
            && (b.next.Some? ==> |b.rows| == Limit(p) && b.next.value == Offset(p) + Limit(p))
  {
    PageTruncated(AllRows(content), p);
  }

  /** The rows of a page and of every page its cursor leads to, whatever limit is asked for at each offset. */
  function FollowPages(all: seq<Row>, limits: nat -> Option<nat>, offset: nat): seq<Row>
    decreases if offset < |all| then |all| - offset else 0
  {
    var p := Plan(limits(offset), Some(offset));
    PageTruncated(all, p);
    var b := PageOf(all, p);
    b.rows + if b.next.Some? then FollowPages(all, limits, b.next.value) else []
  }

  /** The pages of one file, each read as `Read` reads it. */
  function Follow(content: string, limits: nat -> Option<nat>, offset: nat): seq<Row> {
    FollowPages(AllRows(content), limits, offset)
  }

  lemma WindowAndRest<T>(all: seq<T>, offset: nat, limit: nat)
    requires offset <= |all|
    ensures Window(all, offset, limit) + (if offset + limit < |all| then all[offset + limit..] else []) == all[offset..]
  {
  }

  lemma {:induction false} FollowYieldsRest(all: seq<Row>, limits: nat -> Option<nat>, offset: nat)
    requires offset <= |all|
    ensures FollowPages(all, limits, offset) == all[offset..]
    decreases |all| - offset
  {
    var p := Plan(limits(offset), Some(offset));
    PageTruncated(all, p);
    WindowAndRest(all, offset, Limit(p));
    if PageOf(all, p).next.Some? {
      FollowYieldsRest(all, limits, PageOf(all, p).next.value);
    }
  }

  /** Following the cursor from the start yields every row once, in order. */
  lemma FollowYieldsAll(content: string, limits: nat -> Option<nat>)
    ensures Follow(content, limits, 0) == AllRows(content)
  {
    FollowYieldsRest(AllRows(content), limits, 0);
  }

  // ---- The file as written ----

  datatype Table = Table(header: seq<Cell>, records: seq<seq<Cell>>)

  /** Every row has a field, and fields with commas or quotes are written in quotes. */
  predicate WritableTable(t: Table) {
    WritableRow(t.header) && forall i :: 0 <= i < |t.records| ==> WritableRow(t.records[i])
  }

  function RowTexts(rows: seq<seq<Cell>>): (lines: seq<string>)
    ensures |lines| == |rows| && forall i :: 0 <= i < |rows| ==> lines[i] == RowText(rows[i])
  {
    if rows == [] then [] else [RowText(rows[0])] + RowTexts(rows[1..])
  }

  function TableLines(t: Table): seq<string> { [RowText(t.header)] + RowTexts(t.records) }

  function TableText(t: Table, crlf: bool, closed: bool): string { FileText(TableLines(t), crlf, closed) }

  /** The trimmed fields of every record under the headers; a record that is written as a blank line has no row. */
  function TableRows(headers: seq<string>, records: seq<seq<Cell>>): seq<Row> {
    if records == [] then []
    else
      (if Blank(RowText(records[0])) then [] else [RowOf(headers, TrimAll(Texts(records[0])))])
      + TableRows(headers, records[1..])
  }

  lemma {:induction false} RecordsReadBack(headers: seq<string>, records: seq<seq<Cell>>)
    requires forall i :: 0 <= i < |records| ==> WritableRow(records[i])
    ensures RowsOf(headers, Inked(RowTexts(records))) == TableRows(headers, records)
  {
    if records != [] {
      LineReadsBack(records[0]);
      RecordsReadBack(headers, records[1..]);
      var lines := RowTexts(records);
      assert lines[1..] == RowTexts(records[1..]);
      if Blank(lines[0]) {
        assert Inked(lines) == Inked(lines[1..]);
      } else {
        assert Inked(lines) == [lines[0]] + Inked(lines[1..]);
        assert Inked(lines)[1..] == Inked(lines[1..]);
      }
    }
  }

  lemma TrimAllTwice(values: seq<string>)
    ensures TrimAll(TrimAll(values)) == TrimAll(values)
  {
    forall i | 0 <= i < |values| ensures Trimmed(TrimAll(values)[i]) {
      TrimIsTrimmed(values[i]);
    }
    TrimAllFixes(TrimAll(values));
  }

  /** Reading recovers every table whose lines are intact, up to outer white space and blank records. */
  lemma TableReadsBack(t: Table, crlf: bool, closed: bool)
    requires WritableTable(t) && Intact(TableLines(t), crlf, closed)
    ensures AllRows(TableText(t, crlf, closed)) == TableRows(TrimAll(Texts(t.header)), t.records)
  {
    FileRoundTripExactly(TableLines(t), crlf, closed);
    LineReadsBack(t.header);
    assert TableLines(t)[1..] == RowTexts(t.records);
    TrimAllTwice(Texts(t.header));
    RecordsReadBack(TrimAll(Texts(t.header)), t.records);
  }

  /** Following the cursor recovers it too, whatever page limits are used. */
  lemma FollowReadsBack(t: Table, crlf: bool, closed: bool, limits: nat -> Option<nat>)
    requires WritableTable(t) && Intact(TableLines(t), crlf, closed)
    ensures Follow(TableText(t, crlf, closed), limits, 0) == TableRows(TrimAll(Texts(t.header)), t.records)
  {
    TableReadsBack(t, crlf, closed);
    FollowYieldsAll(TableText(t, crlf, closed), limits);
  }

  // ---- Tables that come back as they were ----

  /** Fields without line feeds or outer white space. */
  ghost predicate PlainRow(row: seq<Cell>) {
    WritableRow(row) && RowText(row) != [] && forall i :: 0 <= i < |row| ==> Trimmed(row[i].text) && '\n' !in row[i].text
  }

  ghost predicate PlainTable(t: Table) {
    PlainRow(t.header) && forall i :: 0 <= i < |t.records| ==> PlainRow(t.records[i])
  }

  function PlainRows(headers: seq<string>, records: seq<seq<Cell>>): seq<Row> {
    if records == [] then [] else [RowOf(headers, Texts(records[0]))] + PlainRows(headers, records[1..])
  }

  lemma {:induction false} DoubledKeeps(text: string, c: char)
    requires c !in text
    ensures c !in Doubled(text)
  {
    if text != [] {
      assert text[0] in text && forall d :: d in text[1..] ==> d in text;
      DoubledKeeps(text[1..], c);
    }
  }

  lemma {:induction false} RowHasNoFeed(row: seq<Cell>)
    requires row != [] && forall i :: 0 <= i < |row| ==> '\n' !in row[i].text
    ensures '\n' !in RowText(row)
  {
    DoubledKeeps(row[0].text, '\n');
    if |row| > 1 {
      RowHasNoFeed(row[1..]);
    }
  }

  lemma {:induction false} RowKeepsItsEnd(row: seq<Cell>)
    requires row != [] && forall i :: 0 <= i < |row| ==> Trimmed(row[i].text)
    ensures StripReturn(RowText(row)) == RowText(row)
  {
    if |row| > 1 {
      RowKeepsItsEnd(row[1..]);
      var head, tail := CellText(row[0]) + [','], RowText(row[1..]);
      assert RowText(row) == head + tail;
      assert tail == [] || (head + tail)[|head + tail| - 1] == tail[|tail| - 1];
    }
  }

  lemma RowInked(row: seq<Cell>)
    requires PlainRow(row)
    ensures !Blank(RowText(row))
  {
    var text := RowText(row);
    if row[0].quoted {
      assert text[0] == '"';
    } else if |row| > 1 {
      assert text[|row[0].text|] == ',';
    }
    assert !Blank(text) by {
      assert text[0] == '"' || text == row[0].text || text[|row[0].text|] == ',';
    }
  }

  lemma PlainLineIsIntact(row: seq<Cell>)
    requires PlainRow(row)
    ensures '\n' !in RowText(row) && StripReturn(RowText(row)) == RowText(row)
  {
    RowHasNoFeed(row);
    RowKeepsItsEnd(row);
  }

  lemma PlainIsIntact(t: Table, crlf: bool, closed: bool)
    requires PlainTable(t)
    ensures Intact(TableLines(t), crlf, closed)
  {
    var lines := TableLines(t);
    forall i | 0 <= i < |lines| ensures '\n' !in lines[i] && StripReturn(lines[i]) == lines[i] && lines[i] != [] {
      PlainLineIsIntact(if i == 0 then t.header else t.records[i - 1]);
    }
  }

  lemma PlainTexts(row: seq<Cell>)
    requires PlainRow(row)
    ensures TrimAll(Texts(row)) == Texts(row)
  {
    TextsAt(row);
    TrimAllFixes(Texts(row));
  }

  lemma {:induction false} PlainRecords(headers: seq<string>, records: seq<seq<Cell>>)
    requires forall i :: 0 <= i < |records| ==> PlainRow(records[i])
    ensures TableRows(headers, records) == PlainRows(headers, records)
  {
    if records != [] {
      RowInked(records[0]);
      PlainTexts(records[0]);
      PlainRecords(headers, records[1..]);
    }
  }

  /** Following the cursor recovers a table of plain fields as it was written, whatever page limits are used. */
  lemma FollowRecoversTable(t: Table, crlf: bool, closed: bool, limits: nat -> Option<nat>)
    requires PlainTable(t)
    ensures Follow(TableText(t, crlf, closed), limits, 0) == PlainRows(Texts(t.header), t.records)
  {
    PlainIsIntact(t, crlf, closed);
    FollowReadsBack(t, crlf, closed, limits);
    PlainTexts(t.header);
    PlainRecords(Texts(t.header), t.records);
  }

  /** Under distinct headers a row holds every field under its own header, and nothing else. */
  lemma {:induction false} RowHoldsFields(headers: seq<string>, values: seq<string>)
    requires forall i, j :: 0 <= i < j < |headers| ==> headers[i] != headers[j]
    ensures forall h :: h in RowOf(headers, values) <==> h in headers
    ensures forall i :: 0 <= i < |headers| ==>
              headers[i] in RowOf(headers, values) && RowOf(headers, values)[headers[i]] == ValueAt(values, i)
  {
    if headers != [] {
      var n := |headers| - 1;
      RowHoldsFields(headers[..n], values);
      assert headers == headers[..n] + [headers[n]];
      forall i | 0 <= i < |headers|
        ensures headers[i] in RowOf(headers, values) && RowOf(headers, values)[headers[i]] == ValueAt(values, i) {
        assert i == n || (headers[..n][i] == headers[i] && headers[i] != headers[n]);
      }
    }
  }
}
