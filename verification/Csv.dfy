/**
  CSV exports: the log export and the business export with its formula guard, read back by a reader for
  RFC 4180, section 2, with a line feed between records.
 */
module Csv {
  import opened Wrappers

  /** A cell's value: null or undefined, or the text `String(value)` gives. */
  datatype Value = Missing | Text(text: string)

  type Row = map<string, Value>

  function ValueText(value: Value): string {
    match value
    case Missing => ""
    case Text(text) => text
  }

  function FieldText(row: Row, field: string): string {
    if field in row then ValueText(row[field]) else ""
  }

  // ----- Writing

  predicate IsSpecial(c: char) { c == '"' || c == ',' || c == '\n' || c == '\r' }

  predicate NeedsQuotes(text: string) { exists i | 0 <= i < |text| :: IsSpecial(text[i]) }

  function DoubleQuotes(text: string): string {
    if text == "" then "" else (if text[0] == '"' then "\"\"" else [text[0]]) + DoubleQuotes(text[1..])
  }

  function Quote(text: string): string {
    if NeedsQuotes(text) then "\"" + DoubleQuotes(text) + "\"" else text
  }

  function Join(parts: seq<string>, separator: char): string {
    if |parts| == 0 then "" else if |parts| == 1 then parts[0] else parts[0] + [separator] + Join(parts[1..], separator)
  }

  function Quoted(cells: seq<string>): seq<string> {
    seq(|cells|, i requires 0 <= i < |cells| => Quote(cells[i]))
  }

  function Line(cells: seq<string>): string { Join(Quoted(cells), ',') }

  function Lines(table: seq<seq<string>>): seq<string> {
    seq(|table|, i requires 0 <= i < |table| => Line(table[i]))
  }

  const LOG_HEADERS: seq<string> := [
    "id", "log_type", "level", "message", "trace_id", "user_id", "ip_address", "metadata_json", "occurred_at",
      "created_at"]

  function LogCells(row: Row): seq<string> {
    seq(|LOG_HEADERS|, i requires 0 <= i < |LOG_HEADERS| => FieldText(row, LOG_HEADERS[i]))
  }

  function LogTable(rows: seq<Row>): seq<seq<string>> {
    seq(|rows|, i requires 0 <= i < |rows| => LogCells(rows[i]))
  }

  /** The log export; its header names are written as they are. */
  function ToCsv(rows: seq<Row>): string {
    Join([Join(LOG_HEADERS, ',')] + Lines(LogTable(rows)), '\n')
  }

  predicate StartsFormula(text: string) {
    text != "" && (text[0] == '=' || text[0] == '+' || text[0] == '-' || text[0] == '@')
  }

  function Guarded(text: string): string { if StartsFormula(text) then "'" + text else text }

  /** A missing value is written as it is; a text is guarded. */
  function GuardedValue(value: Value): string {
    match value
    case Missing => ""
    case Text(text) => Guarded(text)
  }

  function GuardedCells(row: Row, fields: seq<string>): seq<string> {
    seq(|fields|, i requires 0 <= i < |fields| => if fields[i] in row then GuardedValue(row[fields[i]]) else "")
  }

  function GuardedHeader(fields: seq<string>): seq<string> {
    seq(|fields|, i requires 0 <= i < |fields| => Guarded(fields[i]))
  }

  function GuardedTable(rows: seq<Row>, fields: seq<string>): seq<seq<string>> {
    seq(|rows|, i requires 0 <= i < |rows| => GuardedCells(rows[i], fields))
  }

  function EncodeBusinessCsv(rows: seq<Row>, fields: seq<string>): string {
    Join([Line(GuardedHeader(fields))] + Lines(GuardedTable(rows, fields)), '\n')
  }

  // ----- The cells, read off rows and fields

  /** What a row holds in a field: the text, or nothing when there is none. */
  predicate Holds(row: Row, field: string, text: string) {
    if field in row && row[field].Text? then text == row[field].text else |text| == 0
  }

  /** The log export has one line per row and one cell per column, with what the row holds in it. */
  lemma LogTableCells(rows: seq<Row>, r: nat, c: nat)
    requires r < |rows| && c < 10
    ensures LOG_HEADERS == ["id", "log_type", "level", "message", "trace_id", "user_id", "ip_address", "metadata_json",
                            "occurred_at", "created_at"]
    ensures |LogTable(rows)| == |rows| && |LogTable(rows)[r]| == 10
    ensures Holds(rows[r], LOG_HEADERS[c], LogTable(rows)[r][c])
  {
  }

  /** By code point: one of plus, minus, equals and at. */
  predicate Formula(text: string) { |text| >= 1 && text[0] as int in {43, 45, 61, 64} }

  /** A cell is the text with an apostrophe before it when it is a formula. */
  predicate Marked(text: string, cell: string) {
    if Formula(text) then |cell| == |text| + 1 && cell[0] as int == 39 && cell[1..] == text else cell == text
  }

  /** The business export has the fields as its header and per row what it holds in each of them, all marked. */
  lemma GuardedTableCells(rows: seq<Row>, fields: seq<string>, r: nat, c: nat)
    requires c < |fields|
    ensures |GuardedHeader(fields)| == |fields| && Marked(fields[c], GuardedHeader(fields)[c])
    ensures |GuardedTable(rows, fields)| == |rows|
    ensures r < |rows| ==>
              && |GuardedTable(rows, fields)[r]| == |fields|
              && exists text :: Holds(rows[r], fields[c], text) && Marked(text, GuardedTable(rows, fields)[r][c])
  {
    if r < |rows| {
      var text := if fields[c] in rows[r] && rows[r][fields[c]].Text? then rows[r][fields[c]].text else "";
      assert Holds(rows[r], fields[c], text) && Marked(text, GuardedTable(rows, fields)[r][c]);
    }
  }

  // ----- Reading

  /** At the start of a cell, in a plain cell, inside quotes, or after a quote that may have closed the cell. */
  datatype Mode = Start | Plain | InQuotes | AfterQuote

  /** None when the rest of the text is not CSV. */
  function Read(
    s: string, mode: Mode, cell: string, record: seq<string>, table: seq<seq<string>>): Option<seq<seq<string>>>
    decreases |s|
  {
    if s == "" then
      if mode == InQuotes then None else Some(table + [record + [cell]])
    else
      var c, rest := s[0], s[1..];
      match mode
      case InQuotes =>
        if c == '"' then Read(rest, AfterQuote, cell, record, table)
        else Read(rest, InQuotes, cell + [c], record, table)
      case _ =>
        if c == ',' then Read(rest, Start, "", record + [cell], table)
        else if c == '\n' then Read(rest, Start, "", [], table + [record + [cell]])
        else
          match mode
          case AfterQuote => if c == '"' then Read(rest, InQuotes, cell + [c], record, table) else None
          case Start =>
            if c == '"' then Read(rest, InQuotes, "", record, table)
            else if c == '\r' then None else Read(rest, Plain, [c], record, table)
          case _ => if c == '"' || c == '\r' then None else Read(rest, Plain, cell + [c], record, table)
  }

  function Parse(s: string): Option<seq<seq<string>>> { Read(s, Start, "", [], []) }

  // ----- One cell

  predicate AtCellEnd(rest: string) { rest == "" || rest[0] == ',' || rest[0] == '\n' }

  /** What reading does once a cell is complete. */
  function CellRead(rest: string, cell: string, record: seq<string>, table: seq<seq<string>>): Option<seq<seq<string>>>
    requires AtCellEnd(rest)
  {
    if rest == "" then Some(table + [record + [cell]])
    else if rest[0] == ',' then Read(rest[1..], Start, "", record + [cell], table)
    else Read(rest[1..], Start, "", [], table + [record + [cell]])
  }

  lemma {:induction false} ReadPlain(
    done: string, text: string, rest: string, record: seq<string>, table: seq<seq<string>>)
    requires !NeedsQuotes(text) && AtCellEnd(rest)
    ensures Read(text + rest, Plain, done, record, table) == CellRead(rest, done + text, record, table)
    decreases |text|
  {
    if text == "" {
      assert text + rest == rest && done + text == done;
    } else {
      assert !IsSpecial(text[0]) && !NeedsQuotes(text[1..]);
      assert (text + rest)[0] == text[0] && (text + rest)[1..] == text[1..] + rest;
      ReadPlain(done + [text[0]], text[1..], rest, record, table);
      assert done + [text[0]] + text[1..] == done + text;
    }
  }

  lemma {:induction false} ReadQuoted(
    done: string, text: string, rest: string, record: seq<string>, table: seq<seq<string>>)
    requires AtCellEnd(rest)
    ensures Read(DoubleQuotes(text) + "\"" + rest, InQuotes, done, record, table)
        == CellRead(rest, done + text, record, table)
    decreases |text|
  {
    var s := DoubleQuotes(text) + "\"" + rest;
    if text == "" {
      assert s[0] == '"' && s[1..] == rest && done + text == done;
    } else {
      ReadQuoted(done + [text[0]], text[1..], rest, record, table);
      assert done + [text[0]] + text[1..] == done + text;
      var tail := DoubleQuotes(text[1..]) + "\"" + rest;
      if text[0] == '"' {
        assert s[0] == '"' && s[1..] == "\"" + tail;
        assert s[1..][0] == '"' && s[1..][1..] == tail;
      } else {
        assert s[0] == text[0] && s[1..] == tail;
      }
    }
  }

  lemma ReadOpening(c: char, s: string, record: seq<string>, table: seq<seq<string>>)
    requires s != "" && s[0] == c
    ensures c == '"' ==> Read(s, Start, "", record, table) == Read(s[1..], InQuotes, "", record, table)
    ensures !IsSpecial(c) ==> Read(s, Start, "", record, table) == Read(s[1..], Plain, [c], record, table)
  {
  }

  lemma ReadCell(text: string, rest: string, record: seq<string>, table: seq<seq<string>>)
    requires AtCellEnd(rest)
    ensures Read(Quote(text) + rest, Start, "", record, table) == CellRead(rest, text, record, table)
  {
    if NeedsQuotes(text) {
      ReadQuotedCell(text, rest, record, table);
    } else if text == "" {
      assert Quote(text) + rest == rest;
    } else {
      ReadPlainCell(text, rest, record, table);
    }
  }

  lemma ReadQuotedCell(text: string, rest: string, record: seq<string>, table: seq<seq<string>>)
    requires AtCellEnd(rest) && NeedsQuotes(text)
    ensures Read(Quote(text) + rest, Start, "", record, table) == CellRead(rest, text, record, table)
  {
    hide Read, CellRead, NeedsQuotes, DoubleQuotes;
    var s := Quote(text) + rest;
    assert s[0] == '"' && s[1..] == DoubleQuotes(text) + "\"" + rest;
    ReadOpening('"', s, record, table);
    ReadQuoted("", text, rest, record, table);
    assert "" + text == text;
  }

  lemma ReadPlainCell(text: string, rest: string, record: seq<string>, table: seq<seq<string>>)
    requires AtCellEnd(rest) && !NeedsQuotes(text) && text != ""
    ensures Read(Quote(text) + rest, Start, "", record, table) == CellRead(rest, text, record, table)
  {
    hide Read, CellRead, DoubleQuotes;
    var s := Quote(text) + rest;
    assert !IsSpecial(text[0]) && !NeedsQuotes(text[1..]);
    assert s[0] == text[0] && s[1..] == text[1..] + rest;
    ReadOpening(text[0], s, record, table);
    hide NeedsQuotes;
    ReadPlain([text[0]], text[1..], rest, record, table);
    assert [text[0]] + text[1..] == text;
  }

  // ----- One line, all lines

  lemma {:induction false} ReadLine(cells: seq<string>, rest: string, record: seq<string>, table: seq<seq<string>>)
    requires cells != [] && (rest == "" || rest[0] == '\n')
    ensures Read(Line(cells) + rest, Start, "", record, table)
         == if rest == "" then Some(table + [record + cells])
           else Read(rest[1..], Start, "", [], table + [record + cells])
    decreases |cells|
  {
    if |cells| == 1 {
      assert Line(cells) == Quote(cells[0]);
      ReadCell(cells[0], rest, record, table);
      assert record + cells == record + [cells[0]];
    } else {
      var next := "," + (Line(cells[1..]) + rest);
      assert Quoted(cells)[1..] == Quoted(cells[1..]);
      assert Line(cells) + rest == Quote(cells[0]) + next;
      ReadCell(cells[0], next, record, table);
      assert next[1..] == Line(cells[1..]) + rest;
      ReadLine(cells[1..], rest, record + [cells[0]], table);
      assert record + [cells[0]] + cells[1..] == record + cells;
    }
  }

  lemma FirstLineThen(rows: seq<seq<string>>)
    requires |rows| > 1
    ensures Join(Lines(rows), '\n') == Line(rows[0]) + ("\n" + Join(Lines(rows[1..]), '\n'))
  {
    hide Line;
    assert Lines(rows)[1..] == Lines(rows[1..]);
  }

  lemma {:induction false} ReadLines(rows: seq<seq<string>>, table: seq<seq<string>>)
    requires rows != [] && forall i | 0 <= i < |rows| :: rows[i] != []
    ensures Read(Join(Lines(rows), '\n'), Start, "", [], table) == Some(table + rows)
    decreases |rows|
  {
    hide Read, Line;
    assert [] + rows[0] == rows[0];
    if |rows| == 1 {
      ReadLine(rows[0], "", [], table);
      assert Join(Lines(rows), '\n') == Line(rows[0]) + "";
      assert table + [rows[0]] == table + rows;
    } else {
      var next := "\n" + Join(Lines(rows[1..]), '\n');
      FirstLineThen(rows);
      assert next[1..] == Join(Lines(rows[1..]), '\n');
      assert table + [rows[0]] + rows[1..] == table + rows;
      hide Join, Lines;
      ReadLine(rows[0], next, [], table);
      ReadLines(rows[1..], table + [rows[0]]);
    }
  }

  // ----- Round trips

  /** The log export reads back as its header and exactly the texts of its cells. */
  lemma LogExportRoundTrip(rows: seq<Row>)
    ensures Parse(ToCsv(rows)) == Some([LOG_HEADERS] + LogTable(rows))
  {
    hide Read, Join, Line;
    var table := [LOG_HEADERS] + LogTable(rows);
    HeadersArePlain();
    assert LOG_HEADERS != [];
    hide LOG_HEADERS;
    assert Lines(table) == [Line(LOG_HEADERS)] + Lines(LogTable(rows));
    ReadLines(table, []);
    assert [] + table == table;
  }

  lemma HeadersArePlain()
    ensures Line(LOG_HEADERS) == Join(LOG_HEADERS, ',')
  {
    HeaderNamesArePlain();
    hide NeedsQuotes, Join;
    forall i | 0 <= i < |LOG_HEADERS| ensures Quoted(LOG_HEADERS)[i] == LOG_HEADERS[i] {}
    assert Quoted(LOG_HEADERS) == LOG_HEADERS;
  }

  lemma HeaderNamesArePlain()
    ensures !NeedsQuotes("id") && !NeedsQuotes("log_type") && !NeedsQuotes("level") && !NeedsQuotes("message")
    ensures !NeedsQuotes("trace_id") && !NeedsQuotes("user_id") && !NeedsQuotes("ip_address")
    ensures !NeedsQuotes("metadata_json") && !NeedsQuotes("occurred_at") && !NeedsQuotes("created_at")
  {
  }

  function BusinessTable(rows: seq<Row>, fields: seq<string>): seq<seq<string>> {
    [GuardedHeader(fields)] + GuardedTable(rows, fields)
  }

  lemma BusinessLines(rows: seq<Row>, fields: seq<string>)
    ensures EncodeBusinessCsv(rows, fields) == Join(Lines(BusinessTable(rows, fields)), '\n')
  {
    assert Lines(BusinessTable(rows, fields)) == [Line(GuardedHeader(fields))] + Lines(GuardedTable(rows, fields));
  }

  /** Without a column every line is empty, and reads as one empty cell. */
  lemma NoColumns(rows: seq<Row>)
    ensures Parse(EncodeBusinessCsv(rows, [])) == Some(seq(|rows| + 1, _ => [""]))
  {
    hide Read, Join;
    var table, blank := BusinessTable(rows, []), seq(|rows| + 1, _ => [""]);
    BusinessLines(rows, []);
    assert Lines(blank) == Lines(table) by {
      forall i | 0 <= i < |table| ensures Line(table[i]) == Line(blank[i]) { EmptyLines(); assert table[i] == []; }
    }
    ReadLines(blank, []);
    assert [] + blank == blank;
  }

  lemma EmptyLines()
    ensures Line([]) == Line([""]) == ""
  {
  }

  /** The business export reads back as its header and cells under the formula guard, exactly when there is a column. */
  lemma BusinessExportRoundTrip(rows: seq<Row>, fields: seq<string>)
    ensures Parse(EncodeBusinessCsv(rows, fields)) == Some(BusinessTable(rows, fields)) <==> fields != []
  {
    var table := BusinessTable(rows, fields);
    BusinessLines(rows, fields);
    if fields != [] {
      ReadLines(table, []);
      assert [] + table == table;
    } else {
      NoColumns(rows);
      assert table[0] == [];
    }
  }

  /** No cell that a reader finds in a business export starts a spreadsheet formula. */
  lemma NoFormulaCells(rows: seq<Row>, fields: seq<string>)
    ensures var parsed := Parse(EncodeBusinessCsv(rows, fields));
            && parsed.Some?
            && forall r, c | 0 <= r < |parsed.value| && 0 <= c < |parsed.value[r]| ::
                 !StartsFormula(parsed.value[r][c])
  {
    BusinessExportRoundTrip(rows, fields);
    if fields == [] { NoColumns(rows); }
  }

  /** The guard keeps texts apart, except a formula and the same text that already carries the mark. */
  lemma GuardCollides(a: string, b: string)
    ensures Guarded(a) == Guarded(b)
       <==> a == b || (StartsFormula(a) && b == "'" + a) || (StartsFormula(b) && a == "'" + b)
  {
    if StartsFormula(a) && StartsFormula(b) && Guarded(a) == Guarded(b) {
      assert Guarded(a)[1..] == a && Guarded(b)[1..] == b;
    }
  }

  // ----- A reader that takes a final line break as the end of the last record

  /** RFC 4180, section 2, rule 2: the last record may or may not have a line break after it. */
  function ParseTerminated(s: string): Option<seq<seq<string>>> {
    match Parse(s)
    case None => None
    case Some(table) =>
      if s != "" && s[|s| - 1] == '\n' && table != [] && table[|table| - 1] == [""]
      then Some(table[..|table| - 1]) else Some(table)
  }

  lemma {:induction false} JoinEndsWith(parts: seq<string>, separator: char)
    requires |parts| >= 2
    ensures Join(parts, separator) == Join(parts[..|parts| - 1], separator) + [separator] + parts[|parts| - 1]
    decreases |parts|
  {
    if |parts| > 2 {
      JoinEndsWith(parts[1..], separator);
      assert parts[1..][..|parts| - 2] == parts[..|parts| - 1][1..];
    } else {
      assert parts[1..] == [parts[1]] && parts[..1] == [parts[0]];
    }
  }

  /** Such a reader drops the last row of an export exactly when it has one column and that row's cell is empty. */
  lemma FinalLineBreakLosesRow(rows: seq<Row>, fields: seq<string>)
    requires fields != [] && rows != []
    ensures ParseTerminated(EncodeBusinessCsv(rows, fields)) == Some(BusinessTable(rows, fields))
       <==> !(|fields| == 1 && GuardedCells(rows[|rows| - 1], fields) == [""])
  {
    var table, text := BusinessTable(rows, fields), EncodeBusinessCsv(rows, fields);
    BusinessExportRoundTrip(rows, fields);
    BusinessLines(rows, fields);
    var last := GuardedCells(rows[|rows| - 1], fields);
    assert table[|table| - 1] == last;
    if last == [""] {
      assert Line(last) == Quote("") == "";
      assert Lines(table)[|table| - 1] == "";
      JoinEndsWith(Lines(table), '\n');
      assert text[|text| - 1] == '\n';
    }
  }
}
