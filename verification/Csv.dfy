/**
 Exporting and importing a property table as CSV (`csvCell`, `exportPropsCsv` and `parseCsv` in
 internal/web/static/js/model.js). JavaScript strings are sequences of characters here.
*/
module Csv {

  const BOM: char := '\U{FEFF}'

  type Row = seq<string>
  type Table = seq<Row>

  // ---- printing

  function Escape(s: string): string {
    if s == "" then "" else (if s[0] == '"' then "\"\"" else [s[0]]) + Escape(s[1..])
  }

  function CsvCell(s: string): string { "\"" + Escape(s) + "\"" }

  /** `row.map(csvCell).join(',')`. */
  function PrintRow(row: Row): string {
    if row == [] then ""
    else if |row| == 1 then CsvCell(row[0])
    else CsvCell(row[0]) + "," + PrintRow(row[1..])
  }

  /** `lines.join('\r\n')`. */
  function PrintRows(table: Table): string {
    if table == [] then ""
    else if |table| == 1 then PrintRow(table[0])
    else PrintRow(table[0]) + "\r\n" + PrintRows(table[1..])
  }

  function Export(table: Table): string { [BOM] + PrintRows(table) }

  // ---- parsing

  datatype State = State(rows: Table, row: Row, field: string, inQuotes: bool)

  /** One turn of the loop at position i: the new state, and how many characters it used. */
  function Step(st: State, text: string, i: nat): (State, nat)
    requires i < |text|
  {
    var c := text[i];
    if st.inQuotes then
      if c == '"' then
        if i + 1 < |text| && text[i + 1] == '"' then (st.(field := st.field + "\""), 2)
        else (st.(inQuotes := false), 1)
      else (st.(field := st.field + [c]), 1)
    else if c == '"' then (st.(inQuotes := true), 1)
    else if c == ',' then (st.(row := st.row + [st.field], field := ""), 1)
    else if c == '\r' then (st, 1)
    else if c == '\n' then (State(st.rows + [st.row + [st.field]], [], "", false), 1)
    else (st.(field := st.field + [c]), 1)
  }

  function Finish(st: State): Table {
    if |st.field| > 0 || |st.row| > 0 then st.rows + [st.row + [st.field]] else st.rows
  }

  function Parse(st: State, text: string): Table
    decreases |text|
  {
    if text == "" then Finish(st) else var (next, used) := Step(st, text, 0); Parse(next, text[used..])
  }

  function StripBom(text: string): string {
    if text != "" && text[0] == BOM then text[1..] else text
  }

  method ParseCsv(source: string) returns (rows: Table)
    ensures rows == Parse(State([], [], "", false), StripBom(source))
  {
    rows := [];
    var row: Row, field: string, inQuotes := [], "", false;
    var text := StripBom(source);
    var i := 0;
    while i < |text|
      invariant 0 <= i <= |text|
      invariant Parse(State([], [], "", false), text) == Parse(State(rows, row, field, inQuotes), text[i..])
    {
      StepAt(State(rows, row, field, inQuotes), text, i);
      var c := text[i];
      if inQuotes {
        if c == '"' {
          if i + 1 < |text| && text[i + 1] == '"' {
            field := field + "\"";
            i := i + 2;
            continue;
          }
          inQuotes := false;
          i := i + 1;
          continue;
        }
        field := field + [c];
        i := i + 1;
        continue;
      }
      if c == '"' { inQuotes := true; i := i + 1; continue; }
      if c == ',' { row := row + [field]; field := ""; i := i + 1; continue; }
      if c == '\r' { i := i + 1; continue; }
      if c == '\n' { row := row + [field]; rows := rows + [row]; row := []; field := ""; i := i + 1; continue; }
      field := field + [c];
      i := i + 1;
    }
    assert text[i..] == "";
    if |field| > 0 || |row| > 0 {
      row := row + [field];
      rows := rows + [row];
    }
  }

  lemma StepAt(st: State, text: string, i: nat)
    requires i < |text|
    ensures var (next, used) := Step(st, text, i);
            i + used <= |text| && Parse(st, text[i..]) == Parse(next, text[i + used..])
  {
    var rest := text[i..];
    assert rest[0] == text[i] && (|rest| > 1 ==> rest[1] == text[i + 1]);
    var (next, used) := Step(st, text, i);
    assert Step(st, rest, 0) == (next, used);
    assert rest[used..] == text[i + used..];
  }

  // ---- parsing what was printed

  /** A quoted cell, whatever is in it, adds exactly its text to the current field. */
  lemma {:induction false} CellParsed(st: State, cell: string, rest: string)
    requires st.inQuotes && (rest == "" || rest[0] != '"')
    ensures Parse(st, Escape(cell) + "\"" + rest) == Parse(st.(field := st.field + cell, inQuotes := false), rest)
    decreases |cell|
  {
    var text := Escape(cell) + "\"" + rest;
    if cell == "" {
      assert text == "\"" + rest;
      assert text[1..] == rest;
      assert st.field + cell == st.field;
    } else {
      var after := Escape(cell[1..]) + "\"" + rest;
      var next := st.(field := st.field + [cell[0]]);
      if cell[0] == '"' {
        assert text == "\"\"" + after && text[2..] == after;
      } else {
        assert text == [cell[0]] + after && text[1..] == after;
      }
      CellParsed(next, cell[1..], rest);
      assert next.field + cell[1..] == st.field + cell;
    }
  }

  lemma QuotedParsed(st: State, cell: string, rest: string)
    requires !st.inQuotes && (rest == "" || rest[0] != '"')
    ensures Parse(st, CsvCell(cell) + rest) == Parse(st.(field := st.field + cell), rest)
  {
    var text := CsvCell(cell) + rest;
    assert text == ['"'] + (Escape(cell) + "\"" + rest);
    assert text[1..] == Escape(cell) + "\"" + rest;
    CellParsed(st.(inQuotes := true), cell, rest);
  }

  function Last(row: Row): string
    requires row != []
  {
    row[|row| - 1]
  }

  /** A printed row leaves all its cells but the last in the row, and the last in the field. */
  lemma {:induction false} RowParsed(rows: Table, row: Row, done: Row, rest: string)
    requires row != [] && (rest == "" || rest[0] != '"')
    ensures Parse(State(rows, done, "", false), PrintRow(row) + rest)
         == Parse(State(rows, done + row[..|row| - 1], Last(row), false), rest)
    decreases |row|
  {
    var st := State(rows, done, "", false);
    assert "" + row[0] == row[0];
    if |row| == 1 {
      QuotedParsed(st, row[0], rest);
      assert done + row[..0] == done;
    } else {
      var others := PrintRow(row[1..]) + rest;
      assert PrintRow(row) + rest == CsvCell(row[0]) + ("," + others);
      QuotedParsed(st, row[0], "," + others);
      CommaParsed(State(rows, done, row[0], false), others);
      RowParsed(rows, row[1..], done + [row[0]], rest);
      CellsShift(done, row);
    }
  }

  lemma CommaParsed(st: State, rest: string)
    requires !st.inQuotes
    ensures Parse(st, "," + rest) == Parse(State(st.rows, st.row + [st.field], "", false), rest)
  {
    assert ("," + rest)[1..] == rest;
  }

  lemma CellsShift(done: Row, row: Row)
    requires |row| >= 2
    ensures done + [row[0]] + row[1..][..|row| - 2] == done + row[..|row| - 1]
    ensures Last(row[1..]) == Last(row)
  {
    assert row[..|row| - 1] == [row[0]] + row[1..][..|row| - 2];
  }

  /** What the importer makes of a printed table: an empty row reads as one empty cell, or as nothing at the end. */
  function Reread(table: Table): Table {
    if table == [] then []
    else if |table| == 1 then (if table[0] == [] || table[0] == [""] then [] else table)
    else [if table[0] == [] then [""] else table[0]] + Reread(table[1..])
  }

  lemma RowEnd(rows: Table, row: Row, rest: string)
    ensures Parse(State(rows, [], "", false), PrintRow(row) + "\r\n" + rest)
         == Parse(State(rows + [if row == [] then [""] else row], [], "", false), rest)
  {
    var tail := "\r\n" + rest;
    assert PrintRow(row) + "\r\n" + rest == PrintRow(row) + tail;
    var st := if row == [] then State(rows, [], "", false) else State(rows, row[..|row| - 1], Last(row), false);
    if row == [] {
      assert PrintRow(row) + tail == tail;
    } else {
      RowParsed(rows, row, [], tail);
      assert [] + row[..|row| - 1] == row[..|row| - 1];
      assert row[..|row| - 1] + [Last(row)] == row;
    }
    assert tail[1..] == "\n" + rest;
    assert (tail[1..])[1..] == rest;
    assert [] + [""] == [""];
  }

  lemma {:induction false} RowsParsed(rows: Table, table: Table)
    ensures Parse(State(rows, [], "", false), PrintRows(table)) == rows + Reread(table)
    decreases |table|
  {
    if table == [] {
    } else if |table| == 1 {
      var row := table[0];
      assert PrintRow(row) + "" == PrintRow(row);
      if row != [] {
        RowParsed(rows, row, [], "");
        assert [] + row[..|row| - 1] == row[..|row| - 1];
        assert row[..|row| - 1] + [Last(row)] == row;
      }
    } else {
      RowEnd(rows, table[0], PrintRows(table[1..]));
      var row := if table[0] == [] then [""] else table[0];
      RowsParsed(rows + [row], table[1..]);
      assert rows + [row] + Reread(table[1..]) == rows + ([row] + Reread(table[1..]));
    }
  }

  /** No row is empty, and the last row is not a single empty cell. */
  predicate Printable(table: Table) {
    (forall i :: 0 <= i < |table| ==> table[i] != []) && (table != [] ==> table[|table| - 1] != [""])
  }

  /**
   Export and import undo each other, for cells of any text, exactly when no row is empty and the
   last row is not a single empty cell.
  */
  lemma RoundTripIff(table: Table)
    ensures Parse(State([], [], "", false), StripBom(Export(table))) == table <==> Printable(table)
  {
    assert StripBom(Export(table)) == PrintRows(table);
    RowsParsed([], table);
    assert [] + Reread(table) == Reread(table);
    RereadIdentity(table);
  }

  lemma {:induction false} RereadIdentity(table: Table)
    ensures Reread(table) == table <==> Printable(table)
  {
    if |table| == 1 {
      assert table == [table[0]];
    } else if |table| > 1 {
      var rest := table[1..];
      RereadIdentity(rest);
      assert table == [table[0]] + rest;
      assert Reread(table)[1..] == Reread(rest);
      assert Printable(table) <==> table[0] != [] && Printable(rest) by {
        assert rest[|rest| - 1] == table[|table| - 1];
        assert forall i :: 0 <= i < |rest| ==> rest[i] == table[i + 1];
        if Printable(table) {
          assert forall i :: 0 <= i < |rest| ==> rest[i] != [];
        }
        if table[0] != [] && Printable(rest) {
          forall i | 0 <= i < |table| ensures table[i] != [] {
            assert i == 0 || table[i] == rest[i - 1];
          }
        }
      }
    }
  }

  /** In particular for every table whose rows have at least two cells, as the exporter's do. */
  lemma WideTablesRoundTrip(table: Table)
    requires forall i :: 0 <= i < |table| ==> |table[i]| >= 2
    ensures Parse(State([], [], "", false), StripBom(Export(table))) == table
  {
    RoundTripIff(table);
  }
}
