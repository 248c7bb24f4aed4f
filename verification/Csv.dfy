/**
 * CSV export: the printer of the frontend and a reader for the quoting rules of section 2 of RFC 4180, with
 * LF between records. Cells are given after `String`.
 *
 * The printer quotes cells but joins the header line as it is, and an empty row prints like a row with one
 * empty cell. So a table is read back exactly when it has a header, every header is plain and every row has
 * a cell (`ExportReadsBackExactly`), and such tables are told apart by their text (`ExportIsInjective`).
 */
module Csv {
  import opened Strings
  import opened Wrappers

  predicate Special(c: char) {
    c == '"' || c == ',' || c == '\n'
  }

  predicate Plain(s: string) {
    forall i :: 0 <= i < |s| ==> !Special(s[i])
  }

  function Cell(s: string): string {
    if Plain(s) then s else "\"" + ReplaceAll(s, "\"", "\"\"") + "\""
  }

  /** A cell is printed as it is unless a quote, a comma or a newline stands in it; then it is quoted. */
  lemma CellQuotesWhenNeeded(s: string)
    ensures Cell(s) == s <==> '"' !in s && ',' !in s && '\n' !in s
    ensures Cell(s) != s ==> |Cell(s)| >= 2 && Cell(s)[0] == '"' && Cell(s)[|Cell(s)| - 1] == '"'
  {
    if !Plain(s) {
      var i :| 0 <= i < |s| && Special(s[i]);
      DoublingKeepsLength(s);
      hide ReplaceAll;
    }
  }

  lemma {:induction false} DoublingKeepsLength(s: string)
    ensures |ReplaceAll(s, "\"", "\"\"")| >= |s|
    decreases |s|
  {
    if s != "" { DoublingKeepsLength(s[1..]); }
  }

  function Cells(row: seq<string>): (r: seq<string>)
    ensures |r| == |row|
  {
    seq(|row|, i requires 0 <= i < |row| => Cell(row[i]))
  }

  function Lines(rows: seq<seq<string>>): (r: seq<string>)
    ensures |r| == |rows|
  {
    seq(|rows|, i requires 0 <= i < |rows| => Joined(Cells(rows[i]), ","))
  }

  /** The header line is joined as it is; only cells are quoted. */
  function ToCsv(headers: seq<string>, rows: seq<seq<string>>): string {
    Joined([Joined(headers, ",")] + Lines(rows), "\n")
  }

  // ---- The reader ----

  /** A field after its opening quote: the cell and what follows the closing quote. */
  function ReadQuoted(s: string): (r: Option<(string, string)>)
    ensures r.Some? ==> |r.value.1| < |s|
  {
    if s == "" then None
    else if s[0] != '"' then Prepended(s[0], ReadQuoted(s[1..]))
    else if |s| > 1 && s[1] == '"' then Prepended('"', ReadQuoted(s[2..]))
    else Some(("", s[1..]))
  }

  function Prepended(c: char, r: Option<(string, string)>): Option<(string, string)> {
    match r
    case None => None
    case Some((cell, rest)) => Some(([c] + cell, rest))
  }

  /** A field without quotes runs to the next separator and may hold no quote. */
  function ReadPlain(s: string): (r: Option<(string, string)>)
    ensures r.Some? ==> |r.value.1| <= |s|
  {
    if s == "" || s[0] == ',' || s[0] == '\n' then Some(("", s))
    else if s[0] == '"' then None
    else Prepended(s[0], ReadPlain(s[1..]))
  }

  function ReadCell(s: string): (r: Option<(string, string)>)
    ensures r.Some? ==> |r.value.1| <= |s|
  {
    if s != "" && s[0] == '"' then ReadQuoted(s[1..]) else ReadPlain(s)
  }

  function ReadTable(s: string): Option<seq<seq<string>>>
    decreases |s|
  {
    match ReadCell(s)
    case None => None
    case Some((cell, rest)) =>
      if rest == "" then Some([[cell]])
      else
        match ReadTable(rest[1..])
        case None => None
        case Some(rows) =>
          if rest[0] == '\n' then Some([[cell]] + rows)
          else if rest[0] == ',' && rows != [] then Some([[cell] + rows[0]] + rows[1..])
          else None
  }

  // ---- Reading back what was printed ----

  /** What may follow a cell. */
  predicate Follows(tail: string) {
    tail != "" ==> tail[0] == ',' || tail[0] == '\n'
  }

  lemma {:induction false} ReadPlainBack(s: string, tail: string)
    requires Plain(s) && Follows(tail)
    ensures ReadPlain(s + tail) == Some((s, tail))
  {
    if s == "" {
      assert s + tail == tail;
    } else {
      assert (s + tail)[1..] == s[1..] + tail;
      ReadPlainBack(s[1..], tail);
      assert [s[0]] + s[1..] == s;
    }
  }

  lemma DoubleQuoteStep(s: string, tail: string)
    requires s != ""
    ensures s == [s[0]] + s[1..]
    ensures ReplaceAll(s, "\"", "\"\"") + tail
         == (if s[0] == '"' then "\"\"" else [s[0]]) + (ReplaceAll(s[1..], "\"", "\"\"") + tail)
  {
    assert s[..1] == "\"" <==> s[0] == '"';
  }

  lemma ReadQuotedStep(c: char, rest: string)
    requires ReadQuoted(rest).Some?
    ensures ReadQuoted((if c == '"' then "\"\"" else [c]) + rest)
         == Some(([c] + ReadQuoted(rest).value.0, ReadQuoted(rest).value.1))
  {
    var text := (if c == '"' then "\"\"" else [c]) + rest;
    assert text[if c == '"' then 2 else 1..] == rest;
  }

  lemma {:induction false} ReadQuotedBack(s: string, tail: string)
    requires Follows(tail)
    ensures ReadQuoted(ReplaceAll(s, "\"", "\"\"") + ("\"" + tail)) == Some((s, tail))
  {
    if s == "" {
      assert ReplaceAll(s, "\"", "\"\"") + ("\"" + tail) == "\"" + tail;
    } else {
      hide *;
      DoubleQuoteStep(s, "\"" + tail);
      ReadQuotedBack(s[1..], tail);
      ReadQuotedStep(s[0], ReplaceAll(s[1..], "\"", "\"\"") + ("\"" + tail));
    }
  }

  lemma ReadCellBack(s: string, tail: string)
    requires Follows(tail)
    ensures ReadCell(Cell(s) + tail) == Some((s, tail))
  {
    hide *;
    if Plain(s) {
      PlainCellBack(s, tail);
    } else {
      QuotedCellBack(s, tail);
    }
  }

  lemma PlainCellBack(s: string, tail: string)
    requires Follows(tail) && Plain(s)
    ensures ReadCell(Cell(s) + tail) == Some((s, tail))
  {
    assert Cell(s) == s;
    assert s + tail == "" || (s + tail)[0] != '"';
    ReadPlainBack(s, tail);
    hide ReadPlain, Plain, Follows, ReadQuoted, Cell;
  }

  lemma QuotedCellBack(s: string, tail: string)
    requires Follows(tail) && !Plain(s)
    ensures ReadCell(Cell(s) + tail) == Some((s, tail))
  {
    var rest := ReplaceAll(s, "\"", "\"\"") + ("\"" + tail);
    assert Cell(s) == "\"" + ReplaceAll(s, "\"", "\"\"") + "\"";
    ReadQuotedBack(s, tail);
    hide Plain, Follows, ReadPlain, ReadQuoted, Cell, ReplaceAll;
    var text := Cell(s) + tail;
    assert text == "\"" + rest;
    assert text[0] == '"' && text[1..] == rest;
  }

  function Line(row: seq<string>): string {
    Joined(Cells(row), ",")
  }

  lemma LineStep(row: seq<string>, tail: string)
    requires |row| > 1
    ensures Line(row) + tail == Cell(row[0]) + "," + (Line(row[1..]) + tail)
  {
    assert Cells(row)[1..] == Cells(row[1..]);
    assert Line(row) == Cell(row[0]) + "," + Line(row[1..]);
    hide *;
  }

  /** The text behind a record that `more` records follow. */
  function Behind(more: seq<seq<string>>, text: string): string {
    if more == [] then "" else "\n" + text
  }

  /** The reader on a text that starts with a cell. */
  lemma ReadTableStep(text: string, cell: string, rest: string, rows: seq<seq<string>>)
    requires ReadCell(text) == Some((cell, rest)) && rest != "" && ReadTable(rest[1..]) == Some(rows)
    ensures rest[0] == '\n' ==> ReadTable(text) == Some([[cell]] + rows)
    ensures rest[0] == ',' && rows != [] ==> ReadTable(text) == Some([[cell] + rows[0]] + rows[1..])
  {
  }

  lemma ReadLastCellBack(cell: string, more: seq<seq<string>>, text: string)
    requires (more == [] ==> text == "") && (more != [] ==> ReadTable(text) == Some(more))
    ensures ReadTable(Cell(cell) + Behind(more, text)) == Some([[cell]] + more)
  {
    var tail := Behind(more, text);
    assert Follows(tail);
    hide Cell, ReadCell, Follows;
    ReadCellBack(cell, tail);
    if more == [] {
      assert [[cell]] + more == [[cell]];
    } else {
      assert tail[0] == '\n' && tail[1..] == text;
      hide *;
      ReadTableStep(Cell(cell) + tail, cell, tail, more);
    }
  }

  lemma ReadNextCellBack(cell: string, rest: string, row: seq<string>, more: seq<seq<string>>)
    requires ReadTable(rest) == Some([row] + more)
    ensures ReadTable(Cell(cell) + "," + rest) == Some([[cell] + row] + more)
  {
    hide *;
    var after := "," + rest;
    CommaFollows(rest);
    ReadCellBack(cell, after);
    assert Cell(cell) + "," + rest == Cell(cell) + after;
    ReadTableStep(Cell(cell) + after, cell, after, [row] + more);
    assert ([row] + more)[1..] == more;
  }

  lemma CommaFollows(rest: string)
    ensures var after := "," + rest; after[0] == ',' && after[1..] == rest && Follows(after)
  {
  }

  /** One record, and whatever the reader makes of the text behind it. */
  lemma {:induction false} ReadLineBack(row: seq<string>, more: seq<seq<string>>, text: string)
    requires row != [] && (more == [] ==> text == "") && (more != [] ==> ReadTable(text) == Some(more))
    ensures ReadTable(Line(row) + Behind(more, text)) == Some([row] + more)
    decreases |row|
  {
    var tail := Behind(more, text);
    if |row| == 1 {
      assert Line(row) == Cell(row[0]) && row == [row[0]];
      ReadLastCellBack(row[0], more, text);
    } else {
      hide *;
      LineStep(row, tail);
      ReadLineBack(row[1..], more, text);
      ReadNextCellBack(row[0], Line(row[1..]) + tail, row[1..], more);
      assert row == [row[0]] + row[1..];
    }
  }

  function Printed(rows: seq<seq<string>>): string {
    Joined(Lines(rows), "\n")
  }

  lemma PrintedStep(rows: seq<seq<string>>)
    requires rows != []
    ensures Printed(rows) == Line(rows[0]) + Behind(rows[1..], Printed(rows[1..]))
  {
    var more := rows[1..];
    assert Lines(rows)[0] == Line(rows[0]) && Lines(rows)[1..] == Lines(more);
    hide Cells, Line;
    if more == [] {
      assert Printed(rows) == Lines(rows)[0] == Lines(rows)[0] + "";
    } else {
      assert Printed(rows) == Lines(rows)[0] + "\n" + Printed(more);
    }
  }

  lemma {:induction false} ReadRowsBack(rows: seq<seq<string>>)
    requires rows != [] && forall r :: r in rows ==> r != []
    ensures ReadTable(Printed(rows)) == Some(rows)
  {
    var more := rows[1..];
    assert rows[0] in rows && forall r :: r in more ==> r in rows;
    assert rows == [rows[0]] + more && Printed([]) == "";
    PrintedStep(rows);
    hide *;
    if more != [] {
      ReadRowsBack(more);
    }
    ReadLineBack(rows[0], more, Printed(more));
  }

  ghost predicate Readable(headers: seq<string>, rows: seq<seq<string>>) {
    && headers != [] && (forall h :: h in headers ==> Plain(h))
    && forall r :: r in rows ==> r != []
  }

  /** Reading an export gives back its header and every cell, whatever they hold. */
  lemma ExportReadsBack(headers: seq<string>, rows: seq<seq<string>>)
    requires Readable(headers, rows)
    ensures ReadTable(ToCsv(headers, rows)) == Some([headers] + rows)
  {
    assert Cells(headers) == headers;
    assert [Line(headers)] + Lines(rows) == Lines([headers] + rows);
    ReadRowsBack([headers] + rows);
  }

  // ---- What reads back must have been readable ----

  lemma {:induction false} RecordsAreNonEmpty(s: string)
    requires ReadTable(s).Some?
    ensures ReadTable(s).value != [] && forall r :: r in ReadTable(s).value ==> r != []
    decreases |s|
  {
    var (cell, rest) := ReadCell(s).value;
    if rest != "" {
      RecordsAreNonEmpty(rest[1..]);
      var rows := ReadTable(rest[1..]).value;
      var all := ReadTable(s).value;
      assert all == [[cell]] + rows || all == [[cell] + rows[0]] + rows[1..];
      hide *;
      assert forall r :: r in rows[1..] ==> r in rows;
    }
  }

  /** How many quotes a text starts with. */
  function Quotes(s: string): nat {
    if s != "" && s[0] == '"' then 1 + Quotes(s[1..]) else 0
  }

  lemma {:induction false} QuotesBeforeTail(s: string, tail: string)
    requires Follows(tail)
    ensures Quotes(s + tail) == Quotes(s)
  {
    if s == "" {
      assert s + tail == tail;
    } else {
      assert (s + tail)[1..] == s[1..] + tail;
      QuotesBeforeTail(s[1..], tail);
    }
  }

  /** Reading a quoted field halves the quotes it starts with. */
  lemma {:induction false} QuotesAreHalved(s: string)
    requires ReadQuoted(s).Some?
    ensures 2 * Quotes(ReadQuoted(s).value.0) <= Quotes(s)
  {
    if s[0] != '"' {
      QuotesAreHalved(s[1..]);
      assert ReadQuoted(s).value.0[0] == s[0];
    } else if |s| > 1 && s[1] == '"' {
      QuotesAreHalved(s[2..]);
      assert s[1..][1..] == s[2..];
      assert ReadQuoted(s).value.0[1..] == ReadQuoted(s[2..]).value.0;
    }
  }

  lemma ReadPlainStep(s: string)
    requires s != "" && s[0] != ',' && s[0] != '\n' && ReadPlain(s).Some?
    ensures s == [s[0]] + s[1..] && !Special(s[0]) && ReadPlain(s[1..]).Some?
    ensures ReadPlain(s).value == ([s[0]] + ReadPlain(s[1..]).value.0, ReadPlain(s[1..]).value.1)
  {
  }

  lemma PlainCons(c: char, s: string)
    requires !Special(c) && Plain(s)
    ensures Plain([c] + s)
  {
  }

  lemma ReadPlainEmpty(s: string)
    requires s == "" || s[0] == ',' || s[0] == '\n'
    ensures ReadPlain(s) == Some(("", s)) && Plain("") && "" + s == s
  {
  }

  lemma {:induction false} UnquotedIsPlain(s: string)
    requires ReadPlain(s).Some?
    ensures Plain(ReadPlain(s).value.0) && ReadPlain(s).value.0 + ReadPlain(s).value.1 == s
  {
    hide *;
    if s == "" || s[0] == ',' || s[0] == '\n' {
      ReadPlainEmpty(s);
    } else {
      ReadPlainStep(s);
      UnquotedIsPlain(s[1..]);
      var cell, rest := ReadPlain(s[1..]).value.0, ReadPlain(s[1..]).value.1;
      PlainCons(s[0], cell);
      assert [s[0]] + cell + rest == [s[0]] + (cell + rest);
    }
  }

  /** A text printed without quoting reads back as itself only if it needed none. */
  lemma OnlyPlainReadsBack(h: string, tail: string)
    requires Follows(tail) && ReadCell(h + tail).Some? && ReadCell(h + tail).value.0 == h
    ensures Plain(h) && ReadCell(h + tail).value.1 == tail
  {
    var text := h + tail;
    if text != "" && text[0] == '"' {
      QuotesAreHalved(text[1..]);
      QuotesBeforeTail(h, tail);
      assert false;
    } else {
      UnquotedIsPlain(text);
      assert text[|h|..] == tail && text[|h|..] == ReadCell(text).value.1;
    }
  }

  /** What the reader makes of the first cell decides the first record. */
  lemma FirstRecord(text: string, row: seq<string>, more: seq<seq<string>>)
    requires ReadTable(text) == Some([row] + more) && row != []
    ensures ReadCell(text).Some? && ReadCell(text).value.0 == row[0]
    ensures var rest := ReadCell(text).value.1;
            rest != "" && rest[0] == ',' ==> ReadTable(rest[1..]) == Some([row[1..]] + more)
  {
    var (cell, rest) := ReadCell(text).value;
    var all := [row] + more;
    assert all[0] == row && all[1..] == more;
    if rest != "" && rest[0] == ',' {
      var rows := ReadTable(rest[1..]).value;
      assert all == [[cell] + rows[0]] + rows[1..];
      assert row == [cell] + rows[0] && more == rows[1..];
      assert rows == [row[1..]] + more;
    } else {
      assert all[0] == [cell];
    }
  }

  lemma JoinedStep(row: seq<string>, tail: string)
    requires |row| > 1
    ensures Joined(row, ",") + tail == row[0] + ("," + (Joined(row[1..], ",") + tail))
  {
  }

  /** A header line that reads back as it was holds plain names only. */
  lemma {:induction false} HeaderReadsBackPlain(row: seq<string>, tail: string, more: seq<seq<string>>)
    requires row != [] && (tail != "" ==> tail[0] == '\n')
    requires ReadTable(Joined(row, ",") + tail) == Some([row] + more)
    ensures forall h :: h in row ==> Plain(h)
    decreases |row|
  {
    var text := Joined(row, ",") + tail;
    FirstRecord(text, row, more);
    if |row| == 1 {
      OnlyPlainReadsBack(row[0], tail);
    } else {
      var rest := Joined(row[1..], ",") + tail;
      JoinedStep(row, tail);
      OnlyPlainReadsBack(row[0], "," + rest);
      assert ("," + rest)[1..] == rest;
      HeaderReadsBackPlain(row[1..], tail, more);
      assert row == [row[0]] + row[1..];
    }
  }

  /** An export reads back as it was if and only if its headers are plain and no
    * record, the header's included, is without cells. */
  lemma ExportReadsBackExactly(headers: seq<string>, rows: seq<seq<string>>)
    ensures ReadTable(ToCsv(headers, rows)) == Some([headers] + rows) <==> Readable(headers, rows)
  {
    if Readable(headers, rows) {
      ExportReadsBack(headers, rows);
    }
    if ReadTable(ToCsv(headers, rows)) == Some([headers] + rows) {
      var text, all := ToCsv(headers, rows), [headers] + rows;
      RecordsAreNonEmpty(text);
      assert all[0] == headers && all[1..] == rows;
      assert headers in all && forall r :: r in rows ==> r in all;
      var tail := Behind(rows, Printed(rows));
      HeaderSplit(headers, rows);
      HeaderReadsBackPlain(headers, tail, rows);
    }
  }

  lemma HeaderSplit(headers: seq<string>, rows: seq<seq<string>>)
    ensures ToCsv(headers, rows) == Joined(headers, ",") + Behind(rows, Printed(rows))
  {
    var parts := [Joined(headers, ",")] + Lines(rows);
    assert parts[1..] == Lines(rows);
    hide Cells;
    if rows == [] {
      assert Lines(rows) == [];
    }
  }

  /** Two exports with the same text hold the same table. */
  lemma ExportIsInjective(headers: seq<string>, rows: seq<seq<string>>, headers': seq<string>, rows': seq<seq<string>>)
    requires Readable(headers, rows) && Readable(headers', rows')
    requires ToCsv(headers, rows) == ToCsv(headers', rows')
    ensures headers == headers' && rows == rows'
  {
    ExportReadsBack(headers, rows);
    ExportReadsBack(headers', rows');
    assert ([headers] + rows)[0] == headers && ([headers] + rows)[1..] == rows;
    assert ([headers'] + rows')[0] == headers' && ([headers'] + rows')[1..] == rows';
  }
}
