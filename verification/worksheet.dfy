/** The streaming worksheet writer (`Sheet`): a row counter, an append-only
    accumulation buffer and the archive entry it flushes into. Each row is
    encoded as a `<row>` element of SpreadsheetML (ECMA-376 Part 1, section
    18.3) holding one string-typed `<c>` cell per value, appended to the
    buffer; every 100,000 rows, and on close, the buffer moves to the sink. */
module Worksheet {
  import opened Bytes
  import opened ColumnLetter
  import opened RowDigits
  import opened CellRef
  import opened Escape

  /** The buffer is flushed after each row whose number is a multiple of this. */
  const FlushInterval: nat := 100_000

  /** Written to the entry when the sheet is opened: the XML declaration, the
      `<worksheet>` root with its two namespaces, and `<sheetData>`. */
  const Header: seq<byte> := Ascii("<?xml version=\"1.0\" encoding=\"UTF-8\" standalone=\"yes\"?><worksheet xmlns=\"http://schemas.openxmlformats.org/spreadsheetml/2006/main\" xmlns:r=\"http://schemas.openxmlformats.org/officeDocument/2006/relationships\"><sheetData>")

  /** Written to the entry when the sheet is closed. */
  const Footer: seq<byte> := Ascii("</sheetData></worksheet>")

  const RowOpen: seq<byte> := Ascii("<row r=\"")
  const RowOpenEnd: seq<byte> := Ascii("\">")
  const CellOpen: seq<byte> := Ascii("<c r=\"")
  const CellOpenEnd: seq<byte> := Ascii("\" t=\"str\"><v>")
  const CellClose: seq<byte> := Ascii("</v></c>")
  const RowClose: seq<byte> := Ascii("</row>")

  /** The cell values of one row, column 0 first. */
  type Row = seq<seq<byte>>

  /** A worksheet writer: what has reached the archive entry (`sink`), the
      accumulation buffer (`buf`), and the number of rows written (`row`). */
  datatype Sheet = Sheet(sink: seq<byte>, buf: seq<byte>, row: nat)

  /** The `<c>` element of the cell in column `col` of row `row`. */
  function CellFragment(col: nat, row: nat, cell: seq<byte>): seq<byte>
  {
    CellOpen + Reference(col, row) + CellOpenEnd + Escaped(cell) + CellClose
  }

  /** The cells of row `row`, columns numbered by position from 0. */
  function CellsFragment(row: nat, cells: Row): seq<byte>
  {
    if cells == [] then []
    else CellsFragment(row, cells[..|cells| - 1]) + CellFragment(|cells| - 1, row, cells[|cells| - 1])
  }

  /** The `<row>` element of row number `row`. */
  function RowFragment(row: nat, cells: Row): seq<byte>
  {
    RowOpen + Decimal(row) + RowOpenEnd + CellsFragment(row, cells) + RowClose
  }

  /** A per-row encoding: the bytes for a row number and the row's cells. */
  type Encoding = (nat, Row) -> seq<byte>

  /** The encodings of `rows` one after another, numbered from `first + 1` on. */
  function Joined(enc: Encoding, rows: seq<Row>, first: nat): seq<byte>
  {
    if rows == [] then []
    else Joined(enc, rows[..|rows| - 1], first) + enc(first + |rows|, rows[|rows| - 1])
  }

  /** The `<row>` elements of `rows`, numbered from `first + 1` on. */
  function RowsFragment(rows: seq<Row>, first: nat): seq<byte>
  {
    Joined(RowFragment, rows, first)
  }

  /** The number of rows already flushed once `n` rows have been written: the
      largest multiple of FlushInterval not above `n`. */
  function LastFlush(n: nat): nat
  {
    n - n % FlushInterval
  }

  /** Where the last flush stands one row later: at the new row if it ends a
      flush interval, otherwise where it was. */
  lemma LastFlushStep(n: nat)
    ensures (n + 1) % FlushInterval == 0 ==> LastFlush(n + 1) == n + 1
    ensures (n + 1) % FlushInterval != 0 ==> LastFlush(n + 1) == LastFlush(n) && LastFlush(n) <= n
  {
  }

  /** The stream invariant of a writer that has written `rows` with encoding
      `enc` after `header`: the sink holds the header and every row up to the
      last flush boundary, the buffer holds the rows written since. */
  predicate StreamOf(s: Sheet, header: seq<byte>, enc: Encoding, rows: seq<Row>)
  {
    && s.row == |rows|
    && s.sink == header + Joined(enc, rows[..LastFlush(|rows|)], 0)
    && s.buf == Joined(enc, rows[LastFlush(|rows|)..], LastFlush(|rows|))
  }

  /** The stream invariant of the worksheet writer after `rows`. */
  predicate Streamed(s: Sheet, rows: seq<Row>)
  {
    StreamOf(s, Header, RowFragment, rows)
  }

  /** `Sheet::new`: the header goes to the entry before any row; the buffer is
      empty and no row has been written. */
  function New(): (s: Sheet)
    ensures Streamed(s, [])
    ensures s.sink == Header
  {
    Sheet(Header, [], 0)
  }

  /** `flush`: the whole buffer goes to the sink, leaving it empty. */
  function Flush(s: Sheet): (r: Sheet)
    ensures r.buf == []
    ensures r.sink + r.buf == s.sink + s.buf
    ensures r.row == s.row
  {
    Sheet(s.sink + s.buf, [], s.row)
  }

  /** `close`: a final flush, then the footer, once. */
  function Close(s: Sheet): (r: Sheet)
    ensures r.buf == []
    ensures r.sink == s.sink + s.buf + Footer
    ensures r.row == s.row
  {
    var f := Flush(s);
    Sheet(f.sink + Footer, f.buf, f.row)
  }

  /** Rows `write_row` can encode: the next row number must keep its digits
      within what NumToBytes and RefId support, and every column index must
      survive the `i16` narrowing in ColToLetter. */
  predicate RowFits(s: Sheet, cells: Row)
  {
    s.row < MaxRow && |cells| <= MaxColumn + 1
  }

  /** The effect of `write_row`: the counter goes up by one and the row's
      fragment is appended to the buffer; when the new row number is a
      multiple of FlushInterval the buffer is then flushed, otherwise the sink
      is untouched. */
  function RowWritten(s: Sheet, cells: Row): (r: Sheet)
    requires RowFits(s, cells)
    ensures r.row == s.row + 1
    ensures r.sink + r.buf == s.sink + s.buf + RowFragment(r.row, cells)
    ensures r.row % FlushInterval == 0 ==> r.buf == []
    ensures r.row % FlushInterval != 0 ==> r.sink == s.sink
  {
    var appended := Sheet(s.sink, s.buf + RowFragment(s.row + 1, cells), s.row + 1);
    if appended.row % FlushInterval == 0 then Flush(appended) else appended
  }

  /** The tags around a cell's reference and escaped value make up its
      element. */
  lemma CellAppended(buf: seq<byte>, col: nat, row: nat, cell: seq<byte>)
    ensures buf + CellOpen + Reference(col, row) + CellOpenEnd + Escaped(cell) + CellClose
         == buf + CellFragment(col, row, cell)
  {
    var ref, e := Reference(col, row), Escaped(cell);
    AppendAssoc(buf, CellOpen, ref);
    AppendAssoc(buf, CellOpen + ref, CellOpenEnd);
    AppendAssoc(buf, CellOpen + ref + CellOpenEnd, e);
    AppendAssoc(buf, CellOpen + ref + CellOpenEnd + e, CellClose);
  }

  /** One step of the row loop: one more cell element extends the cells
      written so far by one column. */
  lemma CellsFragmentStep(row: nat, cells: Row, col: nat, head: seq<byte>)
    requires col < |cells|
    ensures head + CellsFragment(row, cells[..col]) + CellFragment(col, row, cells[col])
         == head + CellsFragment(row, cells[..col + 1])
  {
    assert cells[..col + 1][..col] == cells[..col];
    AppendAssoc(head, CellsFragment(row, cells[..col]), CellFragment(col, row, cells[col]));
  }

  /** The body of the row loop for one value: its reference from `ref_id`
      (using the letter scratch buffer, empty on entry and left empty), the
      opening tags, the value escaped through the queues of EscapeInPlace,
      and the closing tags. */
  method WriteCell(buf: seq<byte>, letters: seq<byte>, col: nat, rowArr: seq<byte>, digits: nat, row: nat, datum: seq<byte>)
    returns (out: seq<byte>, lettersAfter: seq<byte>)
    requires col <= MaxColumn && letters == []
    requires |rowArr| == DigitWidth && digits < DigitWidth
    requires rowArr[DigitWidth - digits..] == Decimal(row)
    ensures out == buf + CellFragment(col, row, datum)
    ensures lettersAfter == []
  {
    MaxColumnLabel(col);
    var refArr, pos;
    refArr, pos, lettersAfter := RefId(letters, col, rowArr, digits);
    assert Reverse(letters) == [];
    var ref := refArr[..pos];
    out := buf + CellOpen + ref + CellOpenEnd;
    var chars, positions := EscapeInPlace(datum);
    out := AppendEscaped(out, datum, chars, positions);
    out := out + CellClose;
    CellAppended(buf, col, row, datum);
  }

  /** Closing the row: after every cell, `</row>` completes the row's
      element. */
  lemma RowClosed(prior: seq<byte>, row: nat, cells: Row, head: seq<byte>, buf: seq<byte>)
    requires head == prior + RowOpen + Decimal(row) + RowOpenEnd
    requires buf == head + CellsFragment(row, cells[..|cells|])
    ensures buf + RowClose == prior + RowFragment(row, cells)
  {
    assert cells[..|cells|] == cells;
    AppendAssoc(prior, RowOpen, Decimal(row));
    AppendAssoc(prior, RowOpen + Decimal(row), RowOpenEnd);
    AppendAssoc(prior, RowOpen + Decimal(row) + RowOpenEnd, CellsFragment(row, cells));
    AppendAssoc(prior, RowOpen + Decimal(row) + RowOpenEnd + CellsFragment(row, cells), RowClose);
  }

  /** RowWritten once the row's element has been appended to the buffer. */
  lemma RowWrittenFrom(s: Sheet, cells: Row, buf: seq<byte>)
    requires RowFits(s, cells)
    requires buf == s.buf + RowFragment(s.row + 1, cells)
    ensures (s.row + 1) % FlushInterval == 0 ==> RowWritten(s, cells) == Sheet(s.sink + buf, [], s.row + 1)
    ensures (s.row + 1) % FlushInterval != 0 ==> RowWritten(s, cells) == Sheet(s.sink, buf, s.row + 1)
  {
  }

  /** `write_row`: numbers the row, writes `<row r="N">`, then for each value
      its reference (built with the letter scratch buffer, which RefId leaves
      empty for the next cell), the opening tags, the value escaped through
      the queues of EscapeInPlace, and the closing tags; then `</row>`, and a
      flush when the row number is a multiple of FlushInterval. */
  method WriteRow(s: Sheet, cells: Row) returns (r: Sheet)
    requires RowFits(s, cells)
    ensures r == RowWritten(s, cells)
  {
    var rowNum := s.row + 1;
    var rowArr, digits := NumToBytes(rowNum);
    var head := s.buf + RowOpen + rowArr[DigitWidth - digits..] + RowOpenEnd;
    var buf := head;
    var letters: seq<byte> := [];
    var col: nat := 0;
    while col < |cells|
      invariant col <= |cells|
      invariant letters == []
      invariant buf == head + CellsFragment(rowNum, cells[..col])
    {
      CellsFragmentStep(rowNum, cells, col, head);
      buf, letters := WriteCell(buf, letters, col, rowArr, digits, rowNum, cells[col]);
      col := col + 1;
    }
    RowClosed(s.buf, rowNum, cells, head, buf);
    buf := buf + RowClose;
    RowWrittenFrom(s, cells, buf);
    r := Sheet(s.sink, buf, rowNum);
    if rowNum % FlushInterval == 0 {
      r := Flush(r);
    }
  }

  /** Encodings of consecutive runs of rows concatenate. */
  lemma {:induction false} JoinedSplit(enc: Encoding, rows: seq<Row>, first: nat, k: nat)
    requires k <= |rows|
    ensures Joined(enc, rows, first) == Joined(enc, rows[..k], first) + Joined(enc, rows[k..], first + k)
  {
    if k == |rows| {
      assert rows[..k] == rows;
      assert rows[k..] == [];
    } else {
      var p := rows[..|rows| - 1];
      JoinedSplit(enc, p, first, k);
      assert p[..k] == rows[..k];
      assert rows[k..][..|rows[k..]| - 1] == p[k..];
      assert rows[k..][|rows[k..]| - 1] == rows[|rows| - 1];
      AppendAssoc(Joined(enc, rows[..k], first), Joined(enc, p[k..], first + k),
                  enc(first + |rows|, rows[|rows| - 1]));
    }
  }

  /** Appending one row appends its encoding, numbered after the others. */
  lemma JoinedSnoc(enc: Encoding, rows: seq<Row>, cells: Row, first: nat)
    ensures Joined(enc, rows + [cells], first) == Joined(enc, rows, first) + enc(first + |rows| + 1, cells)
  {
    assert (rows + [cells])[..|rows|] == rows;
  }

  /** Under the invariant, the sink followed by the buffer is the header
      followed by the encoding of every row. */
  lemma StreamOfContent(s: Sheet, header: seq<byte>, enc: Encoding, rows: seq<Row>)
    requires StreamOf(s, header, enc, rows)
    ensures s.sink + s.buf == header + Joined(enc, rows, 0)
  {
    var k := LastFlush(|rows|);
    JoinedSplit(enc, rows, 0, k);
    AppendAssoc(header, Joined(enc, rows[..k], 0), Joined(enc, rows[k..], k));
  }

  /** A step that ends a flush interval: the sink takes the buffer and the new
      row's encoding, and the buffer ends empty. */
  lemma FlushedStepKeepsStream(s: Sheet, r: Sheet, header: seq<byte>, enc: Encoding, rows: seq<Row>, cells: Row)
    requires StreamOf(s, header, enc, rows)
    requires r.row == s.row + 1 && r.row % FlushInterval == 0
    requires r.sink == s.sink + s.buf + enc(r.row, cells) && r.buf == []
    ensures StreamOf(r, header, enc, rows + [cells])
  {
    var rows' := rows + [cells];
    LastFlushStep(|rows|);
    assert rows'[..|rows'|] == rows';
    assert rows'[|rows'|..] == [];
    JoinedSnoc(enc, rows, cells, 0);
    StreamOfContent(s, header, enc, rows);
    AppendAssoc(header, Joined(enc, rows, 0), enc(r.row, cells));
  }

  /** A step inside a flush interval: the sink stays, and the buffer takes the
      new row's encoding. */
  lemma BufferedStepKeepsStream(s: Sheet, r: Sheet, header: seq<byte>, enc: Encoding, rows: seq<Row>, cells: Row)
    requires StreamOf(s, header, enc, rows)
    requires r.row == s.row + 1 && r.row % FlushInterval != 0
    requires r.sink == s.sink && r.buf == s.buf + enc(r.row, cells)
    ensures StreamOf(r, header, enc, rows + [cells])
  {
    var rows' := rows + [cells];
    LastFlushStep(|rows|);
    var k := LastFlush(|rows|);
    assert rows'[..k] == rows[..k];
    assert rows'[k..] == rows[k..] + [cells];
    JoinedSnoc(enc, rows[k..], cells, k);
  }

  /** A step that appends one row's encoding to the stream, and empties the
      buffer exactly when the new row count ends a flush interval, keeps the
      invariant. */
  lemma StepKeepsStream(s: Sheet, r: Sheet, header: seq<byte>, enc: Encoding, rows: seq<Row>, cells: Row)
    requires StreamOf(s, header, enc, rows)
    requires r.row == s.row + 1
    requires r.sink + r.buf == s.sink + s.buf + enc(r.row, cells)
    requires r.row % FlushInterval == 0 ==> r.buf == []
    requires r.row % FlushInterval != 0 ==> r.sink == s.sink
    ensures StreamOf(r, header, enc, rows + [cells])
  {
    var e := enc(r.row, cells);
    if r.row % FlushInterval == 0 {
      assert r.sink == r.sink + r.buf;
      FlushedStepKeepsStream(s, r, header, enc, rows, cells);
    } else {
      assert r.buf == (r.sink + r.buf)[|r.sink|..];
      AppendAssoc(s.sink, s.buf, e);
      assert r.buf == s.buf + e;
      BufferedStepKeepsStream(s, r, header, enc, rows, cells);
    }
  }

  /** Right after a flush boundary the buffer is empty; one row later it holds
      just that row's encoding. */
  lemma StreamOfBoundary(s: Sheet, header: seq<byte>, enc: Encoding, rows: seq<Row>)
    requires StreamOf(s, header, enc, rows)
    ensures |rows| % FlushInterval == 0 ==> s.buf == []
    ensures |rows| % FlushInterval == 1 ==> s.buf == enc(|rows|, rows[|rows| - 1])
  {
    var n := |rows|;
    if n % FlushInterval == 0 {
      assert rows[n..] == [];
    } else if n % FlushInterval == 1 {
      assert LastFlush(n) == n - 1;
      assert rows[n - 1..] == [] + [rows[n - 1]];
      JoinedSnoc(enc, [], rows[n - 1], n - 1);
    }
  }

  /** Whatever has been flushed, the sink followed by the buffer is the header
      followed by every row written so far. */
  lemma StreamedContent(s: Sheet, rows: seq<Row>)
    requires Streamed(s, rows)
    ensures s.sink + s.buf == Header + RowsFragment(rows, 0)
  {
    StreamOfContent(s, Header, RowFragment, rows);
  }

  /** `write_row` keeps the stream invariant: the new row is buffered, and a
      flush happens exactly when the new row count reaches a flush boundary. */
  lemma RowWrittenStreams(s: Sheet, rows: seq<Row>, cells: Row)
    requires Streamed(s, rows)
    requires RowFits(s, cells)
    ensures Streamed(RowWritten(s, cells), rows + [cells])
  {
    StepKeepsStream(s, RowWritten(s, cells), Header, RowFragment, rows, cells);
  }

  /** Rows a writer starting at `first` rows can take one after another. */
  predicate RowsFit(first: nat, rows: seq<Row>)
  {
    first + |rows| <= MaxRow && forall i :: 0 <= i < |rows| ==> |rows[i]| <= MaxColumn + 1
  }

  /** The writer after `write_row` has been called once per row, in order. */
  function WriteRows(s: Sheet, rows: seq<Row>): Sheet
    requires RowsFit(s.row, rows)
    ensures WriteRows(s, rows).row == s.row + |rows|
  {
    if rows == [] then s
    else
      var before := WriteRows(s, rows[..|rows| - 1]);
      RowWritten(before, rows[|rows| - 1])
  }

  /** Writing rows one after another keeps the stream invariant, whatever
      header the sink started with. */
  lemma {:induction false} WriteRowsKeepStream(s: Sheet, header: seq<byte>, done: seq<Row>, rows: seq<Row>)
    requires StreamOf(s, header, RowFragment, done)
    requires RowsFit(s.row, rows)
    ensures StreamOf(WriteRows(s, rows), header, RowFragment, done + rows)
  {
    if rows == [] {
      assert done + rows == done;
    } else {
      var p, last := rows[..|rows| - 1], rows[|rows| - 1];
      WriteRowsKeepStream(s, header, done, p);
      var before := WriteRows(s, p);
      var after := RowWritten(before, last);
      assert WriteRows(s, rows) == after;
      StepKeepsStream(before, after, header, RowFragment, done + p, last);
      SplitLast(rows);
      AppendAssoc(done, p, [last]);
    }
  }

  /** A fresh writer fed any rows satisfies the stream invariant for them. */
  lemma WriteRowsStreams(rows: seq<Row>)
    requires RowsFit(0, rows)
    ensures Streamed(WriteRows(New(), rows), rows)
  {
    WriteRowsKeepStream(New(), Header, [], rows);
    assert [] + rows == rows;
  }

  /** The finished worksheet part: the header once, every row fragment in
      order, the footer once; nothing is left in the buffer. */
  lemma SheetPart(rows: seq<Row>)
    requires RowsFit(0, rows)
    ensures Close(WriteRows(New(), rows)) == Sheet(Header + RowsFragment(rows, 0) + Footer, [], |rows|)
  {
    WriteRowsStreams(rows);
    StreamedContent(WriteRows(New(), rows), rows);
  }

  /** Right after a flush boundary the buffer is empty; one row later it holds
      just that row. So 100,000 rows leave nothing buffered, and the 100,001st
      row stays in the buffer until the next boundary or close. */
  lemma FlushBoundary(s: Sheet, rows: seq<Row>)
    requires Streamed(s, rows)
    ensures |rows| % FlushInterval == 0 ==> s.buf == []
    ensures |rows| % FlushInterval == 1 ==> s.buf == RowFragment(|rows|, rows[|rows| - 1])
  {
    StreamOfBoundary(s, Header, RowFragment, rows);
  }

  /** A cell element can be read back: its reference attribute parses to the
      cell's column and row, and its value unescapes to the cell's bytes. */
  lemma CellFragmentDecodes(col: nat, row: nat, cell: seq<byte>)
    ensures var f, a := CellFragment(col, row, cell), |CellOpen| + |Reference(col, row)|;
      && f[..|CellOpen|] == CellOpen
      && ParseReference(f[|CellOpen|..a]) == (col, row)
      && Unescape(f[a + |CellOpenEnd|..|f| - |CellClose|]) == cell
      && f[|f| - |CellClose|..] == CellClose
  {
    var ref, e := Reference(col, row), Escaped(cell);
    var f := CellFragment(col, row, cell);
    var a := |CellOpen| + |ref|;
    assert f == CellOpen + ref + CellOpenEnd + e + CellClose;
    assert f[|CellOpen|..a] == ref;
    assert f[a + |CellOpenEnd|..|f| - |CellClose|] == e;
    ParseReferenceRoundTrip(col, row);
    UnescapeEscaped(cell);
  }

  /** Cell A1 holding "x". */
  lemma FirstCellExample()
    ensures CellFragment(0, 1, Ascii("x")) == CellOpen + Ascii("A1") + CellOpenEnd + Ascii("x") + CellClose
  {
    ReferenceExamples();
    EscapedSingle('x' as int);
    assert Ascii("x") == ['x' as int];
  }

  /** Cell B1 holding "y". */
  lemma SecondCellExample()
    ensures CellFragment(1, 1, Ascii("y")) == CellOpen + Ascii("B1") + CellOpenEnd + Ascii("y") + CellClose
  {
    ReferenceExamples();
    EscapedSingle('y' as int);
    assert Ascii("y") == ['y' as int];
  }

  /** The first row with the plain values "x" and "y" is
      `<row r="1"><c r="A1" t="str"><v>x</v></c><c r="B1" t="str"><v>y</v></c></row>`:
      references A1 and B1, values copied unchanged. */
  lemma FirstRowExample()
    ensures RowFragment(1, [Ascii("x"), Ascii("y")])
         == RowOpen + Ascii("1") + RowOpenEnd
          + (CellOpen + Ascii("A1") + CellOpenEnd + Ascii("x") + CellClose)
          + (CellOpen + Ascii("B1") + CellOpenEnd + Ascii("y") + CellClose)
          + RowClose
  {
    var x, y := Ascii("x"), Ascii("y");
    var cells: Row := [x, y];
    assert CellsFragment(1, cells) == CellFragment(0, 1, x) + CellFragment(1, 1, y) by {
      assert cells[..1] == [x] && |cells[..1][..0]| == 0;
      assert CellsFragment(1, cells[..1]) == CellFragment(0, 1, x);
    }
    assert Decimal(1) == Ascii("1") by {
      assert Decimal(0) == [];
    }
    FirstCellExample();
    SecondCellExample();
  }
}
