# excel-rs worksheet encoder in Dafny

This project models the streaming worksheet writer of excel-rs (`Sheet` in
`crates/excel-rs-xlsx/src/sheet.rs`). The writer turns rows of cell values
into the SpreadsheetML `<sheetData>` part of an `.xlsx` archive. It does this
without an XML library. It builds column labels in bijective base-26
(`col_to_letter`). It writes row numbers as right-aligned decimal digits in a
nine-byte array (`num_to_bytes`). It joins the two into an A1-style cell
reference in a twelve-byte array (`ref_id`). It finds the bytes XML reserves
(`escape_in_place`) and writes each value as runs of text interleaved with
entity references. Rows go to an accumulation buffer, which is flushed to the
archive entry every 100,000 rows and on close.

Modules, one file each:

- `Bytes` (`bytes.dfy`): the `byte` type, byte-string literals, reversal.
- `ColumnLetter` (`column_letter.dfy`): the label of a column (`Label`), its inverse (`Column`), and `ColToLetter`.
- `RowDigits` (`row_digits.dfy`): the decimal notation (`Decimal`), its inverse (`DecimalValue`), and `NumToBytes`.
- `CellRef` (`cell_ref.dfy`): the reference notation (`Reference`), its parser (`ParseReference`), and `RefId`.
- `Escape` (`escape.dfy`): the escaped text (`Escaped`), its inverse (`Unescape`), the reference definition of the queues (`ReservedPositions`, `EscapeQueues`), `EscapeInPlace`, and the interleaving loop of `write_row` (`AppendEscaped`).
- `Worksheet` (`worksheet.dfy`): the writer state `Sheet(sink, buf, row)`.
  - `sink` is the bytes already in the archive entry. `buf` is the accumulation buffer. `row` is the row counter.
  - `New`, `WriteRow` with its reference definition `RowWritten`, `Flush` and `Close` are the operations.
  - `WriteCell` models one pass of the cell loop. The proof helper `RowWrittenFrom` (`RowWritten` evaluated for a finished buffer) keeps the proof of `WriteRow` small.
  - The stream invariant `Streamed(s, rows)` holds between calls. The sink holds the header and every row up to the last multiple of 100,000. The buffer holds the rows written since.

Each encoder is a method that follows the source loop step by step. Each one
is proved equal to a pure reference definition. Each reference definition has
a partner:

- The column labels, row digits, cell references and escaped text have inverses (`Column`, `DecimalValue`, `ParseReference`, `Unescape`).
- Labels, digits and references round-trip in both directions. Reading back what was written gives the original. Writing what was read back from a well-formed run rebuilds the run: `ColumnOfLabel`/`LabelOfColumn`, `DecimalRoundTrip`/`DecimalOfValue`, `ParseReferenceRoundTrip`/`ReferenceOfParse`.
- Escaped text round-trips one way only (`UnescapeEscaped`). Unescaping is not injective: a bare `<` and `&lt;` both unescape to `<`, and only the second is an escaped text.
- The queue of reserved positions (`ReservedPositions`) has the exactness lemma `ReservedPositionsExact`: the queue holds every reserved offset, in order, and nothing else.

Two bounds come from the code:

- `ColToLetter` requires `col <= 32767` (`MaxColumn`, label "AVLH"), because `col_to_letter` narrows the index with `col as i16` (sheet.rs:21).
- The row counter is bounded by `MaxRow = 99,999,999`, the largest eight-digit number. A ninth digit overflows two unsigned subtractions: `char_pos -= 1` in `num_to_bytes` (sheet.rs:66) and `8 - digits` in `ref_id` (sheet.rs:48). That panics in a debug build and wraps in a release build, so the model's domain stops at `MaxRow`.

## Model

| member | source | states |
|---|---|---|
| ColumnLetter.ColToLetter | crates/excel-rs-xlsx/src/sheet.rs:19-33 | The result is the column's label followed by the earlier scratch contents reversed. With an empty scratch buffer it is exactly the label: all letters, reading back as `col`. |
| ColumnLetter.ColumnOfLabel | crates/excel-rs-xlsx/src/sheet.rs:23-29 | The label of any column reads back, in bijective base 26, as that column. |
| ColumnLetter.LabelOfColumn | crates/excel-rs-xlsx/src/sheet.rs:23-29 | Every non-empty run of capital letters is the label of exactly one column, so the labelling is a bijection. |
| ColumnLetter.LabelIsLetters | crates/excel-rs-xlsx/src/sheet.rs:23-29 | A label is non-empty and made of letters 'A'..'Z'. |
| ColumnLetter.LabelLength | crates/excel-rs-xlsx/src/sheet.rs:23-29 | A column has k letters exactly when it lies between the counts of all labels shorter than k and of all labels up to length k. |
| ColumnLetter.MaxColumnLabel | crates/excel-rs-xlsx/src/sheet.rs:21 | Every column that survives the `i16` narrowing has a label of at most four letters. |
| ColumnLetter.LabelExamples | crates/excel-rs-xlsx/src/sheet.rs:19-33 | Columns 0 and 1 are labelled "A" and "B"; column 27 is "AB". |
| ColumnLetter.LabelBoundaries | crates/excel-rs-xlsx/src/sheet.rs:19-33 | At the points where the label length changes: column 25 is "Z", 26 is "AA", 701 is "ZZ" and 702 is "AAA". |
| ColumnLetter.LabelOrdered | crates/excel-rs-xlsx/src/sheet.rs:23-31 | A later column gets a label that comes later in length-then-alphabetical order. |
| RowDigits.NumToBytes | crates/excel-rs-xlsx/src/sheet.rs:57-71 | The digit count is the length of the number's decimal notation and below nine. The digits sit right-aligned in the nine-byte array. Every slot before them is 0, and zero yields no digits. |
| RowDigits.DecimalRoundTrip | crates/excel-rs-xlsx/src/sheet.rs:63-68 | The digits produced are ASCII digits, read back as the number, and have no leading '0' for a positive row. |
| RowDigits.DecimalOfValue | crates/excel-rs-xlsx/src/sheet.rs:63-68 | Every digit run without a leading '0' is the notation of the number it reads as, so the notation is one-to-one. |
| RowDigits.DecimalExamples | crates/excel-rs-xlsx/src/sheet.rs:57-71 | Row 1 is written "1" and row 100 is written "100". |
| RowDigits.DecimalLength | crates/excel-rs-xlsx/src/sheet.rs:63-68 | A positive row with k digits lies in [10^(k-1), 10^k). |
| RowDigits.DecimalLengthBound | crates/excel-rs-xlsx/src/sheet.rs:59-61 | Numbers below 10^k need at most k digits, which is why eight-digit rows fit the array. |
| CellRef.RefId | crates/excel-rs-xlsx/src/sheet.rs:35-55 | The first `pos` bytes of the twelve-byte array are the label, the reversed earlier scratch contents and the `digits` digits taken from the right of the digit array. The rest stays 0, and the scratch buffer comes back empty. |
| CellRef.CellReference | crates/excel-rs-xlsx/src/sheet.rs:138-157 | `num_to_bytes` followed by `ref_id` with an empty scratch buffer, the combination `write_row` performs, leaves exactly the reference of cell (col, row) in the array. |
| CellRef.ParseReferenceRoundTrip | crates/excel-rs-xlsx/src/sheet.rs:35-55 | Reading a reference back, leading letters as the column and the rest as the row, gives the cell it was built for. |
| CellRef.ReferenceOfParse | crates/excel-rs-xlsx/src/sheet.rs:35-55 | Any run of one or more capital letters followed by digits without a leading '0' is the reference of the cell it parses to, so every such run is produced by exactly one cell. |
| CellRef.ReferenceInjective | crates/excel-rs-xlsx/src/sheet.rs:35-55 | Distinct cells get distinct references. |
| CellRef.ReferenceFits | crates/excel-rs-xlsx/src/sheet.rs:36 | The reference of any supported column and row fits the twelve-byte array. |
| CellRef.ReferenceExamples | crates/excel-rs-xlsx/src/sheet.rs:35-55 | Column 0 of row 1 is "A1", column 1 of row 1 is "B1", and column 27 of row 100 is "AB100". |
| Escape.EscapeInPlace | crates/excel-rs-xlsx/src/sheet.rs:73-104 | The two queues have equal length. The positions are the offsets of the reserved bytes in scan order, each in bounds and holding a reserved byte. Each entity in the other queue is the one for the byte at its position. |
| Escape.ReservedPositionsExact | crates/excel-rs-xlsx/src/sheet.rs:73-104 | The position queue is strictly increasing and contains every offset holding `<`, `>`, `'`, `&` or `"`, and no other. |
| Escape.EscapeQueuesExample | crates/excel-rs-xlsx/src/sheet.rs:79-82 | For "a<b" the scan reports only position 1, paired with "&lt;". |
| Escape.EscapeQueuesAllReserved | crates/excel-rs-xlsx/src/sheet.rs:73-104 | For the value `<>'&"` the scan reports positions 0 to 4, paired with `&lt;`, `&gt;`, `&apos;`, `&amp;` and `&quot;` in that order. |
| Escape.AppendEscaped | crates/excel-rs-xlsx/src/sheet.rs:169-182 | Writing the runs between queued positions, each followed by its entity, then the tail, appends exactly the escaped value. A value without reserved bytes is appended verbatim. |
| Escape.UnescapeEscaped | crates/excel-rs-xlsx/src/sheet.rs:78-98 | Escaping loses nothing: replacing each entity reference by its character recovers the original value. |
| Escape.EscapedHasNoMarkup | crates/excel-rs-xlsx/src/sheet.rs:78-98 | An escaped value contains no `<`, `>`, `'` or `"`, so it cannot end its `<v>` element or open a tag. |
| Escape.EscapedExample | crates/excel-rs-xlsx/src/sheet.rs:79-82 | "a<b" is written as "a&lt;b". |
| Escape.EscapedAllReserved | crates/excel-rs-xlsx/src/sheet.rs:78-98 | Each of the five reserved characters, as a value on its own, is written as `&lt;`, `&gt;`, `&apos;`, `&amp;` or `&quot;` respectively. |
| Worksheet.New | crates/excel-rs-xlsx/src/sheet.rs:107-129 | A new sheet has written the header to the entry, has an empty buffer and row counter 0, and satisfies the stream invariant for no rows. |
| Worksheet.Flush | crates/excel-rs-xlsx/src/sheet.rs:196-200 | A flush moves the buffer to the sink: sink followed by buffer is unchanged, and the buffer ends empty. |
| Worksheet.Close | crates/excel-rs-xlsx/src/sheet.rs:202-206 | Close flushes, then writes the footer once after everything buffered. |
| Worksheet.RowWritten | crates/excel-rs-xlsx/src/sheet.rs:132-194 | A row write increments the counter and appends exactly the row's fragment to the stream. The buffer is empty after a row whose number is a multiple of 100,000. Otherwise the sink is untouched. |
| Worksheet.WriteCell | crates/excel-rs-xlsx/src/sheet.rs:152-184 | One pass of the cell loop, given the row's digits and an empty scratch buffer, appends exactly the cell's `<c>` element: the reference of (col, row), then the escaped value. It hands the scratch buffer back empty for the next cell. |
| Worksheet.WriteRow | crates/excel-rs-xlsx/src/sheet.rs:132-194 | The step-by-step encoding produces exactly the result `RowWritten` specifies. |
| Worksheet.RowWrittenStreams | crates/excel-rs-xlsx/src/sheet.rs:132-194 | A row write keeps the stream invariant, with the flush happening exactly at multiples of 100,000. |
| Worksheet.StepKeepsStream | crates/excel-rs-xlsx/src/sheet.rs:187-200 | For any header and per-row encoding, a step that appends one row's bytes to sink followed by buffer keeps the stream invariant. The step must leave the buffer empty when the new count ends a flush interval and the sink untouched otherwise. |
| Worksheet.StreamOfContent | crates/excel-rs-xlsx/src/sheet.rs:196-200 | For any header and per-row encoding, under the invariant the sink followed by the buffer is the header followed by every row's bytes in order. |
| Worksheet.StreamOfBoundary | crates/excel-rs-xlsx/src/sheet.rs:189-191 | For any header and per-row encoding, under the invariant the buffer is empty after a multiple of 100,000 rows and holds only the last row one row later. |
| Worksheet.StreamedContent | crates/excel-rs-xlsx/src/sheet.rs:189-200 | Under the invariant, sink followed by buffer is the header followed by every row fragment in order, however many flushes happened. |
| Worksheet.WriteRowsKeepStream | crates/excel-rs-xlsx/src/sheet.rs:132-194 | From any sheet satisfying the invariant, writing further rows in order extends the invariant to all rows written so far. |
| Worksheet.WriteRowsStreams | crates/excel-rs-xlsx/src/sheet.rs:119-194 | A new sheet fed any sequence of rows satisfies the stream invariant for them. |
| Worksheet.SheetPart | crates/excel-rs-xlsx/src/sheet.rs:117-204 | Closing a sheet after any rows leaves the entry holding the header once, every row in order numbered from 1, and the footer once, with nothing left buffered. |
| Worksheet.FlushBoundary | crates/excel-rs-xlsx/src/sheet.rs:189-191 | After a multiple of 100,000 rows the buffer is empty. One row later it holds just that row's fragment, so with 100,001 rows the last row waits for close. |
| Worksheet.CellFragmentDecodes | crates/excel-rs-xlsx/src/sheet.rs:163-182 | A cell element reads back: its `r` attribute parses to the cell's column and row, and its `<v>` content unescapes to the value. |
| Worksheet.FirstRowExample | crates/excel-rs-xlsx/src/sheet.rs:145-187 | Row 1 with values "x" and "y" has references A1 and B1 and the values copied unchanged. |

## Left out

- The workbook (`crates/excel-rs-xlsx/src/workbook.rs`): it numbers sheets and owns the archive writer. The sheet id is only used in the part name, so nothing here depends on it.
- Opening the archive entry (sheet.rs:108-114): the compression options and the `xl/worksheets/sheet{id}.xml` part name. The entry is modelled as the byte sequence `sink`.
- I/O errors: every write is modelled as succeeding and writing all its bytes. This includes the header write, whose error the source discards with `.ok()`, and the header and footer `write` calls, which could in principle write only part of their bytes.
- `write_vectored` and `IoSlice`: modelled as concatenation, which is what writing to a `Vec<u8>` does.
- The sheet name and the writer borrow are left out. They have no effect on the bytes written.
- Writing after close: the source keeps no closed flag (it is commented out), and `close` ends the modelled life of a sheet. A row written after `Close` would land after the footer, and the model does not restrict this.
- Worksheet.RowWritten and Worksheet.WriteRow: they require a row counter below `MaxRow` and at most `MaxColumn + 1` cells. Past those bounds the model does not describe the source. Past 32767 the `i16` cast wraps the column, either to a non-negative value, whose label is written instead, or to a negative one. A negative column gives a one-byte label, and `b'A' + (col % 26) as u8` overflows unless `col % 26` is 0. A debug build panics on that overflow. Otherwise the label written is not the column's. For rows past `MaxRow`, see the next two lines.
- RowDigits.NumToBytes: it requires `n <= MaxRow`. For a nine-digit number the source writes the ninth digit into slot 0, then `char_pos -= 1` overflows. A debug build panics on that subtraction. A release build wraps it and leaves the loop with the digits right, since the number is then used up. A ten-digit `u32` panics in every build: on the subtraction in a debug build, and on the bounds check of `arr[usize::MAX]` in a release build. The model does not describe nine-digit numbers.
- CellRef.RefId: it requires at most eight digits and a reference of at most twelve bytes. With nine digits, a debug build panics on the subtraction `8 - digits`. A release build wraps it, so the right digits are still copied when the label has at most three letters. With a four-letter label and nine digits the source panics in every build: on that subtraction in a debug build, and on the bounds check of `final_arr[12]` in a release build. The model does not describe nine-digit rows.
- The scratch buffer `global_shared_letter_vec` (sheet.rs:16) is not a field of `Sheet`. It persists across rows in the source, but `ref_id` always clears it before returning (sheet.rs:52) and has no early return. So it is empty at the start of every cell, and `WriteRow` starts each row with an empty local buffer instead.
- ColumnLetter.ColToLetter: it requires `col <= 32767` and does not model the wrap-around of the `i16` cast for larger indices.
- The `u32` row counter's own overflow is not modelled: it lies far beyond `MaxRow`.
- Typed sheets, styling, the format module and the benchmark scripts are not part of this model.
