/** Cell references in A1 notation: the column label followed by the row
    digits, how such a reference is read back, and `ref_id`, which assembles
    it in a fixed twelve-byte array. */
module CellRef {
  import opened Bytes
  import opened ColumnLetter
  import opened RowDigits

  /** Capacity of the `[u8; 12]` reference array. */
  const RefWidth: nat := 12

  /** The reference of zero-based column `col` in one-based row `row`. */
  function Reference(col: nat, row: nat): seq<byte>
  {
    Label(col) + Decimal(row)
  }

  /** How many letters a byte run starts with. */
  function LeadingLetters(s: seq<byte>): nat
    ensures LeadingLetters(s) <= |s|
  {
    if s == [] || !IsLetter(s[0]) then 0 else 1 + LeadingLetters(s[1..])
  }

  /** Splits a reference into the column its letters name and the row its
      digits name. */
  function ParseReference(s: seq<byte>): (int, int)
  {
    var k := LeadingLetters(s);
    (Column(s[..k]), DecimalValue(s[k..]))
  }

  lemma {:induction false} LeadingLettersAppend(a: seq<byte>, b: seq<byte>)
    requires AllLetters(a)
    requires b == [] || !IsLetter(b[0])
    ensures LeadingLetters(a + b) == |a|
  {
    if a != [] {
      assert (a + b)[1..] == a[1..] + b;
      LeadingLettersAppend(a[1..], b);
    }
  }

  /** A reference names exactly the cell it was built for: reading it back
      gives the column and the row. */
  lemma ParseReferenceRoundTrip(col: nat, row: nat)
    ensures ParseReference(Reference(col, row)) == (col, row)
  {
    var l, d := Label(col), Decimal(row);
    LabelIsLetters(col);
    DecimalRoundTrip(row);
    LeadingLettersAppend(l, d);
    var s := Reference(col, row);
    assert s[..|l|] == l && s[|l|..] == d;
    ColumnOfLabel(col);
  }

  /** The other direction: a run of letters followed by digits without a
      leading '0' is the reference of the cell it parses to. */
  lemma ReferenceOfParse(a: seq<byte>, d: seq<byte>)
    requires |a| >= 1 && AllLetters(a)
    requires AllDigits(d) && (|d| >= 1 ==> d[0] != DigitZero)
    ensures ParseReference(a + d).0 >= 0 && ParseReference(a + d).1 >= 0
    ensures Reference(ParseReference(a + d).0, ParseReference(a + d).1) == a + d
  {
    assert d == [] || !IsLetter(d[0]);
    LeadingLettersAppend(a, d);
    assert (a + d)[..|a|] == a && (a + d)[|a|..] == d;
    LabelOfColumn(a);
    DecimalOfValue(d);
  }

  /** Distinct cells get distinct references. */
  lemma ReferenceInjective(c1: nat, r1: nat, c2: nat, r2: nat)
    requires Reference(c1, r1) == Reference(c2, r2)
    ensures c1 == c2 && r1 == r2
  {
    ParseReferenceRoundTrip(c1, r1);
    ParseReferenceRoundTrip(c2, r2);
  }

  /** References of supported cells fit the twelve-byte array. */
  lemma ReferenceFits(col: nat, row: nat)
    requires col <= MaxColumn && row <= MaxRow
    ensures |Reference(col, row)| <= RefWidth
  {
    MaxColumnLabel(col);
    assert Pow10(8) == 100_000_000;
    DecimalLengthBound(row, 8);
  }

  /** `ref_id`: copies the label `col_to_letter` leaves in the scratch buffer
      into `final_arr`, then the `digits` right-aligned row digits, and clears
      the scratch buffer. `arr[..pos]` holds the reference; with an empty
      scratch buffer and digits from NumToBytes it is Reference(col, row). */
  method RefId(vec: seq<byte>, col: nat, rowArr: seq<byte>, digits: nat)
    returns (arr: seq<byte>, pos: nat, vecAfter: seq<byte>)
    requires col <= MaxColumn
    requires |rowArr| == DigitWidth && digits <= 8
    requires |vec| + |Label(col)| + digits <= RefWidth
    ensures |arr| == RefWidth && pos <= RefWidth
    ensures arr[..pos] == Label(col) + Reverse(vec) + rowArr[DigitWidth - digits..]
    ensures forall i :: pos <= i < RefWidth ==> arr[i] == 0
    ensures vecAfter == []
  {
    arr := seq(RefWidth, _ => 0);
    var letter := ColToLetter(vec, col);
    pos := 0;
    for k := 0 to |letter|
      invariant pos == k
      invariant |arr| == RefWidth
      invariant arr[..pos] == letter[..k]
      invariant forall i :: pos <= i < RefWidth ==> arr[i] == 0
    {
      arr := arr[pos := letter[k]];
      pos := pos + 1;
    }
    assert letter[..|letter|] == letter;
    var start := pos;
    for i := 0 to digits
      invariant pos == start + i
      invariant |arr| == RefWidth
      invariant arr[..pos] == letter + rowArr[(8 - digits) + 1..(8 - digits) + 1 + i]
      invariant forall j :: pos <= j < RefWidth ==> arr[j] == 0
    {
      var d := rowArr[(8 - digits) + i + 1];
      assert arr[pos := d][..pos + 1] == arr[..pos] + [d];
      assert rowArr[(8 - digits) + 1..(8 - digits) + 1 + (i + 1)]
          == rowArr[(8 - digits) + 1..(8 - digits) + 1 + i] + [d];
      arr := arr[pos := d];
      pos := pos + 1;
    }
    assert rowArr[(8 - digits) + 1..(8 - digits) + 1 + digits] == rowArr[DigitWidth - digits..];
    vecAfter := [];
  }

  /** With the scratch buffer empty and the row's digits from NumToBytes, the
      reference `ref_id` builds is that of cell (col, row). */
  method CellReference(col: nat, row: nat) returns (arr: seq<byte>, pos: nat)
    requires col <= MaxColumn && row <= MaxRow
    ensures |arr| == RefWidth && pos <= RefWidth
    ensures arr[..pos] == Reference(col, row)
  {
    var rowArr, digits := NumToBytes(row);
    MaxColumnLabel(col);
    var vecAfter;
    arr, pos, vecAfter := RefId([], col, rowArr, digits);
    assert Reverse<byte>([]) == [];
  }

  /** Column 0 of row 1 is "A1", column 1 of row 1 is "B1", column 27 of
      row 100 is "AB100". */
  lemma ReferenceExamples()
    ensures Reference(0, 1) == Ascii("A1")
    ensures Reference(1, 1) == Ascii("B1")
    ensures Reference(27, 100) == Ascii("AB100")
  {
    LabelExamples();
    DecimalExamples();
    AsciiAppend("A", "1");
    AsciiAppend("B", "1");
    AsciiAppend("AB", "100");
  }
}
