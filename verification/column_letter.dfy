/** Column labels of a worksheet: the bijective base-26 numeral that names a
    zero-based column index (0 is "A", 25 is "Z", 26 is "AA"), its inverse, and
    the label encoder `col_to_letter` that builds it in a reusable scratch
    buffer. */
module ColumnLetter {
  import opened Bytes

  /** The largest column `col_to_letter` handles: it narrows the index with
      `col as i16`, which keeps the value only up to 32767. */
  const MaxColumn: nat := 32767

  const LetterA: byte := 'A' as int
  const LetterZ: byte := 'Z' as int

  predicate IsLetter(b: byte)
  {
    LetterA <= b <= LetterZ
  }

  predicate AllLetters(s: seq<byte>)
  {
    forall i :: 0 <= i < |s| ==> IsLetter(s[i])
  }

  /** The label of column `col`, most significant letter first: the last
      letter is `col % 26`, and what precedes it labels `col / 26 - 1`. */
  function Label(col: nat): seq<byte>
  {
    if col < 26 then [LetterA + col] else Label(col / 26 - 1) + [LetterA + col % 26]
  }

  /** The first two columns are "A" and "B"; column 27 is "AB". */
  lemma LabelExamples()
    ensures Label(0) == Ascii("A") && Label(1) == Ascii("B")
    ensures Label(27) == Ascii("AB")
  {
    assert Label(27) == Label(0) + [LetterA + 1];
  }

  /** Where the label length changes: 25 is "Z", 26 is "AA", 701 is "ZZ" and
      702 is "AAA". */
  lemma LabelBoundaries()
    ensures Label(25) == Ascii("Z") && Label(26) == Ascii("AA")
    ensures Label(701) == Ascii("ZZ") && Label(702) == Ascii("AAA")
  {
    assert Label(26) == Label(0) + [LetterA];
    assert Label(701) == Label(25) + [LetterZ];
    assert Label(702) == Label(26) + [LetterA];
  }

  /** The one-based value of a label read as a bijective base-26 numeral whose
      digits A..Z stand for 1..26. */
  function LabelValue(s: seq<byte>): int
  {
    if s == [] then 0 else 26 * LabelValue(s[..|s| - 1]) + (s[|s| - 1] - LetterA + 1)
  }

  /** The zero-based column a label names. */
  function Column(s: seq<byte>): int
  {
    LabelValue(s) - 1
  }

  /** Every label is a non-empty run of capital letters. */
  lemma {:induction false} LabelIsLetters(col: nat)
    ensures |Label(col)| >= 1
    ensures AllLetters(Label(col))
  {
    if col >= 26 {
      LabelIsLetters(col / 26 - 1);
    }
  }

  /** Reading a label back gives the column it was made from. */
  lemma {:induction false} ColumnOfLabel(col: nat)
    ensures Column(Label(col)) == col
  {
    if col >= 26 {
      var q := col / 26 - 1;
      ColumnOfLabel(q);
      var l := Label(col);
      assert l[..|l| - 1] == Label(q);
      assert LabelValue(l) == 26 * LabelValue(Label(q)) + col % 26 + 1;
      assert LabelValue(Label(q)) == q + 1;
      assert col == 26 * (col / 26) + col % 26;
      assert LabelValue(l) == col + 1;
    } else {
      var l := Label(col);
      assert l[..0] == [];
      assert LabelValue(l[..0]) == 0;
      assert l[0] == LetterA + col;
      assert LabelValue(l) == col + 1;
    }
  }

  /** A non-empty run of capital letters has a positive value. */
  lemma {:induction false} LabelValuePositive(s: seq<byte>)
    requires |s| >= 1 && AllLetters(s)
    ensures LabelValue(s) >= 1
  {
    if |s| > 1 {
      LabelValuePositive(s[..|s| - 1]);
    }
  }

  /** Every non-empty run of capital letters is the label of exactly the
      column it names: together with ColumnOfLabel, labels and columns are in
      one-to-one correspondence. */
  lemma {:induction false} LabelOfColumn(s: seq<byte>)
    requires |s| >= 1 && AllLetters(s)
    ensures Column(s) >= 0
    ensures Label(Column(s)) == s
  {
    var p, c := s[..|s| - 1], s[|s| - 1];
    assert s == p + [c];
    if p == [] {
      assert LabelValue(p) == 0;
    } else {
      LabelValuePositive(p);
      LabelOfColumn(p);
      var v, d := LabelValue(p), c - LetterA;
      var col := 26 * v + d;
      assert col == Column(s);
      assert col / 26 == v && col % 26 == d;
    }
  }

  /** The number of columns whose label has at most `n` letters:
      26 + 26^2 + ... + 26^n. */
  function Span(n: nat): nat
  {
    if n == 0 then 0 else 26 * (Span(n - 1) + 1)
  }

  lemma {:induction false} SpanMonotonic(m: nat, n: nat)
    requires m <= n
    ensures Span(m) <= Span(n)
  {
    if m < n {
      SpanMonotonic(m, n - 1);
    }
  }

  /** A label has `n` letters exactly when its column lies in
      [Span(n - 1), Span(n)). */
  lemma {:induction false} LabelLength(col: nat)
    ensures Span(|Label(col)| - 1) <= col < Span(|Label(col)|)
  {
    LabelIsLetters(col);
    if col >= 26 {
      var q := col / 26 - 1;
      LabelLength(q);
      LabelIsLetters(q);
      assert |Label(col)| == |Label(q)| + 1;
    }
  }

  /** Columns that `col_to_letter` accepts have labels of at most four letters
      (the last of them, 32767, is "AVLH"). */
  lemma MaxColumnLabel(col: nat)
    requires col <= MaxColumn
    ensures |Label(col)| <= 4
  {
    LabelLength(col);
    if |Label(col)| > 4 {
      SpanMonotonic(4, |Label(col)| - 1);
    }
  }

  /** Spreadsheet column order: shorter labels first, labels of equal length
      alphabetically. */
  predicate ColumnBefore(a: seq<byte>, b: seq<byte>)
  {
    |a| < |b| || (|a| == |b| && exists k :: 0 <= k < |a| && a[..k] == b[..k] && a[k] < b[k])
  }

  /** Labels are produced in spreadsheet column order: a smaller index never
      gets a later label. */
  lemma {:induction false} LabelOrdered(i: nat, j: nat)
    requires i < j
    ensures ColumnBefore(Label(i), Label(j))
  {
    LabelLength(i);
    LabelLength(j);
    var li, lj := Label(i), Label(j);
    if |li| > |lj| {
      SpanMonotonic(|lj|, |li| - 1);
      assert false;
    }
    if |li| == |lj| {
      if j < 26 {
        assert li[..0] == lj[..0] && li[0] < lj[0];
      } else {
        assert i >= 26;
        var qi, qj := i / 26 - 1, j / 26 - 1;
        assert li == Label(qi) + [LetterA + i % 26];
        assert lj == Label(qj) + [LetterA + j % 26];
        var n := |li| - 1;
        if qi == qj {
          assert li[..n] == lj[..n] && li[n] < lj[n];
        } else {
          LabelOrdered(qi, qj);
          var k :| 0 <= k < |Label(qi)| && Label(qi)[..k] == Label(qj)[..k] && Label(qi)[k] < Label(qj)[k];
          assert li[..k] == Label(qi)[..k] && lj[..k] == Label(qj)[..k];
          assert li[..k] == lj[..k] && li[k] < lj[k];
        }
      }
    }
  }

  /** `col_to_letter`: pushes the letters of `col` least significant first onto
      the scratch buffer `vec`, stopping once the remaining quotient turns
      negative, then reverses the whole buffer in place. The result is the
      label followed by whatever the buffer held before, reversed; the caller
      passes an empty buffer and so gets exactly the label. */
  method ColToLetter(vec: seq<byte>, col: nat) returns (r: seq<byte>)
    requires col <= MaxColumn
    ensures r == Label(col) + Reverse(vec)
    ensures vec == [] ==> r == Label(col) && AllLetters(r) && Column(r) == col
  {
    var c: int := col;
    r := vec;
    while true
      invariant 0 <= c
      invariant |vec| <= |r| && r[..|vec|] == vec
      invariant Label(col) == Label(c) + Reverse(r[|vec|..])
      decreases c
    {
      var pushed := r + [LetterA + c % 26];
      assert Reverse(pushed[|vec|..]) == [LetterA + c % 26] + Reverse(r[|vec|..]) by {
        assert pushed[|vec|..] == r[|vec|..] + [LetterA + c % 26];
        ReverseAppend(r[|vec|..], [LetterA + c % 26]);
      }
      r := pushed;
      c := c / 26 - 1;
      if c < 0 {
        break;
      }
    }
    assert Label(col) == Reverse(r[|vec|..]);
    assert r == vec + r[|vec|..];
    ReverseAppend(vec, r[|vec|..]);
    r := Reverse(r);
    if vec == [] {
      LabelIsLetters(col);
      ColumnOfLabel(col);
    }
  }
}
