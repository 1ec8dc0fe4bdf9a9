/** Row numbers as decimal ASCII digits: the reference notation, its reading
    back, and `num_to_bytes`, which writes the digits right-aligned into a
    fixed nine-byte array. */
module RowDigits {
  import opened Bytes

  const DigitZero: byte := '0' as int
  const DigitNine: byte := '9' as int

  /** Capacity of the `[u8; 9]` digit array. */
  const DigitWidth: nat := 9

  /** The largest row `num_to_bytes` handles: its write position `char_pos` is
      a `usize` decremented after every digit, which underflows once a ninth
      digit has been written. */
  const MaxRow: nat := 99_999_999

  predicate IsDigit(b: byte)
  {
    DigitZero <= b <= DigitNine
  }

  predicate AllDigits(s: seq<byte>)
  {
    forall i :: 0 <= i < |s| ==> IsDigit(s[i])
  }

  function Pow10(k: nat): nat
  {
    if k == 0 then 1 else 10 * Pow10(k - 1)
  }

  /** The decimal digits of `n`, most significant first; zero has none. */
  function Decimal(n: nat): seq<byte>
  {
    if n == 0 then [] else Decimal(n / 10) + [DigitZero + n % 10]
  }

  /** Rows 1 and 100 are written "1" and "100". */
  lemma DecimalExamples()
    ensures Decimal(1) == Ascii("1")
    ensures Decimal(100) == Ascii("100")
  {
    assert Decimal(0) == [];
    assert Decimal(10) == Decimal(1) + [DigitZero];
  }

  /** A run of digits read as a decimal number. */
  function DecimalValue(s: seq<byte>): int
  {
    if s == [] then 0 else 10 * DecimalValue(s[..|s| - 1]) + (s[|s| - 1] - DigitZero)
  }

  /** The digits of a positive number are ASCII digits without a leading '0',
      and they read back as the number. */
  lemma {:induction false} DecimalRoundTrip(n: nat)
    ensures AllDigits(Decimal(n))
    ensures DecimalValue(Decimal(n)) == n
    ensures n >= 1 ==> |Decimal(n)| >= 1 && Decimal(n)[0] != DigitZero
  {
    if n > 0 {
      var q, r := n / 10, n % 10;
      assert n == 10 * q + r;
      DecimalRoundTrip(q);
      var p, c := Decimal(q), DigitZero + r;
      var d := Decimal(n);
      assert d == p + [c];
      assert d[..|d| - 1] == p && d[|d| - 1] == c;
      assert DecimalValue(d) == 10 * DecimalValue(p) + r;
      forall i | 0 <= i < |d|
        ensures IsDigit(d[i])
      {
        if i < |p| {
          assert d[i] == p[i];
        }
      }
      if q == 0 {
        assert d[0] == c;
      } else {
        assert d[0] == p[0];
      }
    }
  }

  /** A positive number has exactly as many digits as its decimal length:
      10^(k-1) <= n < 10^k for k digits. */
  lemma {:induction false} DecimalLength(n: nat)
    requires n >= 1
    ensures |Decimal(n)| >= 1
    ensures Pow10(|Decimal(n)| - 1) <= n < Pow10(|Decimal(n)|)
  {
    var q := n / 10;
    if q >= 1 {
      DecimalLength(q);
    } else {
      assert Decimal(q) == [];
    }
  }

  /** Numbers below 10^k have at most k digits. */
  lemma {:induction false} DecimalLengthBound(n: nat, k: nat)
    requires n < Pow10(k)
    ensures |Decimal(n)| <= k
  {
    if n > 0 {
      DecimalLengthBound(n / 10, k - 1);
    }
  }

  /** A digit run without a leading '0' is non-zero. */
  lemma {:induction false} DecimalValuePositive(s: seq<byte>)
    requires |s| >= 1 && AllDigits(s) && s[0] != DigitZero
    ensures DecimalValue(s) >= 1
  {
    if |s| > 1 {
      DecimalValuePositive(s[..|s| - 1]);
    } else {
      assert s[..0] == [];
    }
  }

  /** Every digit run without a leading '0' is the notation of the number it
      reads as: together with DecimalRoundTrip, the notation is one-to-one. */
  lemma {:induction false} DecimalOfValue(s: seq<byte>)
    requires AllDigits(s)
    requires |s| >= 1 ==> s[0] != DigitZero
    ensures DecimalValue(s) >= 0
    ensures Decimal(DecimalValue(s)) == s
  {
    if s != [] {
      var p, d := s[..|s| - 1], s[|s| - 1];
      assert s == p + [d];
      var v := DecimalValue(s);
      if p == [] {
        assert DecimalValue(p) == 0;
        assert v == d - DigitZero;
        assert Decimal(v / 10) == [];
      } else {
        DecimalValuePositive(p);
        DecimalOfValue(p);
        assert v == 10 * DecimalValue(p) + (d - DigitZero);
        assert v / 10 == DecimalValue(p) && v % 10 == d - DigitZero;
      }
    }
  }

  /** `num_to_bytes`: peels off `n % 10` from the right into `arr[char_pos]`,
      moving `char_pos` left from 8, until nothing is left of `n`. The digits
      end up right-aligned in the array; the slots before them stay 0. For
      `n == 0` no digit is written. */
  method NumToBytes(n: nat) returns (arr: seq<byte>, digits: nat)
    requires n <= MaxRow
    ensures |arr| == DigitWidth
    ensures digits == |Decimal(n)| && digits < DigitWidth
    ensures arr[DigitWidth - digits..] == Decimal(n)
    ensures forall i :: 0 <= i < DigitWidth - digits ==> arr[i] == 0
  {
    assert Pow10(8) == 100_000_000;
    DecimalLengthBound(n, 8);
    arr := seq(DigitWidth, _ => 0);
    var row := n;
    var charPos: nat := 8;
    digits := 0;
    while row > 0
      invariant charPos + digits == 8
      invariant |arr| == DigitWidth
      invariant digits + |Decimal(row)| == |Decimal(n)|
      invariant Decimal(n) == Decimal(row) + arr[DigitWidth - digits..]
      invariant forall i :: 0 <= i < DigitWidth - digits ==> arr[i] == 0
    {
      var d: byte := DigitZero + row % 10;
      assert Decimal(row) == Decimal(row / 10) + [d];
      assert arr[charPos := d][DigitWidth - (digits + 1)..] == [d] + arr[DigitWidth - digits..];
      arr := arr[charPos := d];
      row := row / 10;
      charPos := charPos - 1;
      digits := digits + 1;
    }
  }
}
