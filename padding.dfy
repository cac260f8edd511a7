/**
 * `padNumber(num, digits, trim)`: the integer-to-text routine every numeric date field
 * goes through. A negative number gets a leading '-', the decimal text of its magnitude is
 * left-padded with '0' to `digits` characters, and with `trim` only the last `digits`
 * characters are kept (so a four-digit year gives a two-digit year).
 */
module Padding {
  import opened Decimal

  function Abs(n: int): nat {
    if n < 0 then -n else n
  }

  /** The digits of `n` after padding to `digits` characters and, with `trim`, cutting to the last `digits`. */
  function PadDigits(n: nat, digits: nat, trim: bool): string {
    var text := NatToString(n);
    var padded := if |text| < digits then Zeros(digits - |text|) + text else text;
    if trim then padded[|padded| - digits..] else padded
  }

  /** What padNumber returns: the sign, then the padded (and possibly trimmed) digits. */
  function Padded(num: int, digits: nat, trim: bool): string {
    (if num < 0 then "-" else "") + PadDigits(Abs(num), digits, trim)
  }

  /** padNumber as the source writes it: reassign `num`, then prepend '0' in a loop. */
  method PadNumber(num: int, digits: nat, trim: bool) returns (s: string)
    ensures s == Padded(num, digits, trim)
  {
    var neg := "";
    var n: nat := Abs(num);
    if num < 0 {
      neg := "-";
    }
    var text := NatToString(n);
    ghost var decimal := text;
    while |text| < digits
      invariant |decimal| <= |text|
      invariant text == Zeros(|text| - |decimal|) + decimal
      invariant |text| == |decimal| || |text| <= digits
    {
      text := "0" + text;
      assert "0" + Zeros(|text| - 1 - |decimal|) == Zeros(|text| - |decimal|);
    }
    assert Zeros(0) + decimal == decimal;
    assert text == if |decimal| < digits then Zeros(digits - |decimal|) + decimal else decimal;
    if trim {
      text := text[|text| - digits..];
    }
    s := neg + text;
  }

  /** A '-' comes first exactly for a negative number; everything after the sign is digits. */
  lemma PaddedSign(num: int, digits: nat, trim: bool)
    ensures var s := Padded(num, digits, trim);
      (|s| > 0 && s[0] == '-') <==> num < 0
    ensures var d := PadDigits(Abs(num), digits, trim);
      AllDigits(d) && Padded(num, digits, trim) == (if num < 0 then "-" else "") + d
  {
    var d := PadDigits(Abs(num), digits, trim);
    assert AllDigits(d);
    if num >= 0 && |d| > 0 {
      assert IsDigit(d[0]);
    }
  }

  /**
   * Without `trim`: the digit part is at least `digits` long, consists of zeros followed by
   * the decimal text of |num|, and reads back as |num|.
   */
  lemma PaddedUntrimmed(num: int, digits: nat)
    ensures var d := PadDigits(Abs(num), digits, false);
      var text := NatToString(Abs(num));
      |d| == (if |text| < digits then digits else |text|) &&
      d == Zeros(|d| - |text|) + text &&
      AllDigits(d) && DigitsValue(d) == Abs(num)
  {
    PadDigitsValue(Abs(num), digits);
  }

  lemma PadDigitsValue(n: nat, digits: nat)
    ensures var text := NatToString(n);
      PadDigits(n, digits, false) == Zeros(|PadDigits(n, digits, false)| - |text|) + text
    ensures AllDigits(PadDigits(n, digits, false))
    ensures DigitsValue(PadDigits(n, digits, false)) == n
  {
    var text := NatToString(n);
    var d := PadDigits(n, digits, false);
    PadDigitsZeros(n, digits);
    ZerosThenDigits(|d| - |text|, text, d);
    DigitsValueOfNatToString(n);
  }

  /** The untrimmed digit part is zeros followed by the decimal text. */
  lemma PadDigitsZeros(n: nat, digits: nat)
    ensures var text := NatToString(n);
      PadDigits(n, digits, false) == Zeros(|PadDigits(n, digits, false)| - |text|) + text
  {
    var text := NatToString(n);
    if |text| >= digits {
      assert Zeros(0) + text == text;
    }
  }

  /** Leading zeros neither add non-digits nor change the value. */
  lemma ZerosThenDigits(k: nat, text: string, d: string)
    requires AllDigits(text) && d == Zeros(k) + text
    ensures AllDigits(d) && DigitsValue(d) == DigitsValue(text)
  {
    DigitsValueLeadingZeros(k, text);
  }

  /**
   * With `trim`: the digit part is exactly `digits` long, it is the last `digits`
   * characters of the untrimmed digit part, and it holds the low `digits` decimal digits
   * of |num|: |num| is some high part times 10^digits plus the value of the trimmed text.
   */
  lemma PaddedTrimmed(num: int, digits: nat)
    ensures var full := PadDigits(Abs(num), digits, false);
      |full| >= digits && PadDigits(Abs(num), digits, true) == full[|full| - digits..]
    ensures var d := PadDigits(Abs(num), digits, true);
      |d| == digits && AllDigits(d) && DigitsValue(d) < Pow10(digits)
    ensures var full := PadDigits(Abs(num), digits, false);
      Abs(num) == DigitsValue(full[..|full| - digits]) * Pow10(digits) + DigitsValue(PadDigits(Abs(num), digits, true))
  {
    var n := Abs(num);
    PadDigitsTrimShape(n, digits);
    PadDigitsRead(n, digits);
    TrimmedDigits(n, PadDigits(n, digits, false), PadDigits(n, digits, true), digits);
  }

  /** The untrimmed digit part reads back as the number. */
  lemma PadDigitsRead(n: nat, digits: nat)
    ensures AllDigits(PadDigits(n, digits, false)) && DigitsValue(PadDigits(n, digits, false)) == n
  {
    PadDigitsValue(n, digits);
  }

  /** The last `digits` characters of a digit text of value `n` hold the low digits of `n`. */
  lemma TrimmedDigits(n: nat, full: string, d: string, digits: nat)
    requires AllDigits(full) && |full| >= digits && d == full[|full| - digits..]
    requires DigitsValue(full) == n
    ensures |d| == digits && AllDigits(d) && DigitsValue(d) < Pow10(digits)
    ensures n == DigitsValue(full[..|full| - digits]) * Pow10(digits) + DigitsValue(d)
  {
    assert forall i :: 0 <= i < |d| ==> d[i] == full[|full| - digits + i];
    DigitsValueSplit(full, digits);
  }

  lemma PadDigitsTrimShape(n: nat, digits: nat)
    ensures |PadDigits(n, digits, false)| >= digits
    ensures var full := PadDigits(n, digits, false);
      PadDigits(n, digits, true) == full[|full| - digits..]
    ensures AllDigits(PadDigits(n, digits, false)) && AllDigits(PadDigits(n, digits, true))
  {
    var full := PadDigits(n, digits, false);
    assert AllDigits(full);
    var d := full[|full| - digits..];
    forall i | 0 <= i < |d| ensures IsDigit(d[i]) {
      assert d[i] == full[|full| - digits + i];
    }
  }

  /** The examples `yy` on 2010 and the sign handling of a negative one-digit value. */
  lemma PaddedExamples()
    ensures Padded(2010, 2, true) == "10"
    ensures Padded(1234, 2, true) == "34"
    ensures Padded(-5, 2, false) == "-05"
    ensures Padded(7, 1, false) == "7"
    ensures Padded(2010, 4, false) == "2010"
  {
    assert NatToString(2010) == "2010";
    assert NatToString(1234) == "1234";
    assert NatToString(5) == "5";
  }
}
