/**
 * Lowercase hexadecimal rendering of natural numbers as the .NET numeric format
 * specifier "x" produces it: "x" alone gives the shortest digit string, "x<width>"
 * left-pads that string with '0' to at least <width> digits and never truncates.
 * Value, the reading of a digit string back into a number, is the reference the
 * renderers are proved against.
 */
module Hex {
  import opened Wrappers

  predicate IsLowerHexDigit(c: char) {
    '0' <= c <= '9' || 'a' <= c <= 'f'
  }

  predicate IsLowerHex(s: string) {
    forall i :: 0 <= i < |s| ==> IsLowerHexDigit(s[i])
  }

  /** The number a lowercase hex digit stands for. */
  function DigitValue(c: char): (d: nat)
    requires IsLowerHexDigit(c)
    ensures d < 16
    ensures d == 0 <==> c == '0'
  {
    if c <= '9' then c as int - '0' as int else c as int - 'a' as int + 10
  }

  /** The lowercase hex digit for a number below 16. */
  function DigitChar(d: nat): (c: char)
    requires d < 16
    ensures IsLowerHexDigit(c) && DigitValue(c) == d
  {
    if d < 10 then ('0' as int + d) as char else ('a' as int + d - 10) as char
  }

  /** A digit is determined by its value. */
  lemma DigitValueInjective(c: char, c': char)
    requires IsLowerHexDigit(c) && IsLowerHexDigit(c')
    ensures DigitValue(c) == DigitValue(c') <==> c == c'
  {
  }

  function Pow16(k: nat): (p: nat)
    ensures p >= 1
  {
    if k == 0 then 1 else 16 * Pow16(k - 1)
  }

  /** The number a lowercase hex string stands for, most significant digit first. */
  function Value(s: string): (n: nat)
    requires IsLowerHex(s)
    ensures n < Pow16(|s|)
  {
    if s == [] then 0 else 16 * Value(s[..|s| - 1]) + DigitValue(s[|s| - 1])
  }

  /** The shortest lowercase hex rendering of n ("x" format): no leading zeros, "0" for zero. */
  function Digits(n: nat): (r: string)
    ensures |r| >= 1 && IsLowerHex(r)
    ensures r[0] == '0' <==> n == 0
    ensures n == 0 ==> r == "0"
    decreases n
  {
    if n < 16 then [DigitChar(n)] else Digits(n / 16) + [DigitChar(n % 16)]
  }

  /** Appending one digit multiplies the value by 16 and adds the digit. */
  lemma ValueSnoc(s: string, c: char)
    requires IsLowerHex(s) && IsLowerHexDigit(c)
    ensures IsLowerHex(s + [c]) && Value(s + [c]) == 16 * Value(s) + DigitValue(c)
  {
  }

  /** Rendering then reading back gives the number: the renderer is correct. */
  lemma {:induction false} ValueOfDigits(n: nat)
    ensures Value(Digits(n)) == n
    decreases n
  {
    if n >= 16 {
      ValueOfDigits(n / 16);
      ValueSnoc(Digits(n / 16), DigitChar(n % 16));
    }
  }

  /** A hex string with a nonzero leading digit stands for a nonzero number. */
  lemma {:induction false} LeadingDigitNonzero(s: string)
    requires IsLowerHex(s) && |s| >= 1 && s[0] != '0'
    ensures Value(s) >= 1
    decreases |s|
  {
    if |s| > 1 {
      var t := s[..|s| - 1];
      assert t[0] == s[0];
      LeadingDigitNonzero(t);
    }
  }

  /**
   * Reading then rendering gives back the string whenever it is in shortest form:
   * together with ValueOfDigits, Digits is a bijection between the naturals and the
   * lowercase hex strings without leading zeros.
   */
  lemma {:induction false} DigitsOfValue(s: string)
    requires IsLowerHex(s) && |s| >= 1 && (s[0] == '0' ==> |s| == 1)
    ensures Digits(Value(s)) == s
    decreases |s|
  {
    var c := s[|s| - 1];
    var t := s[..|s| - 1];
    if |s| == 1 {
      assert s == [c];
    } else {
      assert t[0] == s[0];
      LeadingDigitNonzero(t);
      DigitsOfValue(t);
      var n := Value(s);
      assert n / 16 == Value(t) && n % 16 == DigitValue(c);
      assert s == t + [c];
    }
  }

  /** Two hex strings of the same length with the same value are the same string. */
  lemma {:induction false} FixedWidthUnique(s: string, s': string)
    requires IsLowerHex(s) && IsLowerHex(s') && |s| == |s'|
    requires Value(s) == Value(s')
    ensures s == s'
    decreases |s|
  {
    if |s| > 0 {
      var t, t' := s[..|s| - 1], s'[..|s'| - 1];
      var c, c' := s[|s| - 1], s'[|s'| - 1];
      assert s == t + [c] && s' == t' + [c'];
      ValueSnoc(t, c);
      ValueSnoc(t', c');
      LastDigitUnique(Value(t), DigitValue(c), Value(t'), DigitValue(c'));
      DigitValueInjective(c, c');
      FixedWidthUnique(t, t');
    }
  }

  /** Base-16 place values: the high part and the last digit of a number are unique. */
  lemma LastDigitUnique(a: nat, d: nat, a': nat, d': nat)
    requires d < 16 && d' < 16 && 16 * a + d == 16 * a' + d'
    ensures a == a' && d == d'
  {
  }

  /** The shortest rendering of n fits in k digits exactly when n < 16^k. */
  lemma {:induction false} DigitsLength(n: nat, k: nat)
    requires k >= 1
    ensures |Digits(n)| <= k <==> n < Pow16(k)
    decreases k
  {
    if n >= 16 && k > 1 {
      DigitsLength(n / 16, k - 1);
    }
    if n >= 16 && k == 1 {
      assert |Digits(n)| >= 2;
    }
  }

  /** Leading zeros do not change the value. */
  lemma {:induction false} ValueZeroPrefix(k: nat, s: string)
    requires IsLowerHex(s)
    ensures IsLowerHex(Zeros(k) + s) && Value(Zeros(k) + s) == Value(s)
    decreases |s|
  {
    var z := Zeros(k);
    if s == [] {
      assert z + s == z;
      ValueOfZeros(k);
    } else {
      var t, c := s[..|s| - 1], s[|s| - 1];
      ValueZeroPrefix(k, t);
      assert z + s == (z + t) + [c];
      ValueSnoc(z + t, c);
      ValueSnoc(t, c);
      assert s == t + [c];
    }
  }

  /** A string of zeros has value zero. */
  lemma {:induction false} ValueOfZeros(k: nat)
    ensures Value(Zeros(k)) == 0
    decreases k
  {
    if k > 0 {
      ValueOfZeros(k - 1);
      assert Zeros(k)[..k - 1] == Zeros(k - 1);
    }
  }

  function Zeros(k: nat): (r: string)
    ensures |r| == k && IsLowerHex(r)
    ensures forall i :: 0 <= i < k ==> r[i] == '0'
  {
    seq(k, _ => '0')
  }

  /**
   * The "x<width>" rendering of n: the shortest rendering, left-padded with '0' to
   * at least width digits; a value needing more digits than width is not cut.
   */
  function Padded(n: nat, width: nat): (r: string)
    ensures IsLowerHex(r) && Value(r) == n
    ensures |r| == if width > |Digits(n)| then width else |Digits(n)|
  {
    var d := Digits(n);
    ValueOfDigits(n);
    if width > |d| then
      ValueZeroPrefix(width - |d|, d);
      Zeros(width - |d|) + d
    else
      d
  }

  /** With a width of at most one digit, padding changes nothing. */
  lemma PaddedNoWidth(n: nat, width: nat)
    requires width <= 1
    ensures Padded(n, width) == Digits(n)
  {
  }

  /** Any hex string of the padded length with value n is the padded rendering: Padded is fully determined by its contract. */
  lemma PaddedUnique(n: nat, width: nat, s: string)
    requires IsLowerHex(s) && Value(s) == n
    requires |s| == if width > |Digits(n)| then width else |Digits(n)|
    ensures s == Padded(n, width)
  {
    FixedWidthUnique(s, Padded(n, width));
  }

  predicate IsDecimalDigit(c: char) {
    '0' <= c <= '9'
  }

  predicate IsDecimal(s: string) {
    forall i :: 0 <= i < |s| ==> IsDecimalDigit(s[i])
  }

  /** The number a string of decimal digits stands for; the empty string stands for 0. */
  function DecimalValue(s: string): (n: nat)
    requires IsDecimal(s)
  {
    if s == [] then 0
    else
      assert IsDecimalDigit(s[|s| - 1]);
      10 * DecimalValue(s[..|s| - 1]) + (s[|s| - 1] as int - '0' as int)
  }

  /** The shortest decimal rendering of n, the reference DecimalValue is checked against. */
  function DecimalDigits(n: nat): (r: string)
    ensures |r| >= 1 && IsDecimal(r)
    ensures r[0] == '0' <==> n == 0
    decreases n
  {
    if n < 10 then [('0' as int + n) as char] else DecimalDigits(n / 10) + [('0' as int + n % 10) as char]
  }

  /** Reading back the decimal rendering of n gives n. */
  lemma {:induction false} DecimalValueOfDigits(n: nat)
    ensures DecimalValue(DecimalDigits(n)) == n
    decreases n
  {
    if n >= 10 {
      var d, c := DecimalDigits(n / 10), ('0' as int + n % 10) as char;
      DecimalValueOfDigits(n / 10);
      assert (d + [c])[..|d|] == d;
    }
  }

  /**
   * The minimum digit count a .NET lowercase hexadecimal format string asks for:
   * "x" alone asks for none, "x" followed by decimal digits for that many.
   * Any other format string gives None.
   */
  function ParseHexFormat(f: string): (r: Option<nat>)
    ensures r.Some? <==> |f| >= 1 && f[0] == 'x' && IsDecimal(f[1..])
    ensures f == "x" ==> r == Some(0)
  {
    if |f| >= 1 && f[0] == 'x' && IsDecimal(f[1..]) then
      Some(DecimalValue(f[1..]))
    else
      None
  }

  /** Every width written in decimal after 'x' is read back as that width. */
  lemma ParseHexFormatWidth(width: nat)
    ensures ParseHexFormat("x" + DecimalDigits(width)) == Some(width)
  {
    var f := "x" + DecimalDigits(width);
    assert f[1..] == DecimalDigits(width);
    DecimalValueOfDigits(width);
  }

  /**
   * Renders n under a lowercase hexadecimal format string: exactly as many digits
   * as the larger of the requested width and the shortest rendering; None for a
   * format string of another kind.
   */
  function Format(n: nat, f: string): (r: Option<string>)
    ensures r.Some? <==> ParseHexFormat(f).Some?
    ensures r.Some? ==> IsLowerHex(r.value) && Value(r.value) == n
    ensures r.Some? ==>
      var width := ParseHexFormat(f).value;
      |r.value| == if width > |Digits(n)| then width else |Digits(n)|
  {
    match ParseHexFormat(f)
    case Some(width) => Some(Padded(n, width))
    case None => None
  }
}
