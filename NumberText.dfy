/** Conversions between text and numbers that the game relies on from its
    JavaScript runtime: the global `parseInt` called without a radix
    (section 19.2.5 of ECMA-262), which reads the typed guess, and the
    decimal rendering of a non-negative integer, which a template literal
    uses to put the attempt count into the win message. */
module NumberText {

  datatype Option<+T> = None | Some(value: T)

  /** StrWhiteSpaceChar of ECMA-262: the WhiteSpace code points (tab, vertical
      tab, form feed, the byte order mark and every space separator Zs) and
      the LineTerminator code points. */
  predicate IsStrWhiteSpace(c: char) {
    || c == '\t' || c == '\n' || c == '\U{B}' || c == '\U{C}' || c == '\r'
    || c == ' ' || c == '\U{A0}' || c == '\U{1680}'
    || ('\U{2000}' <= c <= '\U{200A}')
    || c == '\U{2028}' || c == '\U{2029}' || c == '\U{202F}' || c == '\U{205F}'
    || c == '\U{3000}' || c == '\U{FEFF}'
  }

  /** A digit of radix 10 or of radix 16 (letters in either case). */
  predicate IsDigitOf(c: char, radix: int) {
    ('0' <= c <= '9') || (radix == 16 && (('a' <= c <= 'f') || ('A' <= c <= 'F')))
  }

  function DigitValue(c: char): (d: nat)
    requires IsDigitOf(c, 16)
    ensures d < 16
    ensures d < 10 <==> '0' <= c <= '9'
  {
    if '0' <= c <= '9' then c as int - '0' as int
    else if 'a' <= c <= 'f' then c as int - 'a' as int + 10
    else c as int - 'A' as int + 10
  }

  /** TrimString(s, start): drops the leading white space. */
  function TrimStart(s: string): (r: string)
    ensures |r| <= |s|
  {
    if s != [] && IsStrWhiteSpace(s[0]) then TrimStart(s[1..]) else s
  }

  /** What TrimStart keeps is a suffix of its input, what it drops is all
      white space, and what it keeps does not start with white space. */
  lemma {:induction false} TrimStartDropsWhiteSpace(s: string)
    ensures var r := TrimStart(s);
      && r == s[|s| - |r|..]
      && (forall i :: 0 <= i < |s| - |r| ==> IsStrWhiteSpace(s[i]))
      && (r != [] ==> !IsStrWhiteSpace(r[0]))
  {
    if s != [] && IsStrWhiteSpace(s[0]) {
      TrimStartDropsWhiteSpace(s[1..]);
      var r := TrimStart(s);
      assert r == TrimStart(s[1..]);
      assert forall i :: 1 <= i < |s| - |r| ==> s[i] == s[1..][i - 1];
    }
  }

  /** Length of the longest prefix of `s` made of digits of `radix`. */
  function DigitRun(s: string, radix: int): (n: nat)
    ensures n <= |s|
  {
    if s != [] && IsDigitOf(s[0], radix) then 1 + DigitRun(s[1..], radix) else 0
  }

  /** DigitRun counts digits only, and stops at the first character that is
      not one. */
  lemma {:induction false} DigitRunIsLongest(s: string, radix: int)
    ensures var n := DigitRun(s, radix);
      && (forall i :: 0 <= i < n ==> IsDigitOf(s[i], radix))
      && (n < |s| ==> !IsDigitOf(s[n], radix))
  {
    if s != [] && IsDigitOf(s[0], radix) {
      DigitRunIsLongest(s[1..], radix);
      var n := DigitRun(s, radix);
      assert forall i :: 1 <= i < n ==> s[i] == s[1..][i - 1];
    }
  }

  /** The mathematical value of a string of digits in `radix`, most
      significant digit first. */
  function DigitsValue(z: string, radix: nat): nat
    requires radix == 10 || radix == 16
    requires forall i :: 0 <= i < |z| ==> IsDigitOf(z[i], radix)
  {
    if z == [] then 0
    else
      assert IsDigitOf(z[|z| - 1], radix);
      DigitsValue(z[..|z| - 1], radix) * radix + DigitValue(z[|z| - 1])
  }

  /** Steps 6 to 14 of parseInt: an optional "0x"/"0X" prefix selects radix
      16, otherwise radix 10; the longest run of digits is read, and no
      digit at all is NaN. */
  function ParseUnsigned(u: string): (r: Option<nat>)
    ensures r.Some? ==> u != [] && '0' <= u[0] <= '9'
  {
    var hex := |u| >= 2 && u[0] == '0' && (u[1] == 'x' || u[1] == 'X');
    var radix := if hex then 16 else 10;
    var body := if hex then u[2..] else u;
    var end := DigitRun(body, radix);
    DigitRunIsLongest(body, radix);
    if end == 0 then None else Some(DigitsValue(body[..end], radix))
  }

  /** Steps 3 to 16 of parseInt on already trimmed text: a leading '-' makes
      the result negative, a leading '+' or '-' is skipped. */
  function ParseTrimmed(s: string): (r: Option<int>)
    ensures r.Some? ==> |s| >= 1 && ('0' <= s[0] <= '9' || (|s| >= 2 && '0' <= s[1] <= '9'))
  {
    var negative := s != [] && s[0] == '-';
    var unsigned := if s != [] && (s[0] == '-' || s[0] == '+') then s[1..] else s;
    match ParseUnsigned(unsigned)
    case None => None
    case Some(m) =>
      var v: int := m;
      Some(if negative then -v else v)
  }

  /** `parseInt(input)` with the radix omitted. `None` stands for NaN. The
      result is the exact integer; see README for why the rounding to a
      double does not matter to the game. */
  function ParseInt(input: string): Option<int> {
    ParseTrimmed(TrimStart(input))
  }

  /** Text with no decimal digit in it is never a number. */
  lemma ParseIntNeedsDigit(input: string)
    requires forall i :: 0 <= i < |input| ==> !IsDigitOf(input[i], 10)
    ensures ParseInt(input) == None
  {
    var s := TrimStart(input);
    TrimStartDropsWhiteSpace(input);
    assert s != [] ==> s[0] == input[|input| - |s|];
    assert |s| >= 2 ==> s[1] == input[|input| - |s| + 1];
  }

  function DigitChar(d: nat): (c: char)
    requires d < 10
    ensures '0' <= c <= '9' && DigitValue(c) == d
  {
    ('0' as int + d) as char
  }

  /** The decimal text of a non-negative integer, as JavaScript's
      Number::toString produces it for integers below 10^21. */
  function DecimalString(n: nat): (s: string)
    ensures s != []
    ensures forall i :: 0 <= i < |s| ==> '0' <= s[i] <= '9'
    ensures s[0] == '0' ==> n == 0 && s == "0"
  {
    if n < 10 then [DigitChar(n)] else DecimalString(n / 10) + [DigitChar(n % 10)]
  }

  lemma {:induction false} DecimalStringValue(n: nat)
    ensures DigitsValue(DecimalString(n), 10) == n
  {
    var s := DecimalString(n);
    if n >= 10 {
      DecimalStringValue(n / 10);
      assert s[..|s| - 1] == DecimalString(n / 10);
    }
  }

  /** Text that ends the decimal numeral `d` in front of it: it does not
      continue the digits, and after a lone "0" it does not start an "x" or
      "X" that would make a hexadecimal prefix. */
  predicate EndsNumeral(d: string, rest: string) {
    rest == [] || (!('0' <= rest[0] <= '9') && (d == "0" ==> rest[0] != 'x' && rest[0] != 'X'))
  }

  lemma ParseUnsignedReadsDigits(d: string, rest: string)
    requires d != [] && (forall i :: 0 <= i < |d| ==> '0' <= d[i] <= '9')
    requires EndsNumeral(d, rest)
    ensures ParseUnsigned(d + rest) == Some(DigitsValue(d, 10))
  {
    var u := d + rest;
    assert !(|u| >= 2 && u[0] == '0' && (u[1] == 'x' || u[1] == 'X')) by {
      if |u| >= 2 && u[0] == '0' {
        if |d| >= 2 {
          assert u[1] == d[1];
        } else {
          assert d == "0";
          assert u[1] == rest[0];
        }
      }
    }
    var end := DigitRun(u, 10);
    DigitRunIsLongest(u, 10);
    assert end == |d| by {
      assert forall i :: 0 <= i < |d| ==> IsDigitOf(u[i], 10);
      assert |u| > |d| ==> u[|d|] == rest[0];
    }
    assert u[..end] == d;
  }

  /** Text that does not start with white space is read as it stands. */
  lemma ParseIntUntrimmed(s: string)
    requires s == [] || !IsStrWhiteSpace(s[0])
    ensures ParseInt(s) == ParseTrimmed(s)
  {
  }

  /** A sign in front of a numeral negates it or leaves it as it is. */
  lemma ParseTrimmedSigned(sign: string, u: string, n: nat)
    requires sign == "" || sign == "+" || sign == "-"
    requires ParseUnsigned(u) == Some(n)
    ensures ParseTrimmed(sign + u) == Some(if sign == "-" then -(n as int) else n)
  {
    var s := sign + u;
    if sign == "" {
      assert s == u;
    } else {
      assert s[0] == sign[0] && s[1..] == u;
      SignedUnsigned(s, n);
    }
  }

  lemma SignedUnsigned(s: string, n: nat)
    requires s != [] && (s[0] == '-' || s[0] == '+')
    requires ParseUnsigned(s[1..]) == Some(n)
    ensures ParseTrimmed(s) == Some(if s[0] == '-' then -(n as int) else n)
  {
  }

  lemma ParseIntSigned(sign: string, u: string, n: nat)
    requires sign == "" || sign == "+" || sign == "-"
    requires ParseUnsigned(u) == Some(n)
    ensures ParseInt(sign + u) == Some(if sign == "-" then -(n as int) else n)
  {
    var s := sign + u;
    ParseTrimmedSigned(sign, u, n);
    assert s[0] == if sign == "" then u[0] else sign[0];
    SignOrDigitIsNotWhiteSpace(s[0]);
    ParseIntUntrimmed(s);
  }

  lemma SignOrDigitIsNotWhiteSpace(c: char)
    requires c == '+' || c == '-' || '0' <= c <= '9'
    ensures !IsStrWhiteSpace(c)
  {
  }

  /** Any run of decimal digits, leading zeros included, after an optional
      sign and before text that ends it, reads as its value with that sign. */
  lemma ParseIntReadsDigits(sign: string, d: string, rest: string, n: nat)
    requires sign == "" || sign == "+" || sign == "-"
    requires d != [] && (forall i :: 0 <= i < |d| ==> '0' <= d[i] <= '9')
    requires EndsNumeral(d, rest) && DigitsValue(d, 10) == n
    ensures ParseInt(sign + (d + rest)) == Some(if sign == "-" then -(n as int) else n)
  {
    ParseUnsignedReadsDigits(d, rest);
    assert (d + rest)[0] == d[0];
    ParseIntSigned(sign, d + rest, n);
  }

  /** Reading a decimal numeral back: `parseInt` applied to an optional sign,
      the decimal text of `n`, and any text that ends that numeral, yields
      `n` with that sign. */
  lemma ParseIntReadsDecimal(sign: string, n: nat, rest: string)
    requires sign == "" || sign == "+" || sign == "-"
    requires EndsNumeral(DecimalString(n), rest)
    ensures ParseInt(sign + (DecimalString(n) + rest)) == Some(if sign == "-" then -(n as int) else n)
  {
    DecimalStringValue(n);
    ParseIntReadsDigits(sign, DecimalString(n), rest, n);
  }

  lemma DecimalRoundTrip(n: nat)
    ensures ParseInt(DecimalString(n)) == Some(n)
  {
    var d := DecimalString(n);
    DecimalStringValue(n);
    assert ParseUnsigned(d) == Some(n) by {
      ParseUnsignedReadsDigits(d, []);
      assert d + [] == d;
    }
    ParseIntSigned("", d, n);
    assert "" + d == d;
  }

  /** Leading white space never changes what `parseInt` reads. */
  lemma ParseIntSkipsWhiteSpace(c: char, s: string)
    requires IsStrWhiteSpace(c)
    ensures ParseInt([c] + s) == ParseInt(s)
  {
    assert ([c] + s)[1..] == s;
    assert TrimStart([c] + s) == TrimStart(s);
  }

  /** Examples of what `parseInt` reads: trailing text, a fraction and an
      exponent are cut off, a "0x" prefix switches to radix 16, and text
      with no digit to read is NaN. */
  lemma ParseIntCutsTrailingText()
    ensures ParseInt("12abc") == Some(12)
  {
    assert DigitsValue("12"[..1], 10) == 1;
    ParseUnsignedReadsDigits("12", "abc");
    assert "12" + "abc" == "12abc";
    ParseIntSigned("", "12abc", 12);
    assert "" + "12abc" == "12abc";
  }

  lemma ParseIntCutsFraction()
    ensures ParseInt("3.9") == Some(3)
  {
    ParseIntReadsDigits("", "3", ".9", 3);
    assert "" + ("3" + ".9") == "3.9";
  }

  lemma ParseIntIgnoresExponent()
    ensures ParseInt("1e2") == Some(1)
  {
    ParseIntReadsDigits("", "1", "e2", 1);
    assert "" + ("1" + "e2") == "1e2";
  }

  lemma ParseIntHexExample()
    ensures ParseInt("0x1F") == Some(31)
  {
    HexDigitsValue('1', 'F');
    ParseIntHexPrefix("0x1F", 31);
  }

  /** The value of two hexadecimal digits. */
  lemma HexDigitsValue(hi: char, lo: char)
    requires IsDigitOf(hi, 16) && IsDigitOf(lo, 16)
    ensures DigitRun([hi, lo], 16) == 2
    ensures DigitsValue([hi, lo], 16) == 16 * DigitValue(hi) + DigitValue(lo)
  {
    var z := [hi, lo];
    assert z[1..] == [lo] && [lo][1..] == [];
    assert DigitRun([lo], 16) == 1;
    assert z[..1] == [hi] && [hi][..0] == [];
    assert DigitsValue([hi], 16) == DigitValue(hi);
  }

  /** After "0x" or "0X", two hexadecimal digits are read in radix 16. */
  lemma ParseIntHexPrefix(s: string, n: nat)
    requires |s| == 4 && s[0] == '0' && (s[1] == 'x' || s[1] == 'X')
    requires IsDigitOf(s[2], 16) && IsDigitOf(s[3], 16)
    requires DigitRun(s[2..], 16) == 2 && DigitsValue(s[2..], 16) == n
    ensures ParseInt(s) == Some(n)
  {
    assert ParseUnsigned(s) == Some(n) by {
      assert s[2..][..2] == s[2..];
    }
    assert ParseTrimmed(s) == ParseUnsigned(s);
    SignOrDigitIsNotWhiteSpace(s[0]);
    ParseIntUntrimmed(s);
  }

  lemma ParseIntLettersAreNaN()
    ensures ParseInt("abc") == None
  {
    ParseIntNeedsDigit("abc");
  }

  lemma ParseIntEmptyIsNaN()
    ensures ParseInt("") == None
  {
    ParseIntNeedsDigit("");
  }

  lemma ParseIntBareSignIsNaN()
    ensures ParseInt("-") == None
  {
    ParseIntNeedsDigit("-");
  }

  /** A "0x" prefix with no hexadecimal digit after it is NaN. */
  lemma ParseIntBareHexPrefix(s: string)
    requires |s| >= 2 && s[0] == '0' && (s[1] == 'x' || s[1] == 'X')
    requires |s| == 2 || !IsDigitOf(s[2], 16)
    ensures ParseInt(s) == None
  {
    SignOrDigitIsNotWhiteSpace(s[0]);
    ParseIntUntrimmed(s);
    DigitRunIsLongest(s[2..], 16);
  }

  /** An "x" after any numeral other than a lone "0" only ends it. */
  lemma ParseIntStopsAtLetterX()
    ensures ParseInt("5x") == Some(5)
  {
    assert DecimalString(5) == "5";
    ParseIntReadsDecimal("", 5, "x");
    assert "" + ("5" + "x") == "5x";
  }
}
