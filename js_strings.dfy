/**
 * The string built-ins the core relies on: String.prototype.trim, parseInt
 * with radix 10, and the conversion of a value to a string (as in a template
 * literal). Strings are sequences of Unicode scalar values.
 */
module JsStrings {
  import opened JsValues

  /**
   * WhiteSpace and LineTerminator code points of ECMA-262 (section 12.2 and
   * 12.3 of the 2022 edition): the set `trim` strips and `parseInt` skips.
   * The space separators (category Zs) are listed as of Unicode 15.
   */
  const JS_WHITESPACE: set<char> := {
    '\t', '\U{000B}', '\U{000C}', ' ', '\U{00A0}', '\U{FEFF}', '\U{1680}',
    '\U{2000}', '\U{2001}', '\U{2002}', '\U{2003}', '\U{2004}', '\U{2005}',
    '\U{2006}', '\U{2007}', '\U{2008}', '\U{2009}', '\U{200A}',
    '\U{202F}', '\U{205F}', '\U{3000}',
    '\n', '\r', '\U{2028}', '\U{2029}'
  }

  predicate IsJsWhitespace(c: char) {
    c in JS_WHITESPACE
  }

  /** The first index at or after i that does not hold whitespace (|s| when there is none). */
  function SkipWhitespace(s: string, i: nat): (j: nat)
    requires i <= |s|
    ensures i <= j <= |s|
    ensures forall k :: i <= k < j ==> IsJsWhitespace(s[k])
    ensures j == |s| || !IsJsWhitespace(s[j])
    decreases |s| - i
  {
    if i < |s| && IsJsWhitespace(s[i]) then SkipWhitespace(s, i + 1) else i
  }

  /** The last index at or before j that follows a non-whitespace character (0 when there is none). */
  function BackOverWhitespace(s: string, j: nat): (i: nat)
    requires j <= |s|
    ensures i <= j
    ensures forall k :: i <= k < j ==> IsJsWhitespace(s[k])
    ensures i == 0 || !IsJsWhitespace(s[i - 1])
  {
    if 0 < j && IsJsWhitespace(s[j - 1]) then BackOverWhitespace(s, j - 1) else j
  }

  /** Removes leading whitespace: the suffix that starts at the first non-whitespace character. */
  function TrimStart(s: string): (r: string)
  {
    s[SkipWhitespace(s, 0)..]
  }

  /** Removes trailing whitespace: the prefix that ends at the last non-whitespace character. */
  function TrimEnd(s: string): (r: string)
  {
    s[..BackOverWhitespace(s, |s|)]
  }

  /**
   * String.prototype.trim: leading whitespace first, then trailing. What is
   * left is no longer than the input and neither starts nor ends with
   * whitespace.
   */
  function Trim(s: string): (r: string)
    ensures |r| <= |s|
    ensures r == [] || (!IsJsWhitespace(r[0]) && !IsJsWhitespace(r[|r| - 1]))
  {
    var t := TrimStart(s);
    var r := TrimEnd(t);
    assert r != [] ==> r[0] == t[0] && r[|r| - 1] == t[|r| - 1];
    r
  }

  /**
   * What trim keeps: a contiguous piece s[i..j] of the input, with only
   * whitespace cut off on either side.
   */
  lemma TrimIsInfix(s: string)
    ensures var i := SkipWhitespace(s, 0); var j := i + |Trim(s)|;
      j <= |s| && Trim(s) == s[i..j]
      && (forall k :: 0 <= k < i ==> IsJsWhitespace(s[k]))
      && (forall k :: j <= k < |s| ==> IsJsWhitespace(s[k]))
  {
    var i := SkipWhitespace(s, 0);
    var t := s[i..];
    var e := BackOverWhitespace(t, |t|);
    assert Trim(s) == s[i..i + e];
    forall k | i + e <= k < |s| ensures IsJsWhitespace(s[k]) {
      assert s[k] == t[k - i];
    }
  }

  /** A string trims to nothing exactly when every character is whitespace. */
  lemma TrimEmptyIffBlank(s: string)
    ensures Trim(s) == [] <==> forall k :: 0 <= k < |s| ==> IsJsWhitespace(s[k])
  {
    var i := SkipWhitespace(s, 0);
    var t := s[i..];
    var e := BackOverWhitespace(t, |t|);
    if e != 0 {
      assert t[0] == s[i];
    }
  }

  /** Trimming twice is trimming once. */
  lemma TrimIdempotent(s: string)
    ensures Trim(Trim(s)) == Trim(s)
  {
    var r := Trim(s);
    assert SkipWhitespace(r, 0) == 0;
    assert TrimStart(r) == r;
    assert BackOverWhitespace(r, |r|) == |r|;
  }

  predicate IsDigit(c: char) {
    '0' <= c <= '9'
  }

  predicate AllDigits(s: string) {
    forall k :: 0 <= k < |s| ==> IsDigit(s[k])
  }

  function DigitChar(d: nat): (c: char)
    requires d < 10
    ensures IsDigit(c) && c as int - '0' as int == d
  {
    ('0' as int + d) as char
  }

  /** The longest prefix made of decimal digits. */
  function LeadingDigits(s: string): (r: string)
    ensures |r| <= |s| && r == s[..|r|] && AllDigits(r)
    ensures |r| < |s| ==> !IsDigit(s[|r|])
  {
    if s != [] && IsDigit(s[0]) then [s[0]] + LeadingDigits(s[1..]) else []
  }

  /** The number a string of decimal digits denotes. */
  function DigitsValue(d: string): (v: nat)
    requires AllDigits(d)
  {
    if d == [] then 0 else DigitsValue(d[..|d| - 1]) * 10 + (d[|d| - 1] as int - '0' as int)
  }

  /**
   * parseInt(s, 10): skip leading whitespace, take an optional sign, then the
   * longest run of decimal digits; no digit at all gives NaN.
   */
  function ParseInt(s: string): (r: Num)
    ensures var u := Unsigned(TrimStart(s));
      r == NaN <==> u == [] || !IsDigit(u[0])
    ensures r.Int? && r.n < 0 ==> TrimStart(s)[0] == '-'
    ensures r.Int? && TrimStart(s)[0] != '-' ==> 0 <= r.n
  {
    var t := TrimStart(s);
    var z := LeadingDigits(Unsigned(t));
    if z == [] then NaN
    else if t[0] == '-' then Int(-(DigitsValue(z) as int))
    else Int(DigitsValue(z))
  }

  /** Drops one leading `+` or `-`. */
  function Unsigned(t: string): (u: string)
  {
    if t != [] && (t[0] == '-' || t[0] == '+') then t[1..] else t
  }

  /**
   * parseInt reads the numeral at the head of its input, after whitespace
   * and at most one sign, and ignores whatever follows the digits.
   */
  lemma ParseIntReadsLeadingNumeral(w: string, sign: string, d: string, rest: string)
    requires forall k :: 0 <= k < |w| ==> IsJsWhitespace(w[k])
    requires sign == "" || sign == "+" || sign == "-"
    requires d != [] && AllDigits(d)
    requires rest == [] || !IsDigit(rest[0])
    ensures ParseInt(w + sign + d + rest) == Int(if sign == "-" then -(DigitsValue(d) as int) else DigitsValue(d))
  {
    var t := sign + (d + rest);
    assert w + sign + d + rest == w + t;
    SignedNumeral(sign, d, rest);
    ParseIntSkipsPadding(w, t);
    ParseIntOfNumeral(sign, d, rest);
  }

  /** Whitespace in front of the numeral does not change what parseInt reads. */
  lemma ParseIntSkipsPadding(w: string, t: string)
    requires forall k :: 0 <= k < |w| ==> IsJsWhitespace(w[k])
    requires t == [] || !IsJsWhitespace(t[0])
    ensures ParseInt(w + t) == ParseInt(t)
  {
    TrimStartDropsPadding(w, t);
    TrimStartDropsPadding([], t);
    assert [] + t == t;
  }

  /** parseInt of a numeral with at most one sign in front and no whitespace. */
  lemma ParseIntOfNumeral(sign: string, d: string, rest: string)
    requires sign == "" || sign == "+" || sign == "-"
    requires d != [] && AllDigits(d)
    requires rest == [] || !IsDigit(rest[0])
    ensures ParseInt(sign + (d + rest)) == Int(if sign == "-" then -(DigitsValue(d) as int) else DigitsValue(d))
  {
    var t := sign + (d + rest);
    SignedNumeral(sign, d, rest);
    TrimStartDropsPadding([], t);
    assert [] + t == t;
    LeadingDigitsStopAt(d, rest);
    ParseIntOfTrimmed(t, d);
  }

  /** What a sign in front of the digits leaves for the digit scan, and that it is not whitespace. */
  lemma SignedNumeral(sign: string, d: string, rest: string)
    requires sign == "" || sign == "+" || sign == "-"
    requires d != [] && AllDigits(d)
    ensures var t := sign + (d + rest);
      Unsigned(t) == d + rest && (t[0] == '-' <==> sign == "-") && !IsJsWhitespace(t[0])
  {
    var u := d + rest;
    var t := sign + u;
    DigitIsNotWhitespace(d[0]);
    if sign == "" {
      assert t == u;
    } else if sign == "+" {
      assert t[0] == '+' && t[1..] == u;
    } else {
      assert t[0] == '-' && t[1..] == u;
    }
  }

  /** parseInt on text that starts with neither whitespace nor a second sign. */
  lemma ParseIntOfTrimmed(t: string, d: string)
    requires TrimStart(t) == t
    requires d != [] && AllDigits(d) && LeadingDigits(Unsigned(t)) == d
    ensures ParseInt(t) == Int(if t[0] == '-' then -(DigitsValue(d) as int) else DigitsValue(d))
  {
  }

  /** Trimming the start removes exactly the leading whitespace. */
  lemma TrimStartDropsPadding(w: string, t: string)
    requires forall k :: 0 <= k < |w| ==> IsJsWhitespace(w[k])
    requires t == [] || !IsJsWhitespace(t[0])
    ensures TrimStart(w + t) == t
  {
    SkipToFirstNonWhitespace(w, t);
    assert (w + t)[|w|..] == t;
  }

  /** Leading whitespace is skipped up to the first character that is not whitespace. */
  lemma SkipToFirstNonWhitespace(w: string, t: string)
    requires forall k :: 0 <= k < |w| ==> IsJsWhitespace(w[k])
    requires t == [] || !IsJsWhitespace(t[0])
    ensures SkipWhitespace(w + t, 0) == |w|
  {
    var s := w + t;
    assert forall k :: 0 <= k < |w| ==> IsJsWhitespace(s[k]);
    assert |w| < |s| ==> !IsJsWhitespace(s[|w|]);
  }

  /** The digit run ends where the digits do. */
  lemma LeadingDigitsStopAt(d: string, rest: string)
    requires AllDigits(d)
    requires rest == [] || !IsDigit(rest[0])
    ensures LeadingDigits(d + rest) == d
  {
    var s := d + rest;
    var r := LeadingDigits(s);
    assert forall k :: 0 <= k < |d| ==> IsDigit(s[k]);
    assert |d| < |s| ==> !IsDigit(s[|d|]);
    assert s[..|d|] == d;
  }

  /** The decimal numeral of a natural number, without leading zeros. */
  function NatToDecimal(n: nat): (r: string)
    ensures r != [] && AllDigits(r) && DigitsValue(r) == n
    ensures r[0] == '0' ==> n == 0
  {
    if n < 10 then [DigitChar(n)]
    else
      var prefix := NatToDecimal(n / 10);
      var r := prefix + [DigitChar(n % 10)];
      assert r[..|r| - 1] == prefix;
      r
  }

  /**
   * Number::toString for an integer below 10^21 in magnitude: a minus sign
   * exactly for a negative number, then the magnitude's digits without
   * leading zeros.
   */
  function IntToDecimal(n: int): (r: string)
    ensures r != [] && (r[0] == '-' <==> n < 0)
    ensures var d := if n < 0 then r[1..] else r;
      d != [] && AllDigits(d) && DigitsValue(d) == (if n < 0 then -n else n) && (d[0] == '0' ==> n == 0)
  {
    if n < 0 then "-" + NatToDecimal(-n) else NatToDecimal(n)
  }

  /** parseInt reads back the decimal form of every integer. */
  lemma ParseIntOfDecimal(n: int)
    ensures ParseInt(IntToDecimal(n)) == Int(n)
  {
    var s := IntToDecimal(n);
    var digits := if n < 0 then s[1..] else s;
    var sign := if n < 0 then "-" else "";
    assert s == [] + sign + digits + [];
    ParseIntReadsLeadingNumeral([], sign, digits, []);
  }

  lemma DigitIsNotWhitespace(c: char)
    requires IsDigit(c)
    ensures !IsJsWhitespace(c)
  {
  }

  /** String(v): the text a template literal `${v}` inserts. */
  function ToJsString(v: JsValue): (r: string)
    ensures v.Number? ==> ParseInt(r) == v.num
    ensures r == [] <==> v == Str([])
  {
    match v
    case Undefined => "undefined"
    case Null => "null"
    case Bool(b) => if b then "true" else "false"
    case Number(NaN) => "NaN"
    case Number(Int(n)) => ParseIntOfDecimal(n); IntToDecimal(n)
    case Str(s) => s
  }
}
