/**
 * encodeURIComponent and its inverse decodeURIComponent (ECMA-262, section
 * 19.2.6 of the 2022 edition, "URI Handling Functions"). Strings are
 * sequences of Unicode scalar values, so the lone-surrogate URIError of
 * encodeURIComponent cannot arise; a URIError of decodeURIComponent is None.
 */
module UriComponent {
  import opened Wrappers

  type Byte = b: int | 0 <= b < 0x100

  /** The characters encodeURIComponent copies unchanged: letters, digits and - _ . ! ~ * ' ( ). */
  predicate IsUnreserved(c: char) {
    ('A' <= c <= 'Z') || ('a' <= c <= 'z') || ('0' <= c <= '9')
    || c == '-' || c == '_' || c == '.' || c == '!' || c == '~' || c == '*' || c == '\'' || c == '(' || c == ')'
  }

  /** Upper-case hexadecimal digit of a value below 16, as the encoder writes it. */
  function HexDigit(d: nat): (c: char)
    requires d < 16
  {
    if d < 10 then ('0' as int + d) as char else ('A' as int + d - 10) as char
  }

  predicate IsUpperHexDigit(c: char) {
    ('0' <= c <= '9') || ('A' <= c <= 'F')
  }

  /** The value of a hexadecimal digit of either case, as the decoder reads it. */
  function HexValue(c: char): (r: Option<nat>)
    ensures r.Some? ==> r.value < 16
  {
    if '0' <= c <= '9' then Some(c as int - '0' as int)
    else if 'A' <= c <= 'F' then Some(c as int - 'A' as int + 10)
    else if 'a' <= c <= 'f' then Some(c as int - 'a' as int + 10)
    else None
  }

  /** The UTF-8 encoding of a code point (RFC 3629): one to four bytes. */
  function Utf8(c: char): (bytes: seq<Byte>)
    ensures 1 <= |bytes| <= 4
  {
    var v := c as int;
    if v < 0x80 then [v]
    else if v < 0x800 then [0xC0 + v / 0x40, 0x80 + v % 0x40]
    else if v < 0x10000 then [0xE0 + v / 0x1000, 0x80 + v / 0x40 % 0x40, 0x80 + v % 0x40]
    else [0xF0 + v / 0x40000, 0x80 + v / 0x1000 % 0x40, 0x80 + v / 0x40 % 0x40, 0x80 + v % 0x40]
  }

  /** Each byte written as `%XY` with upper-case hex digits. */
  function PercentEncode(bytes: seq<Byte>): (r: string)
    ensures |r| == 3 * |bytes|
  {
    if bytes == [] then []
    else ['%', HexDigit(bytes[0] / 16), HexDigit(bytes[0] % 16)] + PercentEncode(bytes[1..])
  }

  function EncodeChar(c: char): string {
    if IsUnreserved(c) then [c] else PercentEncode(Utf8(c))
  }

  /**
   * encodeURIComponent: unreserved characters stay, every other character
   * becomes its escaped UTF-8 bytes. So the result is at least as long as
   * the input and at most twelve times as long, and text made only of
   * unreserved characters is left as it is.
   */
  function Encode(s: string): (r: string)
    ensures |s| <= |r| <= 12 * |s|
    ensures (forall k :: 0 <= k < |s| ==> IsUnreserved(s[k])) ==> r == s
  {
    if s == [] then [] else EncodeChar(s[0]) + Encode(s[1..])
  }

  /** The byte written as `%XY` (either case) at the head of t. */
  function ByteHead(t: string): (r: Option<Byte>)
    ensures r.Some? ==> |t| >= 3
  {
    if |t| >= 3 && t[0] == '%' && HexValue(t[1]).Some? && HexValue(t[2]).Some?
    then Some(HexValue(t[1]).value * 16 + HexValue(t[2]).value)
    else None
  }

  /** The n escaped bytes at the head of t. */
  function BytesHead(t: string, n: nat): (r: Option<seq<Byte>>)
    ensures r.Some? ==> |r.value| == n && 3 * n <= |t|
    ensures r.Some? && n > 0 ==> ByteHead(t) == Some(r.value[0])
  {
    if n == 0 then Some([])
    else match ByteHead(t)
      case None => None
      case Some(b) =>
        match BytesHead(t[3..], n - 1)
        case None => None
        case Some(rest) => Some([b] + rest)
  }

  /** The length of the UTF-8 sequence a lead byte opens, or 0 for a byte that cannot lead one. */
  function SequenceLength(b: Byte): nat {
    if b < 0x80 then 1
    else if b < 0xC0 then 0
    else if b < 0xE0 then 2
    else if b < 0xF0 then 3
    else if b < 0xF8 then 4
    else 0
  }

  predicate IsContinuation(b: Byte) {
    0x80 <= b < 0xC0
  }

  /**
   * The code point a byte sequence encodes when it is valid UTF-8: the right
   * continuation bytes, the shortest form, no surrogate, at most U+10FFFF.
   */
  function Utf8Decode(bytes: seq<Byte>): (r: Option<char>)
  {
    if |bytes| == 1 && bytes[0] < 0x80 then
      Some(bytes[0] as char)
    else if |bytes| == 2 && 0xC0 <= bytes[0] < 0xE0 && IsContinuation(bytes[1]) then
      var v := (bytes[0] as int - 0xC0) * 0x40 + (bytes[1] as int - 0x80);
      if 0x80 <= v then Some(v as char) else None
    else if |bytes| == 3 && 0xE0 <= bytes[0] < 0xF0 && IsContinuation(bytes[1]) && IsContinuation(bytes[2]) then
      var v := (bytes[0] as int - 0xE0) * 0x1000 + (bytes[1] as int - 0x80) * 0x40 + (bytes[2] as int - 0x80);
      if 0x800 <= v && !(0xD800 <= v < 0xE000) then Some(v as char) else None
    else if |bytes| == 4 && 0xF0 <= bytes[0] < 0xF8
      && IsContinuation(bytes[1]) && IsContinuation(bytes[2]) && IsContinuation(bytes[3]) then
      var v := (bytes[0] as int - 0xF0) * 0x40000 + (bytes[1] as int - 0x80) * 0x1000
        + (bytes[2] as int - 0x80) * 0x40 + (bytes[3] as int - 0x80);
      if 0x10000 <= v < 0x110000 then Some(v as char) else None
    else None
  }

  /** The character an escape at the head of t stands for, with the number of characters it spans. */
  function DecodeEscape(t: string): (r: Option<(char, nat)>)
    ensures r.Some? ==> 3 <= r.value.1 <= |t|
  {
    match ByteHead(t)
    case None => None
    case Some(b) =>
      var n := SequenceLength(b);
      if n == 0 then None
      else
        match BytesHead(t, n)
        case None => None
        case Some(bytes) =>
          match Utf8Decode(bytes)
          case None => None
          case Some(c) => Some((c, 3 * n))
  }

  /** decodeURIComponent: None stands for the URIError it throws on a malformed escape. */
  function Decode(t: string): (r: Option<string>)
    ensures r.Some? ==> |r.value| <= |t|
    ensures (forall k :: 0 <= k < |t| ==> t[k] != '%') ==> r == Some(t)
    decreases |t|
  {
    if t == [] then Some([])
    else if t[0] != '%' then
      match Decode(t[1..])
      case None => None
      case Some(rest) =>
        assert [t[0]] + t[1..] == t;
        Some([t[0]] + rest)
    else
      match DecodeEscape(t)
      case None => None
      case Some((c, k)) =>
        match Decode(t[k..])
        case None => None
        case Some(rest) => Some([c] + rest)
  }

  // Round trip

  lemma HexDigitValue(d: nat)
    requires d < 16
    ensures HexValue(HexDigit(d)) == Some(d) && IsUpperHexDigit(HexDigit(d))
  {
  }

  /** The escaped bytes read back as the bytes written. */
  lemma {:induction false} PercentDecodesBack(bytes: seq<Byte>, rest: string)
    ensures BytesHead(PercentEncode(bytes) + rest, |bytes|) == Some(bytes)
  {
    if bytes != [] {
      var b := bytes[0];
      var tail := PercentEncode(bytes[1..]) + rest;
      var t := PercentEncode(bytes) + rest;
      assert t == ['%', HexDigit(b / 16), HexDigit(b % 16)] + tail;
      EscapeReadsBack(b, tail);
      assert t[3..] == tail;
      PercentDecodesBack(bytes[1..], rest);
      assert [b] + bytes[1..] == bytes;
    }
  }

  /** One `%XY` escape reads back as its byte. */
  lemma EscapeReadsBack(b: Byte, tail: string)
    ensures ByteHead(['%', HexDigit(b / 16), HexDigit(b % 16)] + tail) == Some(b)
  {
    HexDigitValue(b / 16);
    HexDigitValue(b % 16);
  }

  /** UTF-8 decoding undoes UTF-8 encoding, and the lead byte announces the sequence's length. */
  lemma Utf8DecodesBack(c: char)
    ensures 1 <= |Utf8(c)| <= 4
    ensures SequenceLength(Utf8(c)[0]) == |Utf8(c)|
    ensures Utf8Decode(Utf8(c)) == Some(c)
  {
    var v := c as int;
    if v < 0x80 {
    } else if v < 0x800 {
      TwoByteFields(v);
    } else if v < 0x10000 {
      ThreeByteFields(v);
    } else {
      FourByteFields(v);
    }
  }

  // The bit fields of the multi-byte forms, as integer arithmetic.

  lemma TwoByteFields(v: int)
    requires 0x80 <= v < 0x800
    ensures 0xC0 <= 0xC0 + v / 0x40 < 0xE0
    ensures (v / 0x40) * 0x40 + v % 0x40 == v
  {
  }

  lemma ThreeByteFields(v: int)
    requires 0x800 <= v < 0x10000
    ensures 0xE0 <= 0xE0 + v / 0x1000 < 0xF0
    ensures (v / 0x1000) * 0x1000 + (v / 0x40 % 0x40) * 0x40 + v % 0x40 == v
  {
    assert v / 0x40 == (v / 0x1000) * 0x40 + v / 0x40 % 0x40;
    assert (v / 0x40) * 0x40 + v % 0x40 == v;
  }

  lemma FourByteFields(v: int)
    requires 0x10000 <= v < 0x110000
    ensures 0xF0 <= 0xF0 + v / 0x40000 < 0xF8
    ensures (v / 0x40000) * 0x40000 + (v / 0x1000 % 0x40) * 0x1000 + (v / 0x40 % 0x40) * 0x40 + v % 0x40 == v
  {
    assert v / 0x1000 == (v / 0x40000) * 0x40 + v / 0x1000 % 0x40;
    assert v / 0x40 == (v / 0x1000) * 0x40 + v / 0x40 % 0x40;
    assert (v / 0x40) * 0x40 + v % 0x40 == v;
  }

  /** The escapes of a reserved character's bytes decode to that character. */
  lemma EscapeDecodesBack(c: char, rest: string)
    ensures DecodeEscape(PercentEncode(Utf8(c)) + rest) == Some((c, 3 * |Utf8(c)|))
  {
    var bytes := Utf8(c);
    Utf8DecodesBack(c);
    PercentDecodesBack(bytes, rest);
  }

  /** decodeURIComponent(encodeURIComponent(s)) == s. */
  lemma {:induction false} DecodeEncode(s: string)
    ensures Decode(Encode(s)) == Some(s)
  {
    if s != [] {
      var c := s[0];
      var t := Encode(s);
      assert t == EncodeChar(c) + Encode(s[1..]);
      DecodeEncode(s[1..]);
      if IsUnreserved(c) {
        assert t[0] == c && c != '%' && t[1..] == Encode(s[1..]);
        assert Decode(t) == Some([c] + s[1..]);
        assert [c] + s[1..] == s;
      } else {
        assert t == PercentEncode(Utf8(c)) + Encode(s[1..]);
        EscapeDecodesBack(c, Encode(s[1..]));
        var k := 3 * |Utf8(c)|;
        assert t[0] == '%';
        assert t[k..] == Encode(s[1..]);
        assert [c] + s[1..] == s;
      }
    }
  }

  /** Different queries never encode alike. */
  lemma EncodeInjective(s1: string, s2: string)
    requires Encode(s1) == Encode(s2)
    ensures s1 == s2
  {
    DecodeEncode(s1);
    DecodeEncode(s2);
  }

  // Shape of the output

  /** A string made of unreserved characters and `%XY` escapes with upper-case hex digits. */
  predicate EncodedForm(t: string)
    decreases |t|
  {
    t == []
    || (IsUnreserved(t[0]) && EncodedForm(t[1..]))
    || (|t| >= 3 && t[0] == '%' && IsUpperHexDigit(t[1]) && IsUpperHexDigit(t[2]) && EncodedForm(t[3..]))
  }

  lemma {:induction false} PercentEncodeForm(bytes: seq<Byte>, rest: string)
    requires EncodedForm(rest)
    ensures EncodedForm(PercentEncode(bytes) + rest)
  {
    if bytes != [] {
      var t := PercentEncode(bytes) + rest;
      HexDigitValue(bytes[0] / 16);
      HexDigitValue(bytes[0] % 16);
      assert t[0] == '%' && t[1] == HexDigit(bytes[0] / 16) && t[2] == HexDigit(bytes[0] % 16);
      assert t[3..] == PercentEncode(bytes[1..]) + rest;
      PercentEncodeForm(bytes[1..], rest);
    } else {
      assert PercentEncode(bytes) + rest == rest;
    }
  }

  /** Everything encodeURIComponent writes is unreserved characters and well-formed escapes. */
  lemma {:induction false} EncodeIsEncodedForm(s: string)
    ensures EncodedForm(Encode(s))
  {
    if s != [] {
      EncodeIsEncodedForm(s[1..]);
      if IsUnreserved(s[0]) {
        assert Encode(s)[1..] == Encode(s[1..]);
      } else {
        PercentEncodeForm(Utf8(s[0]), Encode(s[1..]));
      }
    }
  }

  lemma {:induction false} EncodedFormAlphabet(t: string)
    requires EncodedForm(t)
    ensures forall k :: 0 <= k < |t| ==> IsUnreserved(t[k]) || t[k] == '%'
  {
    if t != [] {
      if IsUnreserved(t[0]) && EncodedForm(t[1..]) {
        EncodedFormAlphabet(t[1..]);
        assert forall k :: 1 <= k < |t| ==> t[k] == t[1..][k - 1];
      } else {
        EncodedFormAlphabet(t[3..]);
        assert forall k :: 3 <= k < |t| ==> t[k] == t[3..][k - 3];
      }
    }
  }

  /**
   * The encoded query holds only letters, digits, - _ . ! ~ * ' ( ) and `%`,
   * so no space, `&`, `#`, `=`, `+`, `?` or `/` can break out of the query parameter.
   */
  lemma EncodeHasNoDelimiters(s: string)
    ensures forall k :: 0 <= k < |Encode(s)| ==> IsUnreserved(Encode(s)[k]) || Encode(s)[k] == '%'
    ensures forall k :: 0 <= k < |Encode(s)| ==> Encode(s)[k] !in " &#=+?/"
  {
    EncodeIsEncodedForm(s);
    EncodedFormAlphabet(Encode(s));
    forall k | 0 <= k < |Encode(s)| ensures Encode(s)[k] !in " &#=+?/" {
      NotADelimiter(Encode(s)[k]);
    }
  }

  lemma NotADelimiter(c: char)
    requires IsUnreserved(c) || c == '%'
    ensures c !in " &#=+?/"
  {
  }

  /** Encoding works character by character: it distributes over concatenation. */
  lemma {:induction false} EncodeAppend(a: string, b: string)
    ensures Encode(a + b) == Encode(a) + Encode(b)
  {
    if a != [] {
      var c, t := a[0], a[1..];
      assert a == [c] + t && a + b == [c] + (t + b);
      EncodeCons(c, t + b);
      EncodeCons(c, t);
      EncodeAppend(t, b);
    } else {
      assert a + b == b;
    }
  }

  /** The first character is encoded on its own, in front of the rest. */
  lemma EncodeCons(c: char, s: string)
    ensures Encode([c] + s) == EncodeChar(c) + Encode(s)
  {
    assert ([c] + s)[0] == c && ([c] + s)[1..] == s;
  }

  /** Every space becomes %20 (not `+`), wherever it stands. */
  lemma EncodeSpace(a: string, b: string)
    ensures Encode(a + " " + b) == Encode(a) + "%20" + Encode(b)
  {
    SpaceEscape();
    EncodeAppend(a + " ", b);
    EncodeAppend(a, " ");
  }

  lemma SpaceEscape()
    ensures Encode(" ") == "%20"
  {
    assert Utf8(' ') == [0x20];
    assert PercentEncode([0x20]) == "%20";
  }
}
