/** Percent-coding of octets as ECMA-262's encodeURIComponent and
    decodeURIComponent do it (section 2.1 of RFC 3986), on the UTF-8 bytes of
    a string. */
module PercentCoding {
  import opened Text

  /** The characters encodeURIComponent leaves alone: ASCII letters and
      digits and `- _ . ! ~ * ' ( )` (the unreserved set of section 2.3 of
      RFC 2396). */
  predicate Unreserved(c: char) {
    ('A' <= c <= 'Z') || ('a' <= c <= 'z') || ('0' <= c <= '9')
    || c == '-' || c == '_' || c == '.' || c == '!' || c == '~'
    || c == '*' || c == '\'' || c == '(' || c == ')'
  }

  /** Upper-case hexadecimal digit of a value below 16. */
  function HexDigit(n: int): (r: char)
    requires 0 <= n < 16
    ensures ('0' <= r <= '9') || ('A' <= r <= 'F')
  {
    "0123456789ABCDEF"[n]
  }

  /** The value of a hexadecimal digit of either case. */
  function HexValue(c: char): (r: Option<int>)
    ensures r.Some? ==> 0 <= r.value < 16
  {
    if '0' <= c <= '9' then Some(c as int - '0' as int)
    else if 'A' <= c <= 'F' then Some(c as int - 'A' as int + 10)
    else if 'a' <= c <= 'f' then Some(c as int - 'a' as int + 10)
    else None
  }

  /** `%XX` with two upper-case hexadecimal digits. */
  function PercentEscape(b: byte): string
  {
    ['%', HexDigit(b as int / 16), HexDigit(b as int % 16)]
  }

  /** One octet: itself when it is an unreserved character (and, when
      `escapeDash` holds, not `-`), `%XX` otherwise. */
  function EncodeByte(b: byte, escapeDash: bool): (r: string)
  {
    var c := b as int as char;
    if Unreserved(c) && !(escapeDash && c == '-') then [c] else PercentEscape(b)
  }

  /** Percent-encodes every octet that is not kept as itself. */
  function PercentEncode(bytes: seq<byte>, escapeDash: bool): (r: string)
    ensures |r| == 0 <==> |bytes| == 0
    ensures forall i :: 0 <= i < |r| ==> r[i] == '%' || (Unreserved(r[i]) && !(escapeDash && r[i] == '-'))
  {
    if bytes == [] then []
    else EncodeByte(bytes[0], escapeDash) + PercentEncode(bytes[1..], escapeDash)
  }

  /** ECMA-262 encodeURIComponent on the UTF-8 bytes of its argument. */
  function EncodeURIComponent(bytes: seq<byte>): string
  {
    PercentEncode(bytes, false)
  }

  /** Every `%` begins an escape: it is followed by two hexadecimal digits. */
  predicate WellEscaped(s: string) {
    forall i :: 0 <= i < |s| && s[i] == '%' ==>
      i + 2 < |s| && HexValue(s[i + 1]).Some? && HexValue(s[i + 2]).Some?
  }

  /** ECMA-262 decodeURIComponent on an ASCII string, giving octets: `%XX`
      becomes the octet XX, any other character its own code; a `%` that is
      not followed by two hexadecimal digits is a URIError (None). */
  function PercentDecode(s: string): (r: Option<seq<byte>>)
    requires IsAscii(s)
    ensures r.Some? ==> |r.value| <= |s| && (|s| > 0 ==> |r.value| > 0)
    decreases |s|
  {
    if s == [] then Some([])
    else if s[0] != '%' then
      match PercentDecode(s[1..])
      case None => None
      case Some(t) => Some([s[0] as int as byte] + t)
    else if |s| < 3 || HexValue(s[1]).None? || HexValue(s[2]).None? then None
    else
      match PercentDecode(s[3..])
      case None => None
      case Some(t) => Some([(16 * HexValue(s[1]).value + HexValue(s[2]).value) as byte] + t)
  }

  lemma WellEscapedAfterChar(s: string)
    requires s != [] && s[0] != '%'
    ensures WellEscaped(s) <==> WellEscaped(s[1..])
  {
    var t := s[1..];
    if WellEscaped(t) {
      forall i | 0 <= i < |s| && s[i] == '%'
        ensures i + 2 < |s| && HexValue(s[i + 1]).Some? && HexValue(s[i + 2]).Some?
      {
        assert t[i - 1] == s[i];
      }
    }
    if WellEscaped(s) {
      forall i | 0 <= i < |t| && t[i] == '%'
        ensures i + 2 < |t| && HexValue(t[i + 1]).Some? && HexValue(t[i + 2]).Some?
      {
        assert s[i + 1] == t[i];
      }
    }
  }

  lemma WellEscapedAfterEscape(s: string)
    requires |s| >= 3 && s[0] == '%' && HexValue(s[1]).Some? && HexValue(s[2]).Some?
    ensures WellEscaped(s) <==> WellEscaped(s[3..])
  {
    var t := s[3..];
    if WellEscaped(t) {
      forall i | 0 <= i < |s| && s[i] == '%'
        ensures i + 2 < |s| && HexValue(s[i + 1]).Some? && HexValue(s[i + 2]).Some?
      {
        if i >= 3 {
          assert t[i - 3] == s[i];
        }
      }
    }
    if WellEscaped(s) {
      forall i | 0 <= i < |t| && t[i] == '%'
        ensures i + 2 < |t| && HexValue(t[i + 1]).Some? && HexValue(t[i + 2]).Some?
      {
        assert s[i + 3] == t[i];
      }
    }
  }

  /** Decoding fails exactly when some `%` does not begin an escape. */
  lemma {:induction false} DecodeSucceedsIff(s: string)
    requires IsAscii(s)
    ensures PercentDecode(s).Some? <==> WellEscaped(s)
    decreases |s|
  {
    if s == [] {
    } else if s[0] != '%' {
      DecodeSucceedsIff(s[1..]);
      WellEscapedAfterChar(s);
    } else if |s| < 3 || HexValue(s[1]).None? || HexValue(s[2]).None? {
    } else {
      DecodeSucceedsIff(s[3..]);
      WellEscapedAfterEscape(s);
    }
  }

  /** Text without `%` decodes to its own characters' codes. */
  lemma {:induction false} DecodePlain(s: string)
    requires IsAscii(s) && '%' !in s
    ensures PercentDecode(s) == Some(Ascii(s))
    decreases |s|
  {
    if s != [] {
      assert s[0] in s;
      assert forall c :: c in s[1..] ==> c in s;
      DecodePlain(s[1..]);
    }
  }

  lemma HexDigitValue(n: int)
    requires 0 <= n < 16
    ensures HexValue(HexDigit(n)) == Some(n)
  {
  }

  lemma DecodeKeptChar(b: byte, rest: string)
    requires Unreserved(b as int as char) && IsAscii(rest)
    ensures IsAscii([b as int as char] + rest)
    ensures PercentDecode([b as int as char] + rest)
         == match PercentDecode(rest) case None => None case Some(t) => Some([b] + t)
  {
    var s := [b as int as char] + rest;
    assert s[0] != '%';
    assert s[1..] == rest;
  }

  lemma DecodeEscape(b: byte, rest: string)
    requires IsAscii(rest)
    ensures IsAscii(PercentEscape(b) + rest)
    ensures PercentDecode(PercentEscape(b) + rest)
         == match PercentDecode(rest) case None => None case Some(t) => Some([b] + t)
  {
    var s := PercentEscape(b) + rest;
    HexDigitValue(b as int / 16);
    HexDigitValue(b as int % 16);
    assert s[0] == '%' && s[1] == HexDigit(b as int / 16) && s[2] == HexDigit(b as int % 16);
    assert s[3..] == rest;
    assert (16 * (b as int / 16) + b as int % 16) as byte == b;
  }

  lemma DecodeEncodeByte(b: byte, escapeDash: bool, rest: string)
    requires IsAscii(rest)
    ensures IsAscii(EncodeByte(b, escapeDash) + rest)
    ensures PercentDecode(EncodeByte(b, escapeDash) + rest)
         == match PercentDecode(rest) case None => None case Some(t) => Some([b] + t)
  {
    var c := b as int as char;
    if Unreserved(c) && !(escapeDash && c == '-') {
      DecodeKeptChar(b, rest);
    } else {
      DecodeEscape(b, rest);
    }
  }

  /** Decoding undoes encoding, whether or not `-` is escaped. */
  lemma {:induction false} DecodeEncode(bytes: seq<byte>, escapeDash: bool)
    ensures IsAscii(PercentEncode(bytes, escapeDash))
    ensures PercentDecode(PercentEncode(bytes, escapeDash)) == Some(bytes)
    decreases |bytes|
  {
    if bytes != [] {
      DecodeEncode(bytes[1..], escapeDash);
      DecodeEncodeByte(bytes[0], escapeDash, PercentEncode(bytes[1..], escapeDash));
      assert bytes == [bytes[0]] + bytes[1..];
    }
  }
}
