/** `urllib.parse.quote(value, safe='')`: the string is encoded as UTF-8 and
    every octet outside the unreserved set of section 2.3 of RFC 3986 is
    written as a percent-encoded octet (section 2.1 of RFC 3986, upper-case
    hexadecimal digits). A strict UTF-8 decoder and percent-decoder are the
    partners that give the input back. */
module UrlQuote {
  import opened Wrappers

  type Byte = b: int | 0 <= b < 256

  // ---------------------------------------------------------------------------
  // UTF-8 (RFC 3629)

  /** The UTF-8 octets of one Unicode scalar value. */
  function EncodeChar(c: char): (r: seq<Byte>)
    ensures 1 <= |r| <= 4
    ensures r[0] < 0x80 <==> c as int < 0x80
  {
    var n := c as int;
    if n < 0x80 then [n]
    else if n < 0x800 then [0xC0 + n / 64, 0x80 + n % 64]
    else if n < 0x10000 then [0xE0 + n / 4096, 0x80 + (n / 64) % 64, 0x80 + n % 64]
    else [0xF0 + n / 262144, 0x80 + (n / 4096) % 64, 0x80 + (n / 64) % 64, 0x80 + n % 64]
  }

  function Utf8Encode(s: string): (r: seq<Byte>)
    ensures |s| <= |r| <= 4 * |s|
  {
    if s == [] then [] else EncodeChar(s[0]) + Utf8Encode(s[1..])
  }

  predicate IsContinuation(b: Byte) { 0x80 <= b < 0xC0 }

  /** A code point that `char` can hold: a Unicode scalar value. */
  predicate IsScalar(n: int) { 0 <= n < 0xD800 || 0xE000 <= n < 0x110000 }

  /** The scalar value the octets at the front of `bs` encode, and how many
      octets it takes; `None` for a malformed, overlong or out-of-range
      sequence. */
  function DecodeFirst(bs: seq<Byte>): (r: Option<(char, nat)>)
    requires bs != []
    ensures r.Some? ==> 1 <= r.value.1 <= |bs| && r.value.1 <= 4
  {
    var b0: int := bs[0];
    if b0 < 0x80 then Some((b0 as char, 1))
    else if 0xC2 <= b0 < 0xE0 && |bs| >= 2 && IsContinuation(bs[1]) then
      Some((Decode2(b0, bs[1]) as char, 2))
    else if 0xE0 <= b0 < 0xF0 && |bs| >= 3 && IsContinuation(bs[1]) && IsContinuation(bs[2]) then
      var n := Decode3(b0, bs[1], bs[2]);
      if 0x800 <= n && IsScalar(n) then Some((n as char, 3)) else None
    else if 0xF0 <= b0 < 0xF5 && |bs| >= 4 && IsContinuation(bs[1]) && IsContinuation(bs[2]) && IsContinuation(bs[3]) then
      var n := Decode4(b0, bs[1], bs[2], bs[3]);
      if 0x10000 <= n && IsScalar(n) then Some((n as char, 4)) else None
    else None
  }

  /** The code point of a two-, three- or four-octet sequence: six bits from each continuation octet. */
  function Decode2(b0: int, b1: int): (n: int)
    requires 0xC2 <= b0 < 0xE0 && 0x80 <= b1 < 0xC0
    ensures 0x80 <= n < 0x800
  {
    (b0 - 0xC0) * 64 + (b1 - 0x80)
  }

  function Decode3(b0: int, b1: int, b2: int): int {
    (b0 - 0xE0) * 4096 + (b1 - 0x80) * 64 + (b2 - 0x80)
  }

  function Decode4(b0: int, b1: int, b2: int, b3: int): int {
    (b0 - 0xF0) * 262144 + (b1 - 0x80) * 4096 + (b2 - 0x80) * 64 + (b3 - 0x80)
  }

  /** Strict UTF-8 decoding. */
  function Utf8Decode(bs: seq<Byte>): (r: Option<string>)
    decreases |bs|
  {
    if bs == [] then Some([])
    else match DecodeFirst(bs)
      case None => None
      case Some((c, len)) =>
        match Utf8Decode(bs[len..])
        case None => None
        case Some(rest) => Some([c] + rest)
  }

  lemma Decode2OfEncoded(n: int)
    requires 0x80 <= n < 0x800
    ensures 0xC2 <= 0xC0 + n / 64 < 0xE0
    ensures Decode2(0xC0 + n / 64, 0x80 + n % 64) == n
  {
  }

  lemma Decode3OfEncoded(n: int)
    requires 0x800 <= n < 0x10000
    ensures Decode3(0xE0 + n / 4096, 0x80 + (n / 64) % 64, 0x80 + n % 64) == n
  {
    var q := n / 64;
    assert n == q * 64 + n % 64;
    assert q == (q / 64) * 64 + q % 64;
    assert q / 64 == n / 4096;
  }

  lemma Decode4OfEncoded(n: int)
    requires 0x10000 <= n < 0x110000
    ensures Decode4(0xF0 + n / 262144, 0x80 + (n / 4096) % 64, 0x80 + (n / 64) % 64, 0x80 + n % 64) == n
    ensures 0xF0 <= 0xF0 + n / 262144 < 0xF5
  {
    var q := n / 64;
    var q2 := q / 64;
    assert n == q * 64 + n % 64;
    assert q == q2 * 64 + q % 64;
    assert q2 == (q2 / 64) * 64 + q2 % 64;
    assert q2 == n / 4096;
    assert q2 / 64 == n / 262144;
  }

  lemma DecodeFirstOfEncoded(c: char, rest: seq<Byte>)
    ensures DecodeFirst(EncodeChar(c) + rest) == Some((c, |EncodeChar(c)|))
  {
    var n := c as int;
    var e := EncodeChar(c);
    var bs := e + rest;
    assert bs[0] == e[0];
    if 0x80 <= n < 0x800 {
      assert bs[1] == e[1];
      Decode2OfEncoded(n);
    }
    if 0x800 <= n < 0x10000 {
      assert bs[1] == e[1] && bs[2] == e[2];
      Decode3OfEncoded(n);
    }
    if 0x10000 <= n {
      assert bs[1] == e[1] && bs[2] == e[2] && bs[3] == e[3];
      Decode4OfEncoded(n);
    }
  }

  /** Decoding the UTF-8 encoding of a string gives the string back. */
  lemma {:induction false} Utf8RoundTrip(s: string)
    ensures Utf8Decode(Utf8Encode(s)) == Some(s)
  {
    if s != [] {
      var e := EncodeChar(s[0]);
      var bs := Utf8Encode(s);
      assert bs == e + Utf8Encode(s[1..]);
      DecodeFirstOfEncoded(s[0], Utf8Encode(s[1..]));
      assert bs[|e|..] == Utf8Encode(s[1..]);
      Utf8RoundTrip(s[1..]);
      assert s == [s[0]] + s[1..];
    }
  }

  // ---------------------------------------------------------------------------
  // Percent-encoding (RFC 3986)

  /** The unreserved characters of section 2.3 of RFC 3986: ASCII letters, digits, `-._~`. */
  predicate IsUnreserved(c: char) {
    'A' <= c <= 'Z' || 'a' <= c <= 'z' || '0' <= c <= '9' || c == '-' || c == '.' || c == '_' || c == '~'
  }

  const HexDigits := "0123456789ABCDEF"

  predicate IsUpperHex(c: char) { '0' <= c <= '9' || 'A' <= c <= 'F' }

  /** The value of a hexadecimal digit of either case. */
  function HexValue(c: char): (r: Option<nat>)
    ensures r.Some? ==> r.value < 16
    ensures IsUpperHex(c) ==> r.Some?
  {
    if '0' <= c <= '9' then Some(c as int - '0' as int)
    else if 'A' <= c <= 'F' then Some(c as int - 'A' as int + 10)
    else if 'a' <= c <= 'f' then Some(c as int - 'a' as int + 10)
    else None
  }

  /** One octet as `quote` writes it: itself when it is an unreserved ASCII
      character, otherwise `%` and two upper-case hexadecimal digits. */
  function QuoteByte(b: Byte): (r: string)
    ensures |r| == 1 || |r| == 3
  {
    if IsUnreserved(b as char) then [b as char] else ['%', HexDigits[b / 16], HexDigits[b % 16]]
  }

  /** Each octet quoted in turn: one or three characters per octet. */
  function QuoteBytes(bs: seq<Byte>): (r: string)
    ensures |bs| <= |r| <= 3 * |bs|
  {
    if bs == [] then [] else QuoteByte(bs[0]) + QuoteBytes(bs[1..])
  }

  /** `urllib.parse.quote(s, safe='')`. */
  function Quote(s: string): (r: string)
    ensures |s| <= |r| <= 12 * |s|
  {
    QuoteBytes(Utf8Encode(s))
  }

  /** Made only of unreserved characters and `%XX` triples with upper-case digits. */
  predicate IsPercentEncoded(s: string)
    decreases |s|
  {
    if s == [] then true
    else if IsUnreserved(s[0]) then IsPercentEncoded(s[1..])
    else |s| >= 3 && s[0] == '%' && IsUpperHex(s[1]) && IsUpperHex(s[2]) && IsPercentEncoded(s[3..])
  }

  /** Section 2.1 of RFC 3986 decoding: `%XX` gives the octet `XX`, an ASCII
      character gives its own octet; a malformed triple or a non-ASCII
      character is an error. */
  function PercentDecode(s: string): (r: Option<seq<Byte>>)
    decreases |s|
  {
    if s == [] then Some([])
    else if s[0] == '%' then
      if |s| < 3 || HexValue(s[1]).None? || HexValue(s[2]).None? then None
      else match PercentDecode(s[3..])
        case None => None
        case Some(rest) => Some([HexValue(s[1]).value * 16 + HexValue(s[2]).value] + rest)
    else if s[0] as int < 0x80 then
      match PercentDecode(s[1..])
      case None => None
      case Some(rest) => Some([s[0] as int] + rest)
    else None
  }

  /** `unquote`: percent-decoding followed by strict UTF-8 decoding. */
  function Unquote(s: string): Option<string> {
    match PercentDecode(s)
    case None => None
    case Some(bs) => Utf8Decode(bs)
  }

  lemma HexDigit(i: nat)
    requires i < 16
    ensures IsUpperHex(HexDigits[i]) && !IsUnreserved('%')
    ensures HexValue(HexDigits[i]) == Some(i)
  {
    if i < 10 {
      assert HexDigits[i] as int == '0' as int + i;
    } else {
      assert HexDigits[i] as int == 'A' as int + i - 10;
    }
  }

  lemma QuoteByteShape(b: Byte)
    ensures IsPercentEncoded(QuoteByte(b))
    ensures PercentDecode(QuoteByte(b)) == Some([b])
  {
    var q := QuoteByte(b);
    if !IsUnreserved(b as char) {
      HexDigit(b / 16);
      HexDigit(b % 16);
      assert q[0] == '%' && q[1] == HexDigits[b / 16] && q[2] == HexDigits[b % 16];
      assert q[3..] == [];
      assert IsPercentEncoded(q[3..]) && PercentDecode(q[3..]) == Some([]);
      assert HexValue(q[1]) == Some(b / 16) && HexValue(q[2]) == Some(b % 16);
      assert (b / 16) * 16 + b % 16 == b;
      assert [b] + [] == [b];
    } else {
      assert q == [b as char] && q[0] != '%' && q[0] as int == b as int < 0x80;
      assert q[1..] == [];
      assert PercentDecode(q[1..]) == Some([]);
      assert [b] + [] == [b];
    }
  }

  lemma {:induction false} PercentEncodedAppend(a: string, b: string)
    requires IsPercentEncoded(a) && IsPercentEncoded(b)
    ensures IsPercentEncoded(a + b)
    decreases |a|
  {
    if a == [] {
      assert a + b == b;
    } else {
      assert (a + b)[0] == a[0];
      if IsUnreserved(a[0]) {
        assert IsPercentEncoded(a[1..]);
        assert (a + b)[1..] == a[1..] + b;
        PercentEncodedAppend(a[1..], b);
      } else {
        assert |a| >= 3 && a[0] == '%' && IsUpperHex(a[1]) && IsUpperHex(a[2]) && IsPercentEncoded(a[3..]);
        assert (a + b)[1] == a[1] && (a + b)[2] == a[2];
        assert (a + b)[3..] == a[3..] + b;
        PercentEncodedAppend(a[3..], b);
      }
    }
  }

  lemma {:induction false} PercentDecodeAppend(q: string, b: Byte, rest: string)
    requires q == QuoteByte(b)
    requires PercentDecode(rest).Some?
    ensures PercentDecode(q + rest) == Some([b] + PercentDecode(rest).value)
  {
    var s := q + rest;
    if IsUnreserved(b as char) {
      assert s[0] == b as char && s[1..] == rest;
    } else {
      HexDigit(b / 16);
      HexDigit(b % 16);
      assert s[0] == '%' && s[1] == q[1] && s[2] == q[2] && s[3..] == rest;
    }
  }

  /** The output of `QuoteBytes` is percent-encoded and decodes to the octets it came from. */
  lemma {:induction false} QuoteBytesRoundTrip(bs: seq<Byte>)
    ensures IsPercentEncoded(QuoteBytes(bs))
    ensures PercentDecode(QuoteBytes(bs)) == Some(bs)
  {
    if bs != [] {
      QuoteBytesRoundTrip(bs[1..]);
      QuoteByteShape(bs[0]);
      PercentEncodedAppend(QuoteByte(bs[0]), QuoteBytes(bs[1..]));
      PercentDecodeAppend(QuoteByte(bs[0]), bs[0], QuoteBytes(bs[1..]));
      assert [bs[0]] + bs[1..] == bs;
    }
  }

  /** `quote` writes only unreserved characters and `%XX` triples, and `unquote` undoes it. */
  lemma QuoteRoundTrip(s: string)
    ensures IsPercentEncoded(Quote(s))
    ensures PercentDecode(Quote(s)) == Some(Utf8Encode(s))
    ensures Unquote(Quote(s)) == Some(s)
  {
    QuoteBytesRoundTrip(Utf8Encode(s));
    Utf8RoundTrip(s);
  }

  /** A string of unreserved characters is left as it is. */
  lemma {:induction false} QuoteKeepsUnreserved(s: string)
    requires forall k :: 0 <= k < |s| ==> IsUnreserved(s[k])
    ensures Quote(s) == s
  {
    if s != [] {
      QuoteKeepsUnreserved(s[1..]);
      assert Utf8Encode(s) == [s[0] as int] + Utf8Encode(s[1..]);
      assert Utf8Encode(s)[1..] == Utf8Encode(s[1..]);
      assert s == [s[0]] + s[1..];
    }
  }

  /** A percent-encoded string contains none of the characters that delimit URL parts, and `%` only before two hex digits. */
  lemma {:induction false} PercentEncodedHasNoDelimiters(s: string)
    requires IsPercentEncoded(s)
    ensures forall k :: 0 <= k < |s| ==> s[k] !in "/\\?#&= "
    decreases |s|
  {
    if s != [] {
      if IsUnreserved(s[0]) {
        PercentEncodedHasNoDelimiters(s[1..]);
        assert forall k :: 1 <= k < |s| ==> s[k] == s[1..][k - 1];
      } else {
        PercentEncodedHasNoDelimiters(s[3..]);
        assert forall k :: 3 <= k < |s| ==> s[k] == s[3..][k - 3];
      }
    }
  }
}
