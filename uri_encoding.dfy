/** `encodeURIComponent` of ECMA-262 (section 19.2.6, URI Handling
    Functions): every character outside the unreserved set is written as
    the percent-escaped octets of its UTF-8 encoding (section 2.1 of
    RFC 3986), with upper-case hexadecimal digits. A reference decoder,
    after `decodeURIComponent`, is the partner that shows no information is
    lost. Strings are sequences of Unicode scalar values, so the lone
    surrogates on which `encodeURIComponent` throws cannot occur. */
module UriEncoding {
  import opened Wrappers

  type Byte = b: int | 0 <= b < 256

  /** The characters `encodeURIComponent` leaves as they are. */
  predicate IsUnreserved(c: char) {
    ('A' <= c <= 'Z') || ('a' <= c <= 'z') || ('0' <= c <= '9') ||
    c == '-' || c == '_' || c == '.' || c == '!' || c == '~' ||
    c == '*' || c == '\'' || c == '(' || c == ')'
  }

  /** The UTF-8 encoding of one Unicode scalar value. */
  function Utf8(c: char): (bs: seq<Byte>)
    ensures 1 <= |bs| <= 4
  {
    var n := c as int;
    if n < 0x80 then [n]
    else if n < 0x800 then [0xC0 + n / 64, 0x80 + n % 64]
    else if n < 0x10000 then [0xE0 + n / 4096, 0x80 + (n / 64) % 64, 0x80 + n % 64]
    else [0xF0 + n / 262144, 0x80 + (n / 4096) % 64, 0x80 + (n / 64) % 64, 0x80 + n % 64]
  }

  /** An upper-case hexadecimal digit. */
  function HexDigit(d: nat): char
    requires d < 16
  {
    if d < 10 then ('0' as int + d) as char else ('A' as int + d - 10) as char
  }

  /** The octets bs, each written as `%` and two hexadecimal digits. */
  function Escape(bs: seq<Byte>): (r: string)
    ensures |r| == 3 * |bs|
  {
    if bs == [] then [] else ['%', HexDigit(bs[0] / 16), HexDigit(bs[0] % 16)] + Escape(bs[1..])
  }

  /** The encoding of one character. */
  function EncodeChar(c: char): (r: string)
    ensures IsUnreserved(c) ==> r == [c]
    ensures !IsUnreserved(c) ==> 3 <= |r| <= 12 && r[0] == '%'
    ensures forall k :: 0 <= k < |r| ==> IsUnreserved(r[k]) || r[k] == '%'
  {
    if IsUnreserved(c) then [c]
    else
      EscapeAlphabet(Utf8(c));
      Escape(Utf8(c))
  }

  /** `encodeURIComponent(s)`. The result holds nothing but unreserved
      characters and `%`, so it can stand as one query-string value. */
  function EncodeURIComponent(s: string): (r: string)
    ensures forall k :: 0 <= k < |r| ==> IsUnreserved(r[k]) || r[k] == '%'
    ensures |r| >= |s|
  {
    if s == [] then []
    else
      EncodeChar(s[0]) + EncodeURIComponent(s[1..])
  }

  lemma {:induction false} EscapeAlphabet(bs: seq<Byte>)
    ensures forall k :: 0 <= k < |Escape(bs)| ==> IsUnreserved(Escape(bs)[k]) || Escape(bs)[k] == '%'
  {
    if bs != [] { EscapeAlphabet(bs[1..]); }
  }

  // ---- reference decoder ----

  /** The value of a hexadecimal digit of either case. */
  function HexValue(c: char): (r: Option<nat>)
    ensures r.Some? ==> r.value < 16
  {
    if '0' <= c <= '9' then Some(c as int - '0' as int)
    else if 'A' <= c <= 'F' then Some(c as int - 'A' as int + 10)
    else if 'a' <= c <= 'f' then Some(c as int - 'a' as int + 10)
    else None
  }

  /** Reads n escapes `%XY` from the start of s. */
  function ReadEscapes(s: string, n: nat): (r: Option<seq<Byte>>)
    ensures r.Some? ==> |r.value| == n && 3 * n <= |s|
    decreases n
  {
    if n == 0 then Some([])
    else if |s| < 3 || s[0] != '%' then None
    else match (HexValue(s[1]), HexValue(s[2]), ReadEscapes(s[3..], n - 1))
      case (Some(h), Some(l), Some(rest)) => Some([16 * h + l] + rest)
      case _ => None
  }

  /** The length of the UTF-8 sequence a leading octet announces; 0 when it
      cannot start one. */
  function SequenceLength(b: Byte): nat {
    if b < 0x80 then 1
    else if 0xC2 <= b < 0xE0 then 2
    else if 0xE0 <= b < 0xF0 then 3
    else if 0xF0 <= b < 0xF5 then 4
    else 0
  }

  predicate IsContinuation(b: Byte) {
    0x80 <= b < 0xC0
  }

  /** The character with code point n, if n is a Unicode scalar value at
      least min (which rules out over-long encodings). */
  function ScalarOf(n: int, min: int): Option<char> {
    if min <= n && (0 <= n < 0xD800 || 0xE000 <= n < 0x11_0000) then Some(n as char) else None
  }

  /** Decodes one complete UTF-8 sequence. */
  function DecodeScalar(bs: seq<Byte>): Option<char> {
    if |bs| == 1 && bs[0] < 0x80 then ScalarOf(bs[0], 0)
    else if |bs| == 2 && 0xC0 <= bs[0] < 0xE0 && IsContinuation(bs[1]) then
      ScalarOf((bs[0] as int - 0xC0) * 64 + (bs[1] as int - 0x80), 0x80)
    else if |bs| == 3 && 0xE0 <= bs[0] < 0xF0 && IsContinuation(bs[1]) && IsContinuation(bs[2]) then
      ScalarOf((bs[0] as int - 0xE0) * 4096 + (bs[1] as int - 0x80) * 64 + (bs[2] as int - 0x80), 0x800)
    else if |bs| == 4 && 0xF0 <= bs[0] < 0xF8 && IsContinuation(bs[1]) && IsContinuation(bs[2])
      && IsContinuation(bs[3]) then
      ScalarOf((bs[0] as int - 0xF0) * 262144 + (bs[1] as int - 0x80) * 4096 + (bs[2] as int - 0x80) * 64 + (bs[3] as int - 0x80), 0x1_0000)
    else None
  }

  /** `decodeURIComponent(s)`, or None where it throws `URIError`. */
  function DecodeURIComponent(s: string): Option<string>
    decreases |s|
  {
    if s == [] then Some([])
    else if s[0] != '%' then
      match DecodeURIComponent(s[1..])
      case Some(t) => Some([s[0]] + t)
      case None => None
    else match ReadEscapes(s, 1)
      case None => None
      case Some(lead) =>
        var n := SequenceLength(lead[0]);
        if n == 0 then None
        else match ReadEscapes(s, n)
          case None => None
          case Some(bs) =>
            match DecodeScalar(bs)
            case None => None
            case Some(c) =>
              match DecodeURIComponent(s[3 * n..])
              case Some(t) => Some([c] + t)
              case None => None
  }

  // ---- round trip ----

  lemma HexRoundTrip(b: Byte)
    ensures HexValue(HexDigit(b / 16)) == Some(b / 16)
    ensures HexValue(HexDigit(b % 16)) == Some(b % 16)
  {
  }

  /** Reading k escapes back from the escaped octets bs gives bs's first k octets. */
  lemma {:induction false} ReadEscaped(bs: seq<Byte>, rest: string, k: nat)
    requires k <= |bs|
    ensures ReadEscapes(Escape(bs) + rest, k) == Some(bs[..k])
    decreases k
  {
    if k > 0 {
      var s := Escape(bs) + rest;
      HexRoundTrip(bs[0]);
      assert s[3..] == Escape(bs[1..]) + rest;
      ReadEscaped(bs[1..], rest, k - 1);
      assert [bs[0]] + bs[1..][..k - 1] == bs[..k];
    }
  }

  lemma DivSplit(n: nat)
    ensures n / 64 == (n / 4096) * 64 + (n / 64) % 64
    ensures n / 4096 == (n / 262144) * 64 + (n / 4096) % 64
  {
  }

  /** Decoding the UTF-8 encoding of c gives c back, and the leading octet
      announces the encoding's length. */
  lemma Utf8RoundTrip(c: char)
    ensures SequenceLength(Utf8(c)[0]) == |Utf8(c)|
    ensures DecodeScalar(Utf8(c)) == Some(c)
  {
    DivSplit(c as int);
  }

  /** Decoding the encoding of c followed by an encoded rest gives c
      followed by the decoded rest. */
  lemma DecodeEncodedChar(c: char, rest: string, t: string)
    requires DecodeURIComponent(rest) == Some(t)
    ensures DecodeURIComponent(EncodeChar(c) + rest) == Some([c] + t)
  {
    var s := EncodeChar(c) + rest;
    if IsUnreserved(c) {
      assert s[1..] == rest;
    } else {
      var bs := Utf8(c);
      Utf8RoundTrip(c);
      ReadEscaped(bs, rest, 1);
      ReadEscaped(bs, rest, |bs|);
      assert bs[..|bs|] == bs;
      assert s[3 * |bs|..] == rest;
    }
  }

  /** `decodeURIComponent(encodeURIComponent(s)) == s`. */
  lemma {:induction false} DecodeEncode(s: string)
    ensures DecodeURIComponent(EncodeURIComponent(s)) == Some(s)
  {
    if s != [] {
      DecodeEncode(s[1..]);
      DecodeEncodedChar(s[0], EncodeURIComponent(s[1..]), s[1..]);
      assert [s[0]] + s[1..] == s;
    }
  }
}
