/** `encodeURIComponent`, used for the generated `news.html?id=` link
    (assets/news.js:193): the unreserved characters stay, every other code point is
    written as the `%XY` escapes of its UTF-8 bytes, with upper-case hex digits. */
module Uri {

  type Byte = b: int | 0 <= b < 256

  /** The characters `encodeURIComponent` leaves alone. */
  predicate IsUnreserved(c: char) {
    || ('A' <= c <= 'Z') || ('a' <= c <= 'z') || ('0' <= c <= '9')
    || c == '-' || c == '_' || c == '.' || c == '!' || c == '~'
    || c == '*' || c == '\'' || c == '(' || c == ')'
  }

  /** The UTF-8 encoding of one code point. */
  function Utf8(c: char): (r: seq<Byte>)
    ensures 1 <= |r| <= 4
    ensures c as int < 0x80 <==> |r| == 1
  {
    var n := c as int;
    if n < 0x80 then [n]
    else if n < 0x800 then [0xC0 + n / 0x40, 0x80 + n % 0x40]
    else if n < 0x10000 then [0xE0 + n / 0x1000, 0x80 + (n / 0x40) % 0x40, 0x80 + n % 0x40]
    else [0xF0 + n / 0x40000, 0x80 + (n / 0x1000) % 0x40, 0x80 + (n / 0x40) % 0x40, 0x80 + n % 0x40]
  }

  function Utf8Bytes(s: string): seq<Byte>
    decreases |s|
  {
    if s == [] then [] else Utf8(s[0]) + Utf8Bytes(s[1..])
  }

  predicate IsHexDigit(c: char) {
    ('0' <= c <= '9') || ('A' <= c <= 'F')
  }

  function HexDigit(d: int): (c: char)
    requires 0 <= d < 16
    ensures IsHexDigit(c)
  {
    if d < 10 then ('0' as int + d) as char else ('A' as int + d - 10) as char
  }

  function HexValue(c: char): int {
    if '0' <= c <= '9' then c as int - '0' as int
    else if 'A' <= c <= 'F' then c as int - 'A' as int + 10
    else 0
  }

  /** The `%XY` escapes of a run of bytes. */
  function PercentBytes(bs: seq<Byte>): (r: string)
    ensures |r| == 3 * |bs|
    decreases |bs|
  {
    if bs == [] then [] else ['%', HexDigit(bs[0] / 16), HexDigit(bs[0] % 16)] + PercentBytes(bs[1..])
  }

  function EncodeChar(c: char): string {
    if IsUnreserved(c) then [c] else PercentBytes(Utf8(c))
  }

  function EncodeURIComponent(s: string): string
    decreases |s|
  {
    if s == [] then [] else EncodeChar(s[0]) + EncodeURIComponent(s[1..])
  }

  /** Reads `%XY` escapes as bytes and any other character as its own code. */
  function PercentDecode(s: string): seq<int>
    decreases |s|
  {
    if s == [] then []
    else if s[0] == '%' && |s| >= 3 then [HexValue(s[1]) * 16 + HexValue(s[2])] + PercentDecode(s[3..])
    else [s[0] as int] + PercentDecode(s[1..])
  }

  /** A string of unreserved characters is its own encoding. */
  lemma {:induction false} EncodeUnreserved(s: string)
    requires forall c :: c in s ==> IsUnreserved(c)
    ensures EncodeURIComponent(s) == s
  {
    if s != [] {
      EncodeUnreserved(s[1..]);
      assert s == [s[0]] + s[1..];
    }
  }

  /** The encoding holds only unreserved characters, `%` and upper-case hex digits. */
  lemma {:induction false} EncodeAlphabet(s: string)
    ensures forall c :: c in EncodeURIComponent(s) ==> IsUnreserved(c) || c == '%' || IsHexDigit(c)
  {
    if s != [] {
      EncodeAlphabet(s[1..]);
      PercentBytesAlphabet(Utf8(s[0]));
    }
  }

  lemma {:induction false} PercentBytesAlphabet(bs: seq<Byte>)
    ensures forall c :: c in PercentBytes(bs) ==> c == '%' || IsHexDigit(c)
  {
    if bs != [] {
      PercentBytesAlphabet(bs[1..]);
    }
  }

  lemma HexRoundTrip(d: int)
    requires 0 <= d < 16
    ensures HexValue(HexDigit(d)) == d
  {
  }

  lemma {:induction false} DecodePercentBytes(bs: seq<Byte>, t: string)
    ensures PercentDecode(PercentBytes(bs) + t) == bs + PercentDecode(t)
  {
    if bs == [] {
      assert PercentBytes(bs) + t == t;
    } else {
      var b := bs[0];
      var w := PercentBytes(bs[1..]) + t;
      var e := ['%', HexDigit(b / 16), HexDigit(b % 16)];
      assert PercentBytes(bs) + t == e + w;
      DecodeEscape(b, w);
      DecodePercentBytes(bs[1..], t);
      assert [b] + bs[1..] == bs;
    }
  }

  /** One `%XY` escape decodes to its byte. */
  lemma DecodeEscape(b: Byte, w: string)
    ensures PercentDecode(['%', HexDigit(b / 16), HexDigit(b % 16)] + w) == [b] + PercentDecode(w)
  {
    var u := ['%', HexDigit(b / 16), HexDigit(b % 16)] + w;
    HexRoundTrip(b / 16);
    HexRoundTrip(b % 16);
    assert u[3..] == w;
  }

  /** Decoding the escapes gives back the UTF-8 bytes of the text: the encoding loses
      nothing, so the detail page receives the key the list page linked to. */
  lemma {:induction false} DecodeEncode(s: string)
    ensures PercentDecode(EncodeURIComponent(s)) == Utf8Bytes(s)
  {
    if s != [] {
      DecodeEncode(s[1..]);
      var c := s[0];
      var rest := EncodeURIComponent(s[1..]);
      if IsUnreserved(c) {
        assert ([c] + rest)[1..] == rest;
        assert Utf8(c) == [c as int];
      } else {
        DecodePercentBytes(Utf8(c), rest);
      }
    }
  }
}
