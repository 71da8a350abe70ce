/** Percent-encoding of a path segment and its inverse, over Unicode characters and their UTF-8 bytes
    (encodeURIComponent and decodeURIComponent of ECMA-262). */
module PercentCoding {

  import opened Options

  // ---- UTF-8 ----

  predicate IsByte(b: int) {
    0 <= b < 256
  }

  predicate AllBytes(bs: seq<int>) {
    forall i :: 0 <= i < |bs| ==> IsByte(bs[i])
  }

  function Utf8(c: char): (bs: seq<int>)
    ensures 1 <= |bs| <= 4 && AllBytes(bs)
  {
    var v := c as int;
    if v < 0x80 then [v]
    else if v < 0x800 then [0xC0 + v / 64, 0x80 + v % 64]
    else if v < 0x1_0000 then [0xE0 + v / 4096, 0x80 + v / 64 % 64, 0x80 + v % 64]
    else [0xF0 + v / 262144, 0x80 + v / 4096 % 64, 0x80 + v / 64 % 64, 0x80 + v % 64]
  }

  /** How many bytes a leading byte announces. */
  function Announced(lead: int): Option<nat> {
    if lead < 0x80 then Some(1)
    else if 0xC0 <= lead < 0xE0 then Some(2)
    else if 0xE0 <= lead < 0xF0 then Some(3)
    else if 0xF0 <= lead < 0xF8 then Some(4)
    else None
  }

  /** The number the payload bits of one to four bytes spell. */
  function Payload(bs: seq<int>): int {
    if |bs| == 1 then bs[0]
    else if |bs| == 2 then (bs[0] - 0xC0) * 64 + (bs[1] - 0x80)
    else if |bs| == 3 then (bs[0] - 0xE0) * 4096 + (bs[1] - 0x80) * 64 + (bs[2] - 0x80)
    else if |bs| == 4 then (bs[0] - 0xF0) * 262144 + (bs[1] - 0x80) * 4096 + (bs[2] - 0x80) * 64 + (bs[3] - 0x80)
    else -1
  }

  predicate IsScalar(v: int) {
    0 <= v < 0xD800 || 0xE000 <= v < 0x11_0000
  }

  /** The character the bytes are the UTF-8 form of: overlong forms, surrogates and stray bytes have none. */
  function FromUtf8(bs: seq<int>): Option<char> {
    var v := Payload(bs);
    if IsScalar(v) && Utf8(v as char) == bs then Some(v as char) else None
  }

  lemma Utf8RoundTrip(c: char)
    ensures FromUtf8(Utf8(c)) == Some(c) && Announced(Utf8(c)[0]) == Some(|Utf8(c)|)
  {
    var v := c as int;
    assert v == v / 64 * 64 + v % 64;
    assert v / 64 == v / 4096 * 64 + v / 64 % 64;
    assert v / 4096 == v / 262144 * 64 + v / 4096 % 64;
  }

  /** The length of a Go string: its UTF-8 bytes. */
  function Bytes(s: string): nat {
    if s == [] then 0 else |Utf8(s[0])| + Bytes(s[1..])
  }

  // ---- Escapes ----

  function HexDigit(d: nat): char
    requires d < 16
  {
    if d < 10 then ('0' as int + d) as char else ('A' as int + d - 10) as char
  }

  function HexValue(c: char): (r: Option<int>)
    ensures r.Some? ==> 0 <= r.value < 16
  {
    if '0' <= c <= '9' then Some(c as int - '0' as int)
    else if 'A' <= c <= 'F' then Some(c as int - 'A' as int + 10)
    else if 'a' <= c <= 'f' then Some(c as int - 'a' as int + 10)
    else None
  }

  function Escape(b: int): string
    requires IsByte(b)
  {
    ['%', HexDigit(b / 16), HexDigit(b % 16)]
  }

  function Escapes(bs: seq<int>): string
    requires AllBytes(bs)
  {
    if bs == [] then [] else Escape(bs[0]) + Escapes(bs[1..])
  }

  /** The byte the text escapes at its start. */
  function Octet(s: string): (r: Option<int>)
    ensures r.Some? ==> |s| >= 3
  {
    if |s| < 3 || s[0] != '%' || HexValue(s[1]).None? || HexValue(s[2]).None? then None
    else Some(HexValue(s[1]).value * 16 + HexValue(s[2]).value)
  }

  function Octets(s: string, n: nat): (r: Option<seq<int>>)
    ensures r.Some? ==> |r.value| == n && |s| >= 3 * n
  {
    if n == 0 then Some([])
    else if Octet(s).None? then None
    else
      var rest := Octets(s[3..], n - 1);
      if rest.None? then None else Some([Octet(s).value] + rest.value)
  }

  lemma OctetOfEscape(b: int, rest: string, s: string)
    requires IsByte(b) && s == Escape(b) + rest
    ensures Octet(s) == Some(b) && s[0] == '%' && s[3..] == rest
  {
  }

  lemma {:induction false} OctetsOfEscapes(bs: seq<int>, rest: string)
    requires AllBytes(bs)
    ensures |Escapes(bs)| == 3 * |bs| && Octets(Escapes(bs) + rest, |bs|) == Some(bs)
  {
    if bs != [] {
      OctetsOfEscapes(bs[1..], rest);
      FirstEscape(bs, rest);
      assert [bs[0]] + bs[1..] == bs;
    }
  }

  lemma EscapesSplit(bs: seq<int>, rest: string)
    requires AllBytes(bs) && bs != []
    ensures Escapes(bs) + rest == Escape(bs[0]) + (Escapes(bs[1..]) + rest)
  {
  }

  lemma FirstEscape(bs: seq<int>, rest: string)
    requires AllBytes(bs) && bs != []
    ensures Octet(Escapes(bs) + rest) == Some(bs[0])
    ensures (Escapes(bs) + rest)[0] == '%' && (Escapes(bs) + rest)[3..] == Escapes(bs[1..]) + rest
  {
    EscapesSplit(bs, rest);
    OctetOfEscape(bs[0], Escapes(bs[1..]) + rest, Escapes(bs) + rest);
  }

  // ---- Segments ----

  predicate IsUnreserved(c: char) {
    'A' <= c <= 'Z' || 'a' <= c <= 'z' || '0' <= c <= '9' || c in "-_.!~*'()"
  }

  function EncodeChar(c: char): string {
    if IsUnreserved(c) then [c] else Escapes(Utf8(c))
  }

  function Encode(s: string): string {
    if s == [] then [] else EncodeChar(s[0]) + Encode(s[1..])
  }

  /** The first character of an encoded text, and how much of the text spells it. */
  function DecodeFirst(s: string): (r: Option<(char, nat)>)
    requires s != []
    ensures r.Some? ==> 0 < r.value.1 <= |s|
  {
    if s[0] != '%' then Some((s[0], 1))
    else if Octet(s).None? || Announced(Octet(s).value).None? then None
    else
      var n := Announced(Octet(s).value).value;
      var bytes := Octets(s, n);
      if bytes.None? || FromUtf8(bytes.value).None? then None else Some((FromUtf8(bytes.value).value, 3 * n))
  }

  /** The decoded text, or nothing if an escape is malformed or its bytes are no UTF-8. */
  function Decode(s: string): Option<string> {
    if s == [] then Some([])
    else if DecodeFirst(s).None? then None
    else
      var (c, n) := DecodeFirst(s).value;
      var rest := Decode(s[n..]);
      if rest.None? then None else Some([c] + rest.value)
  }

  lemma DecodeFirstEscaped(c: char, bs: seq<int>, rest: string)
    requires AllBytes(bs) && bs == Utf8(c)
    ensures |Escapes(bs)| == 3 * |bs| && DecodeFirst(Escapes(bs) + rest) == Some((c, 3 * |bs|))
  {
    Utf8RoundTrip(c);
    OctetsOfEscapes(bs, rest);
    FirstEscape(bs, rest);
  }

  lemma DecodeFirstEncoded(c: char, rest: string)
    ensures EncodeChar(c) != [] && DecodeFirst(EncodeChar(c) + rest) == Some((c, |EncodeChar(c)|))
  {
    if !IsUnreserved(c) {
      DecodeFirstEscaped(c, Utf8(c), rest);
    }
  }

  /** Decoding undoes encoding, for every text. */
  lemma {:induction false} DecodeEncode(s: string)
    ensures Decode(Encode(s)) == Some(s)
  {
    if s != [] {
      DecodeEncode(s[1..]);
      DecodeFirstEncoded(s[0], Encode(s[1..]));
      assert Encode(s)[|EncodeChar(s[0])|..] == Encode(s[1..]);
      assert [s[0]] + s[1..] == s;
    }
  }

  lemma EncodeInjective(a: string, b: string)
    requires Encode(a) == Encode(b)
    ensures a == b
  {
    DecodeEncode(a);
    DecodeEncode(b);
  }

  predicate Unescaped(s: string) {
    forall i :: 0 <= i < |s| ==> IsUnreserved(s[i])
  }

  lemma {:induction false} EncodeUnreserved(s: string)
    requires Unescaped(s)
    ensures Encode(s) == s
  {
    if s != [] {
      EncodeUnreserved(s[1..]);
    }
  }

  predicate IsSlash(c: char) {
    c == '/'
  }

  predicate NoSlash(s: string) {
    forall i :: 0 <= i < |s| ==> !IsSlash(s[i])
  }

  lemma {:induction false} EscapesNoSlash(bs: seq<int>)
    requires AllBytes(bs)
    ensures NoSlash(Escapes(bs))
  {
    if bs != [] {
      EscapesNoSlash(bs[1..]);
    }
  }

  /** An encoded text is one path segment: it has no slash and is empty only for the empty text. */
  lemma {:induction false} EncodedIsSegment(s: string)
    ensures NoSlash(Encode(s)) && (Encode(s) == [] <==> s == [])
  {
    if s != [] {
      EncodedIsSegment(s[1..]);
      EscapesNoSlash(Utf8(s[0]));
      DecodeFirstEncoded(s[0], []);
    }
  }
}
