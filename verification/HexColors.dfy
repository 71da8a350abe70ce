/** Colours as hex texts and as channels. */
module HexColors {

  import opened JsText
  import opened Options
  import opened PercentCoding
  import opened Text

  datatype Rgb = Rgb(r: int, g: int, b: int)

  predicate IsHexText(s: string) {
    forall i :: 0 <= i < |s| ==> HexValue(s[i]).Some?
  }

  function Lower(c: char): char {
    if 'A' <= c <= 'Z' then (c as int + 32) as char else c
  }

  function LowerAll(s: string): string {
    seq(|s|, i requires 0 <= i < |s| => Lower(s[i]))
  }

  function WithoutHash(s: string): string {
    if s != [] && s[0] == '#' then s[1..] else s
  }

  /** Six or three hex digits with or without a hash, made into a hash and six lower-case digits. */
  function NormalizeHex(hex: string): Option<string> {
    var d := WithoutHash(Trim(hex));
    if !IsHexText(d) then None
    else if |d| == 6 then Some("#" + LowerAll(d))
    else if |d| == 3 then Some("#" + LowerAll([d[0], d[0], d[1], d[1], d[2], d[2]]))
    else None
  }

  /** The number two hex digits spell. */
  function Pair(s: string): int
    requires |s| == 2 && IsHexText(s)
  {
    HexValue(s[0]).value * 16 + HexValue(s[1]).value
  }

  lemma NormalizedIsHex(hex: string)
    ensures NormalizeHex(hex).Some? ==>
      var n := NormalizeHex(hex).value; |n| == 7 && n[0] == '#' && IsHexText(n[1..]) && LowerAll(n[1..]) == n[1..]
  {
    var d := WithoutHash(Trim(hex));
    if IsHexText(d) {
      LowerKeepsHex(d);
      if |d| == 3 {
        LowerKeepsHex([d[0], d[0], d[1], d[1], d[2], d[2]]);
      }
    }
  }

  lemma LowerKeepsHex(s: string)
    requires IsHexText(s)
    ensures IsHexText(LowerAll(s)) && LowerAll(LowerAll(s)) == LowerAll(s)
  {
  }

  function HexToRgb(hex: string): Option<Rgb> {
    if NormalizeHex(hex).None? then None
    else
      NormalizedIsHex(hex);
      var n := NormalizeHex(hex).value;
      Some(Rgb(Pair(n[1..][0..2]), Pair(n[1..][2..4]), Pair(n[1..][4..6])))
  }

  // ---- Writing ----

  function Clamp(n: int, low: int, high: int): int {
    var raised := if n < low then low else n;
    if raised > high then high else raised
  }

  /** A channel as two hex digits. */
  function ChannelHex(n: int): string {
    var c := Clamp(n, 0, 255);
    [LowerHex(c / 16), LowerHex(c % 16)]
  }

  function RgbToHex(c: Rgb): string {
    "#" + ChannelHex(c.r) + ChannelHex(c.g) + ChannelHex(c.b)
  }

  predicate IsChannel(n: int) {
    0 <= n <= 255
  }

  predicate IsColor(c: Rgb) {
    IsChannel(c.r) && IsChannel(c.g) && IsChannel(c.b)
  }

  // ---- Round trips ----

  lemma ChannelRoundTrip(n: int)
    ensures IsHexText(ChannelHex(n)) && LowerAll(ChannelHex(n)) == ChannelHex(n)
    ensures Pair(ChannelHex(n)) == Clamp(n, 0, 255)
  {
  }

  lemma PairRoundTrip(s: string)
    requires |s| == 2 && IsHexText(s) && LowerAll(s) == s
    ensures ChannelHex(Pair(s)) == s
  {
    DigitRoundTrip(s[0]);
    DigitRoundTrip(s[1]);
    assert LowerAll(s)[0] == s[0] && LowerAll(s)[1] == s[1];
  }

  lemma DigitRoundTrip(c: char)
    requires HexValue(c).Some?
    ensures Lower(c) == c ==> LowerHex(HexValue(c).value) == c
  {
  }

  lemma NotBlank(s: string)
    requires s != [] && !IsBlank(s[0]) && !IsBlank(s[|s| - 1])
    ensures Trim(s) == s
  {
  }

  /** A normalised text is its own normal form. */
  lemma NormalStays(d: string)
    requires |d| == 6 && IsHexText(d) && LowerAll(d) == d
    ensures NormalizeHex("#" + d) == Some("#" + d)
  {
    var s := "#" + d;
    assert s[0] == '#' && s[1..] == d && s[|s| - 1] == d[5];
    assert HexValue(d[5]).Some?;
    NotBlank(s);
  }

  lemma ReadsSix(d: string)
    requires |d| == 6 && IsHexText(d) && LowerAll(d) == d
    ensures HexToRgb("#" + d) == Some(Rgb(Pair(d[0..2]), Pair(d[2..4]), Pair(d[4..6])))
  {
    NormalStays(d);
    assert ("#" + d)[1..] == d;
  }

  lemma Thirds(r: string, g: string, b: string)
    requires |r| == 2 && |g| == 2 && |b| == 2
    ensures var d := r + g + b; |d| == 6 && d[0..2] == r && d[2..4] == g && d[4..6] == b && "#" + r + g + b == "#" + d
  {
  }

  /** Writing a colour and reading it back gives the colour; channels out of range come back clamped. */
  lemma HexRoundTrip(c: Rgb)
    ensures HexToRgb(RgbToHex(c)) == Some(Rgb(Clamp(c.r, 0, 255), Clamp(c.g, 0, 255), Clamp(c.b, 0, 255)))
  {
    var r, g, b := ChannelHex(c.r), ChannelHex(c.g), ChannelHex(c.b);
    ChannelRoundTrip(c.r);
    ChannelRoundTrip(c.g);
    ChannelRoundTrip(c.b);
    JoinHex(r, g, b);
    Thirds(r, g, b);
    ReadsSix(r + g + b);
  }

  lemma JoinHex(r: string, g: string, b: string)
    requires |r| == 2 && |g| == 2 && |b| == 2 && IsHexText(r) && IsHexText(g) && IsHexText(b)
    requires LowerAll(r) == r && LowerAll(g) == g && LowerAll(b) == b
    ensures IsHexText(r + g + b) && LowerAll(r + g + b) == r + g + b
  {
    assert Lower(r[0]) == r[0] && Lower(r[1]) == r[1] && Lower(g[0]) == g[0] && Lower(g[1]) == g[1];
    assert Lower(b[0]) == b[0] && Lower(b[1]) == b[1];
    var d := r + g + b;
    assert d[0] == r[0] && d[1] == r[1] && d[2] == g[0] && d[3] == g[1] && d[4] == b[0] && d[5] == b[1];
  }

  lemma PartRoundTrip(d: string, i: nat)
    requires i + 2 <= |d| && IsHexText(d) && LowerAll(d) == d
    ensures IsChannel(Pair(d[i..i + 2])) && ChannelHex(Pair(d[i..i + 2])) == d[i..i + 2]
  {
    assert LowerAll(d)[i] == d[i] && LowerAll(d)[i + 1] == d[i + 1];
    PairRoundTrip(d[i..i + 2]);
  }

  lemma SixDigits(d: string)
    requires |d| == 6 && IsHexText(d) && LowerAll(d) == d
    ensures var c := Rgb(Pair(d[0..2]), Pair(d[2..4]), Pair(d[4..6])); IsColor(c) && RgbToHex(c) == "#" + d
  {
    PartRoundTrip(d, 0);
    PartRoundTrip(d, 2);
    PartRoundTrip(d, 4);
    assert d == d[0..2] + d[2..4] + d[4..6];
  }

  /** Reading a colour text and writing it back gives its normal form. */
  lemma TextRoundTrip(hex: string)
    requires HexToRgb(hex).Some?
    ensures IsColor(HexToRgb(hex).value) && Some(RgbToHex(HexToRgb(hex).value)) == NormalizeHex(hex)
  {
    NormalizedIsHex(hex);
    var n := NormalizeHex(hex).value;
    SixDigits(n[1..]);
    assert n == "#" + n[1..];
  }

  lemma ShortForm(a: char, b: char, c: char)
    requires IsHexText([a, b, c])
    ensures NormalizeHex("#" + [a, b, c]) == Some("#" + LowerAll([a, a, b, b, c, c])) && IsHexText([a, a, b, b, c, c])
  {
    var s, d := "#" + [a, b, c], [a, b, c];
    assert s[0] == '#' && s[1..] == d && s[|s| - 1] == d[2];
    assert HexValue(d[0]).Some? && HexValue(d[1]).Some? && HexValue(d[2]).Some?;
    NotBlank(s);
  }

  lemma LowerReads(s: string)
    requires |s| == 2 && IsHexText(s)
    ensures IsHexText(LowerAll(s)) && Pair(LowerAll(s)) == Pair(s)
  {
    LowerKeepsHex(s);
  }

  lemma LowerParts(s: string, i: nat)
    requires i + 2 <= |s|
    ensures LowerAll(s)[i..i + 2] == LowerAll(s[i..i + 2])
  {
  }

  lemma DoubledDigit(s: string, i: nat, c: char)
    requires i + 2 <= |s| && IsHexText(s) && IsHexText(LowerAll(s)) && s[i] == c && s[i + 1] == c && HexValue(c).Some?
    ensures IsHexText(LowerAll(s)[i..i + 2]) && Pair(LowerAll(s)[i..i + 2]) == 17 * HexValue(c).value
  {
    LowerParts(s, i);
    LowerReads(s[i..i + 2]);
  }

  /** Three digits spell 17 times each, in either case. */
  lemma ShortReads(a: char, b: char, c: char)
    requires IsHexText([a, b, c])
    ensures forall d :: d in [a, b, c] ==> HexValue(d).Some?
    ensures HexToRgb("#" + [a, b, c]) ==
      Some(Rgb(17 * HexValue(a).value, 17 * HexValue(b).value, 17 * HexValue(c).value))
  {
    ShortForm(a, b, c);
    var d := [a, a, b, b, c, c];
    LowerKeepsHex(d);
    DoubledDigit(d, 0, a);
    DoubledDigit(d, 2, b);
    DoubledDigit(d, 4, c);
    assert ("#" + LowerAll(d))[1..] == LowerAll(d);
  }
}
