/** Strings as Go holds them: bytes that need not be valid UTF-8. */
module GoText {

  import opened Options
  import opened Text
  import opened PercentCoding

  /** The bytes of a text. */
  function Utf8All(s: string): (bs: seq<int>)
    ensures |bs| == Bytes(s)
  {
    if s == [] then [] else Utf8(s[0]) + Utf8All(s[1..])
  }

  // ---- Runes ----

  /** The character the bytes begin with, and how many of them it takes. */
  function FirstRune(bs: seq<int>): (r: Option<(char, nat)>)
    ensures r.Some? ==> 0 < r.value.1 <= |bs|
  {
    if bs == [] || Announced(bs[0]).None? || Announced(bs[0]).value > |bs| then None
    else
      var n := Announced(bs[0]).value;
      var c := FromUtf8(bs[..n]);
      if c.None? then None else Some((c.value, n))
  }

  /** The character the last bytes spell, trying n of them first. */
  function LastRune(bs: seq<int>, n: nat): (r: Option<(char, nat)>)
    requires 0 < n
    ensures r.Some? ==> 0 < r.value.1 <= |bs|
    decreases 5 - n
  {
    if n > 4 || n > |bs| then None
    else if FromUtf8(bs[|bs| - n..]).Some? then Some((FromUtf8(bs[|bs| - n..]).value, n))
    else LastRune(bs, n + 1)
  }

  function TrimLeftBytes(bs: seq<int>): seq<int> {
    var r := FirstRune(bs);
    if r.Some? && IsSpace(r.value.0) then TrimLeftBytes(bs[r.value.1..]) else bs
  }

  function TrimRightBytes(bs: seq<int>): seq<int> {
    var r := LastRune(bs, 1);
    if r.Some? && IsSpace(r.value.0) then TrimRightBytes(bs[..|bs| - r.value.1]) else bs
  }

  function TrimBytes(bs: seq<int>): seq<int> {
    TrimRightBytes(TrimLeftBytes(bs))
  }

  lemma FirstRuneIs(c: char, rest: seq<int>)
    ensures FirstRune(Utf8(c) + rest) == Some((c, |Utf8(c)|))
  {
    Utf8RoundTrip(c);
    assert (Utf8(c) + rest)[..|Utf8(c)|] == Utf8(c);
  }

  predicate IsContinuation(b: int) {
    0x80 <= b < 0xC0
  }

  /** Only the first byte of a character is no continuation byte. */
  lemma OneLeads(c: char)
    ensures !IsContinuation(Utf8(c)[0]) && forall i :: 0 < i < |Utf8(c)| ==> IsContinuation(Utf8(c)[i])
  {
  }

  lemma StrayIsNoRune(bs: seq<int>)
    requires bs != [] && IsContinuation(bs[0])
    ensures FromUtf8(bs).None?
  {
    if FromUtf8(bs).Some? {
      OneLeads(FromUtf8(bs).value);
    }
  }

  lemma {:induction false} LastRuneIs(rest: seq<int>, c: char, n: nat)
    requires 0 < n <= |Utf8(c)|
    ensures LastRune(rest + Utf8(c), n) == Some((c, |Utf8(c)|))
    decreases |Utf8(c)| - n
  {
    var bs, u := rest + Utf8(c), Utf8(c);
    assert bs[|bs| - n..] == u[|u| - n..];
    if n == |u| {
      Utf8RoundTrip(c);
    } else {
      OneLeads(c);
      StrayIsNoRune(u[|u| - n..]);
      LastRuneIs(rest, c, n + 1);
    }
  }

  // ---- Texts and their bytes ----

  lemma {:induction false} Utf8AllBoth(s: string, t: string)
    ensures Utf8All(s + t) == Utf8All(s) + Utf8All(t)
  {
    if s == [] {
      assert s + t == t;
    } else {
      assert (s + t)[1..] == s[1..] + t;
      Utf8AllBoth(s[1..], t);
    }
  }

  lemma Utf8AllOne(c: char)
    ensures Utf8All([c]) == Utf8(c)
  {
  }

  lemma {:induction false} TrimLeftUtf8(s: string)
    ensures TrimLeftBytes(Utf8All(s)) == Utf8All(TrimLeft(s))
  {
    if s != [] {
      FirstRuneIs(s[0], Utf8All(s[1..]));
      if IsSpace(s[0]) {
        TrimLeftUtf8(s[1..]);
        assert Utf8All(s)[|Utf8(s[0])|..] == Utf8All(s[1..]);
      }
    }
  }

  lemma {:induction false} TrimRightUtf8(s: string)
    ensures TrimRightBytes(Utf8All(s)) == Utf8All(TrimRight(s))
  {
    if s != [] {
      var front, c := s[..|s| - 1], s[|s| - 1];
      assert s == front + [c];
      Utf8AllBoth(front, [c]);
      Utf8AllOne(c);
      LastRuneIs(Utf8All(front), c, 1);
      if IsSpace(c) {
        TrimRightUtf8(front);
        assert Utf8All(s)[..|Utf8All(s)| - |Utf8(c)|] == Utf8All(front);
      }
    }
  }

  /** Trimming bytes that are a text trims the text. */
  lemma TrimUtf8(s: string)
    ensures TrimBytes(Utf8All(s)) == Utf8All(TrimSpace(s))
  {
    TrimLeftUtf8(s);
    TrimRightUtf8(TrimLeft(s));
  }

  lemma {:induction false} Utf8AllInjective(s: string, t: string)
    requires Utf8All(s) == Utf8All(t)
    ensures s == t
  {
    if s != [] && t != [] {
      SameStart(s[0], Utf8All(s[1..]), t[0], Utf8All(t[1..]));
      Utf8AllInjective(s[1..], t[1..]);
      assert s == [s[0]] + s[1..] && t == [t[0]] + t[1..];
    }
  }

  lemma SameStart(c: char, rest: seq<int>, d: char, more: seq<int>)
    requires Utf8(c) + rest == Utf8(d) + more
    ensures c == d && rest == more
  {
    FirstRuneIs(c, rest);
    FirstRuneIs(d, more);
    assert rest == (Utf8(c) + rest)[|Utf8(c)|..] && more == (Utf8(d) + more)[|Utf8(d)|..];
  }

  function Utf8Each(parts: seq<string>): seq<seq<int>> {
    if parts == [] then [] else Utf8Each(parts[..|parts| - 1]) + [Utf8All(parts[|parts| - 1])]
  }

  lemma {:induction false} Utf8Join(parts: seq<string>)
    ensures |Utf8Each(parts)| == |parts|
    ensures Join(Utf8Each(parts), Utf8('/')) == Utf8All(Join(parts, "/"))
  {
    if parts != [] {
      var front, last := parts[..|parts| - 1], parts[|parts| - 1];
      Utf8Join(front);
      assert Utf8Each(parts)[..|parts| - 1] == Utf8Each(front);
      if front != [] {
        Utf8AllBoth(Join(front, "/") + "/", last);
        Utf8AllBoth(Join(front, "/"), "/");
        Utf8AllOne('/');
      }
    }
  }

  // ---- Unescaping ----

  /** The bytes a segment stands for, or nothing if an escape is malformed. */
  function Unescape(s: string): Option<seq<int>> {
    if s == [] then Some([])
    else if s[0] == '%' then
      if Octet(s).None? || Unescape(s[3..]).None? then None else Some([Octet(s).value] + Unescape(s[3..]).value)
    else
      if Unescape(s[1..]).None? then None else Some(Utf8(s[0]) + Unescape(s[1..]).value)
  }

  /** Octets read off the front are the first bytes. */
  lemma {:induction false} UnescapeOctets(s: string, n: nat)
    requires Octets(s, n).Some?
    ensures Unescape(s) == if Unescape(s[3 * n..]).None? then None
      else Some(Octets(s, n).value + Unescape(s[3 * n..]).value)
  {
    if n == 0 {
      assert s[0..] == s;
      if Unescape(s).Some? {
        assert [] + Unescape(s).value == Unescape(s).value;
      }
    } else {
      UnescapeOctets(s[3..], n - 1);
      assert s[3..][3 * (n - 1)..] == s[3 * n..];
      if Unescape(s[3 * n..]).Some? {
        var first, rest, more := Octet(s).value, Octets(s[3..], n - 1).value, Unescape(s[3 * n..]).value;
        assert [first] + (rest + more) == [first] + rest + more;
      }
    }
  }

  /** The character an escaped text begins with, and the octets that spell it. */
  lemma FirstUnescapes(s: string)
    requires s != [] && DecodeFirst(s).Some? && Unescape(s[DecodeFirst(s).value.1..]).Some?
    ensures var (c, n) := DecodeFirst(s).value; Unescape(s) == Some(Utf8(c) + Unescape(s[n..]).value)
  {
    var (c, n) := DecodeFirst(s).value;
    if s[0] == '%' {
      var m := Announced(Octet(s).value).value;
      assert n == 3 * m && Octets(s, m) == Some(Utf8(c));
      UnescapeOctets(s, m);
    }
  }

  /** What decodes to a text unescapes to its bytes. */
  lemma {:induction false} DecodedUnescapes(s: string)
    requires Decode(s).Some?
    ensures Unescape(s) == Some(Utf8All(Decode(s).value))
    decreases |s|
  {
    if s != [] {
      var (c, n) := DecodeFirst(s).value;
      var t := Decode(s[n..]).value;
      DecodedUnescapes(s[n..]);
      FirstUnescapes(s);
      assert ([c] + t)[1..] == t;
    }
  }

  lemma StartsEscaped(s: string)
    requires Unescape(s).Some? && Unescape(s).value != [] && IsContinuation(Unescape(s).value[0])
    ensures s != [] && s[0] == '%'
  {
    if s[0] != '%' {
      OneLeads(s[0]);
    }
  }

  /** Continuation bytes can only come from escapes. */
  lemma {:induction false} ContinuationsAreEscaped(s: string, us: seq<int>, more: seq<int>)
    requires Unescape(s) == Some(us + more) && forall b :: b in us ==> IsContinuation(b)
    ensures Octets(s, |us|) == Some(us) && Unescape(s[3 * |us|..]) == Some(more)
    decreases |us|
  {
    if us == [] {
      assert us + more == more && s[0..] == s;
    } else {
      assert (us + more)[0] == us[0] && us[0] in us;
      StartsEscaped(s);
      assert (us + more)[1..] == us[1..] + more;
      ContinuationsAreEscaped(s[3..], us[1..], more);
      assert s[3..][3 * |us[1..]|..] == s[3 * |us|..];
      assert [us[0]] + us[1..] == us;
    }
  }

  /** The first character of bytes that are a text. */
  lemma FirstDecodes(s: string, c: char, more: seq<int>)
    requires Unescape(s) == Some(Utf8(c) + more)
    ensures s != [] && DecodeFirst(s).Some? && DecodeFirst(s).value.0 == c
    ensures Unescape(s[DecodeFirst(s).value.1..]) == Some(more)
  {
    var u := Utf8(c);
    Utf8RoundTrip(c);
    OneLeads(c);
    assert (u + more)[0] == u[0];
    if s[0] == '%' {
      assert Unescape(s[3..]).value == (u + more)[1..] == u[1..] + more;
      ContinuationsAreEscaped(s[3..], u[1..], more);
      assert s[3..][3 * |u[1..]|..] == s[3 * |u|..];
      assert [u[0]] + u[1..] == u;
    } else {
      SameStart(s[0], Unescape(s[1..]).value, c, more);
    }
  }

  lemma {:induction false} TextDecodes(s: string, t: string)
    requires Unescape(s) == Some(Utf8All(t))
    ensures Decode(s) == Some(t)
    decreases |t|
  {
    if t != [] {
      FirstDecodes(s, t[0], Utf8All(t[1..]));
      TextDecodes(s[DecodeFirst(s).value.1..], t[1..]);
      assert [t[0]] + t[1..] == t;
    }
  }

  /** The browser's decoding gives a text exactly when the server's unescaping gives the bytes of that text: they
      differ only on escapes that are no UTF-8, which the server keeps. */
  lemma DecodesIff(s: string, t: string)
    ensures Decode(s) == Some(t) <==> Unescape(s) == Some(Utf8All(t))
  {
    if Decode(s) == Some(t) {
      DecodedUnescapes(s);
    } else if Unescape(s) == Some(Utf8All(t)) {
      TextDecodes(s, t);
    }
  }
}
