/** The page served for a share link. The server has unescaped the request path before it splits it and
    unescapes each segment again. */
module PagePreview {

  import opened GoText
  import opened Options
  import opened PercentCoding
  import opened ShareLinks
  import opened SharePreview
  import opened Slugs
  import opened Text

  /** The query the page is built for at a request path. */
  function PageQuery(path: string, param: string): Option<Query> {
    var seen := Decode(path);
    if seen.None? then None else ServerQuery(seen.value, param)
  }

  // ---- The path after the first unescaping ----

  lemma {:induction false} OctetsStay(a: string, b: string, n: nat)
    requires Octets(a, n).Some?
    ensures Octets(a + b, n) == Octets(a, n)
  {
    if n > 0 {
      assert (a + b)[3..] == a[3..] + b;
      OctetsStay(a[3..], b, n - 1);
    }
  }

  lemma DecodeFirstStays(a: string, b: string)
    requires a != [] && DecodeFirst(a).Some?
    ensures DecodeFirst(a + b) == DecodeFirst(a)
  {
    if a[0] == '%' {
      OctetsStay(a, b, Announced(Octet(a).value).value);
    }
  }

  predicate Spells(s: string, t: string) {
    Decode(s) == Some(t)
  }

  lemma DropOfBoth(a: string, b: string, n: nat)
    requires n <= |a|
    ensures (a + b)[n..] == a[n..] + b
  {
  }

  lemma SpellsNext(s: string, rest: string, t: string)
    requires s != [] && DecodeFirst(s).Some? && s[DecodeFirst(s).value.1..] == rest && Spells(rest, t)
    ensures Spells(s, [DecodeFirst(s).value.0] + t)
  {
  }

  lemma SpellsFirst(s: string, t: string) returns (n: nat, rest: string, u: string)
    requires s != [] && Spells(s, t)
    ensures n <= |s| && rest == s[n..] && |rest| < |s| && Spells(rest, u)
    ensures DecodeFirst(s).Some? && DecodeFirst(s).value.1 == n && t == [DecodeFirst(s).value.0] + u
  {
    n := DecodeFirst(s).value.1;
    rest, u := s[n..], Decode(s[n..]).value;
  }

  lemma ConsBoth(c: char, v: string, u: string)
    ensures [c] + (v + u) == ([c] + v) + u
  {
  }

  lemma {:induction false} SpellsBoth(a: string, t: string, b: string, u: string)
    requires Spells(a, t) && Spells(b, u)
    ensures Spells(a + b, t + u)
    decreases |a|
  {
    if a == [] {
      assert a + b == b && t + u == u;
    } else {
      var n, rest, v := SpellsFirst(a, t);
      SpellsBoth(rest, v, b, u);
      DecodeFirstStays(a, b);
      DropOfBoth(a, b, n);
      SpellsNext(a + b, rest + b, v + u);
      ConsBoth(DecodeFirst(a).value.0, v, u);
    }
  }

  lemma SpellsThree(a: string, t: string, b: string, u: string, c: string, v: string)
    requires Spells(a, t) && Spells(b, u) && Spells(c, v)
    ensures Spells(a + b + c, t + u + v)
  {
    SpellsBoth(a, t, b, u);
    SpellsBoth(a + b, t + u, c, v);
  }

  lemma SpellsItself(s: string)
    requires Unescaped(s)
    ensures Spells(s, s)
  {
    EncodeUnreserved(s);
    DecodeEncode(s);
  }

  lemma SlashSpellsItself()
    ensures Spells("/", "/")
  {
    NoPercentDecodes("/");
  }

  lemma {:induction false} SpellsJoin(parts: seq<string>)
    ensures |EncodeAll(parts)| == |parts| && Spells(Join(EncodeAll(parts), "/"), Join(parts, "/"))
  {
    if parts != [] {
      var front, last := parts[..|parts| - 1], parts[|parts| - 1];
      SpellsJoin(front);
      DecodeEncode(last);
      SlashSpellsItself();
      SpellsThree(Join(EncodeAll(front), "/"), Join(front, "/"), "/", "/", Encode(last), last);
      assert EncodeAll(parts)[..|parts| - 1] == EncodeAll(front);
    }
  }

  function BarePrefix(node: Option<string>): string {
    if node.Some? then "/" + node.value else ""
  }

  /** A built path without its escapes. */
  function Bare(node: Option<string>, slug: string, target: string): string {
    BarePrefix(node) + "/" + slug + "/" + target
  }

  lemma PrefixSpells(node: Option<string>)
    ensures Spells(Prefix(node), BarePrefix(NodeOf(node)))
  {
    if NodeOf(node).Some? {
      SlashSpellsItself();
      DecodeEncode(node.value);
      SpellsBoth("/", "/", Encode(node.value), node.value);
    }
  }

  lemma BuiltSpells(node: Option<string>, slug: string, parts: seq<string>)
    requires Unescaped(slug)
    ensures Spells(Prefix(node) + "/" + slug + "/" + Join(EncodeAll(parts), "/"),
      Bare(NodeOf(node), slug, Join(parts, "/")))
  {
    var prefix, bare := Prefix(node), BarePrefix(NodeOf(node));
    PrefixSpells(node);
    SlashSpellsItself();
    SpellsItself(slug);
    SpellsJoin(parts);
    SpellsThree(prefix, bare, "/", "/", slug, slug);
    SpellsThree(prefix + "/" + slug, bare + "/" + slug, "/", "/", Join(EncodeAll(parts), "/"), Join(parts, "/"));
  }

  // ---- The segments of that path ----

  lemma SegmentsOfBare(node: Option<string>, slug: string, target: string)
    requires IsToken(slug, IsSlash) && (node.Some? ==> IsToken(node.value, IsSlash))
    ensures Segments(Bare(node, slug, target)) ==
      (if node.Some? then [node.value] else []) + ([slug] + Segments(target))
  {
    SegmentThen(slug, target);
    if node.Some? {
      SegmentThen(node.value, slug + "/" + target);
      LeadingSlash(slug + "/" + target);
      assert "/" + (slug + "/" + target) == "/" + slug + "/" + target;
      assert Bare(node, slug, target) == "/" + node.value + "/" + (slug + "/" + target);
    } else {
      assert Bare(node, slug, target) == "/" + slug + "/" + target;
    }
  }

  lemma SegmentsOfNormalised(target: string)
    ensures Segments(Normalised(target)) == Segments(target)
  {
    FieldsAreTokens(target, [], IsSlash);
    TokensOfJoin(Segments(target), '/', IsSlash);
  }

  // ---- The second unescaping ----

  lemma BytesBoth(s: string, t: string)
    ensures Bytes(s + t) == Bytes(s) + Bytes(t)
  {
    Utf8AllBoth(s, t);
    assert |Utf8All(s + t)| == Bytes(s + t) && |Utf8All(s)| == Bytes(s) && |Utf8All(t)| == Bytes(t);
  }

  lemma {:induction false} NoPercentDecodes(s: string)
    requires '%' !in s
    ensures Decode(s) == Some(s)
  {
    if s != [] {
      NoPercentDecodes(s[1..]);
      assert [s[0]] + s[1..] == s;
    }
  }

  /** Unescaping makes a text with escapes shorter. */
  lemma {:induction false} UnescapeShrinks(s: string)
    requires Unescape(s).Some?
    ensures Shrunk(Unescape(s).value, s)
    decreases |s|
  {
    if s != [] {
      if s[0] == '%' {
        UnescapeShrinks(s[3..]);
        BytesBoth(s[..3], s[3..]);
        assert s == s[..3] + s[3..] && Bytes(s[..3]) >= 1 + Bytes(s[..3][1..]) && Bytes(s[..3][1..]) >= 1;
      } else {
        UnescapeShrinks(s[1..]);
        assert s == [s[0]] + s[1..];
      }
    }
  }

  lemma BytesOfJoin(front: seq<string>, last: string)
    ensures Bytes(Join(front + [last], "/")) == (if front == [] then 0 else Bytes(Join(front, "/")) + 1) + Bytes(last)
    ensures '%' in Join(front + [last], "/") <==> '%' in Join(front, "/") || '%' in last
  {
    assert (front + [last])[..|front|] == front;
    if front != [] {
      BytesBoth(Join(front, "/") + "/", last);
      BytesBoth(Join(front, "/"), "/");
    }
  }

  lemma LengthOfJoin(front: seq<seq<int>>, last: seq<int>)
    ensures |Join(front + [last], SLASH)| == (if front == [] then 0 else |Join(front, SLASH)| + 1) + |last|
  {
    assert (front + [last])[..|front|] == front;
  }

  /** No more bytes than the text has, and fewer if it has a percent sign. */
  predicate Shrunk(bs: seq<int>, s: string) {
    |bs| <= Bytes(s) && ('%' in s ==> |bs| < Bytes(s))
  }

  lemma ShrunkNext(fronts: seq<seq<int>>, last: seq<int>, parts: seq<string>, part: string)
    requires |fronts| == |parts| && Shrunk(Join(fronts, SLASH), Join(parts, "/")) && Shrunk(last, part)
    ensures Shrunk(Join(fronts + [last], SLASH), Join(parts + [part], "/"))
  {
    LengthOfJoin(fronts, last);
    BytesOfJoin(parts, part);
  }

  lemma {:induction false} JoinShrinks(parts: seq<string>)
    requires UnescapeAll(parts).Some?
    ensures |UnescapeAll(parts).value| == |parts| && Shrunk(Join(UnescapeAll(parts).value, SLASH), Join(parts, "/"))
  {
    if parts != [] {
      var front, last := parts[..|parts| - 1], parts[|parts| - 1];
      JoinShrinks(front);
      UnescapeShrinks(last);
      ShrunkNext(UnescapeAll(front).value, Unescape(last).value, front, last);
      assert front + [last] == parts;
    }
  }

  lemma {:induction false} TrimLeftShrinks(bs: seq<int>)
    ensures |TrimLeftBytes(bs)| <= |bs|
  {
    var r := FirstRune(bs);
    if r.Some? && IsSpace(r.value.0) {
      TrimLeftShrinks(bs[r.value.1..]);
    }
  }

  lemma {:induction false} TrimRightShrinks(bs: seq<int>)
    ensures |TrimRightBytes(bs)| <= |bs|
  {
    var r := LastRune(bs, 1);
    if r.Some? && IsSpace(r.value.0) {
      TrimRightShrinks(bs[..|bs| - r.value.1]);
    }
  }

  lemma {:induction false} NoPercentDecodeAll(parts: seq<string>)
    requires '%' !in Join(parts, "/")
    ensures DecodeAll(parts) == Some(parts)
  {
    if parts != [] {
      var front, last := parts[..|parts| - 1], parts[|parts| - 1];
      assert front + [last] == parts;
      BytesOfJoin(front, last);
      NoPercentDecodeAll(front);
      NoPercentDecodes(last);
    }
  }

  /** A target read twice stays what it is exactly when it has no percent sign. */
  lemma ReadTwiceIff(target: string)
    requires Carries(target)
    requires TrimSpace(Normalised(target)) == Normalised(target) && Bytes(Normalised(target)) <= MAX_TARGET_LENGTH
    ensures ServerTarget(Segments(target)) == Some(Utf8All(Normalised(target))) <==> '%' !in Normalised(target)
  {
    var parts := Segments(target);
    if '%' !in Normalised(target) {
      NoPercentDecodeAll(parts);
      ServerReadsText(parts);
    } else if ServerTarget(parts).Some? {
      JoinShrinks(parts);
      TrimLeftShrinks(Join(UnescapeAll(parts).value, SLASH));
      TrimRightShrinks(TrimLeftBytes(Join(UnescapeAll(parts).value, SLASH)));
    }
  }

  // ---- The page ----

  /** A node's token needs no escapes and is one segment. */
  predicate IsPlainToken(token: string) {
    IsToken(token, IsSlash) && '%' !in token && !IsCommandSlug(token)
  }

  lemma TokensArePlain(nodes: seq<Node>, nodeId: string, fold: string -> string)
    requires HasId(nodes, nodeId)
    ensures var token := ShareSlugForNode(nodes, nodeId, fold); token.Some? ==> IsPlainToken(token.value)
  {
    var token := ShareSlugForNode(nodes, nodeId, fold);
    TokenIsNoCommand(nodes, nodeId, fold);
    if token.Some? {
      if token.value == nodeId {
        var node: Node :| node in nodes && Decimal(node.id) == nodeId;
        assert AllDigits(nodeId);
      } else {
        var name := fold(Find(nodes, WithId(nodeId)).value.name);
        SlugifyIsSlug(name);
        SlugIsStable(name);
      }
    }
  }

  lemma ServerReadsBare(node: Option<string>, command: string, rest: seq<string>)
    requires SlugOf(command).Some? && rest != [] && (node.Some? ==> IsPlainToken(node.value))
    ensures ServerSegments((if node.Some? then [node.value] else []) + ([SlugOf(command).value] + rest)) ==
      Some((command, NodeBytes(node), rest))
  {
    var slug := SlugOf(command).value;
    KnownSlug(command);
    if node.Some? {
      var segments := [node.value] + ([slug] + rest);
      assert segments[0] == node.value && segments[1] == slug && segments[2..] == rest;
      SameCommands(node.value);
      NoPercentDecodes(node.value);
      DecodesIff(node.value, node.value);
    } else {
      assert [] + ([slug] + rest) == [slug] + rest && ([slug] + rest)[1..] == rest;
    }
  }

  lemma BuiltIs(command: string, target: string, node: Option<string>, native: string -> string)
    requires SlugOf(command).Some? && Segments(target) != []
    ensures BuildQueryPath(command, target, node, native) ==
      Prefix(node) + "/" + SlugOf(command).value + "/" + Join(EncodeAll(Segments(target)), "/")
  {
    EncodedTarget(target);
    KnownIsNotInherited(command, native);
  }

  lemma SlugNeedsNoEscape(command: string)
    requires SlugOf(command).Some?
    ensures Unescaped(SlugOf(command).value)
  {
  }

  lemma LinkSpells(command: string, target: string, node: Option<string>, native: string -> string)
    requires SlugOf(command).Some? && Segments(target) != []
    ensures Spells(BuildQueryPath(command, target, node, native),
                   Bare(NodeOf(node), SlugOf(command).value, Normalised(target)))
  {
    BuiltIs(command, target, node, native);
    SlugNeedsNoEscape(command);
    BuiltSpells(node, SlugOf(command).value, Segments(target));
  }

  lemma SegmentsSeen(node: Option<string>, command: string, target: string)
    requires SlugOf(command).Some? && (node.Some? ==> IsPlainToken(node.value))
    ensures Segments(Bare(node, SlugOf(command).value, Normalised(target))) ==
      (if node.Some? then [node.value] else []) + ([SlugOf(command).value] + Segments(target))
  {
    SegmentsOfBare(node, SlugOf(command).value, Normalised(target));
    SegmentsOfNormalised(target);
  }

  lemma BareIsServed(node: Option<string>, command: string, target: string)
    requires SlugOf(command).Some? && Segments(target) != [] && (node.Some? ==> IsPlainToken(node.value))
    ensures ServerQuery(Bare(node, SlugOf(command).value, Normalised(target)), "") ==
      Served(command, NodeBytes(node), Segments(target), "")
  {
    SegmentsSeen(node, command, target);
    ServerReadsBare(node, command, Segments(target));
  }

  /** The page of a link built for a node shows the query that was shared exactly when its target has no percent
      sign: any other target is unescaped once too often. */
  lemma PageShowsIff(nodes: seq<Node>, nodeId: string, command: string, target: string, fold: string -> string,
                     native: string -> string)
    requires HasId(nodes, nodeId) && SlugOf(command).Some? && Carries(target)
    requires TrimSpace(Normalised(target)) == Normalised(target) && Bytes(Normalised(target)) <= MAX_TARGET_LENGTH
    ensures var token := ShareSlugForNode(nodes, nodeId, fold);
      PageQuery(BuildQueryPath(command, target, token, native), "")
        == Some(Query(command, Utf8All(Normalised(target)), NodeBytes(token)))
      <==> '%' !in Normalised(target)
  {
    var token := ShareSlugForNode(nodes, nodeId, fold);
    NormalisedEmpty(target);
    TokensArePlain(nodes, nodeId, fold);
    assert NodeOf(token) == token;
    LinkSpells(command, target, token, native);
    BareIsServed(token, command, target);
    ReadTwiceIff(target);
  }
}
