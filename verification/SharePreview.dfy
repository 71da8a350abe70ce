/** The server's reading of share links, written to mirror the frontend's: it must see the query and the node
    that the browser will show. */
module SharePreview {

  import opened Options
  import opened Text
  import opened GoText
  import opened JsText
  import opened PercentCoding
  import opened ShareLinks
  import opened Slugs

  /** The target and the node are Go strings. */
  datatype Query = Query(command: string, target: seq<int>, node: seq<int>)

  /** What the two sides trim: a space and every other blank of one is a blank of the other, but for U+0085, which
      only Go trims, and U+FEFF, which only JavaScript trims. */
  lemma BlanksDiffer(c: char)
    ensures IsSpace(' ') && IsBlank(' ')
    ensures IsSpace(c) && !IsBlank(c) <==> c as int == 0x85
    ensures IsBlank(c) && !IsSpace(c) <==> c as int == 0xFEFF
  {
    assert '\U{0085}' as int == 0x85 && '\U{FEFF}' as int == 0xFEFF;
  }

  /** The two measures of a target: units at most double where bytes are four. */
  lemma {:induction false} UnitsAndBytes(s: string)
    ensures Units(s) <= Bytes(s) <= 3 * Units(s)
  {
    if s != [] {
      UnitsAndBytes(s[1..]);
    }
  }

  function ServerCommand(slug: string): Option<string> {
    if slug == "ping" then Some("ping")
    else if slug == "traceroute" then Some("traceroute")
    else if slug == "bgp" then Some("bgp_route")
    else None
  }

  /** The command, the node and the segments of the target. */
  function ServerSegments(segments: seq<string>): Option<(string, seq<int>, seq<string>)> {
    if |segments| < 2 then None
    else if ServerCommand(segments[0]).Some? then Some((ServerCommand(segments[0]).value, [], segments[1..]))
    else if ServerCommand(segments[1]).Some? && |segments| > 2 && Unescape(segments[0]).Some? then
      Some((ServerCommand(segments[1]).value, Unescape(segments[0]).value, segments[2..]))
    else None
  }

  function UnescapeAll(parts: seq<string>): Option<seq<seq<int>>> {
    if parts == [] then Some([])
    else
      var front, last := UnescapeAll(parts[..|parts| - 1]), Unescape(parts[|parts| - 1]);
      if front.None? || last.None? then None else Some(front.value + [last.value])
  }

  const SLASH := Utf8('/')

  predicate ServerFits(target: seq<int>) {
    target != [] && |target| <= MAX_TARGET_LENGTH
  }

  predicate ServerReadable(rest: seq<string>) {
    UnescapeAll(rest).Some? && ServerFits(TrimBytes(Join(UnescapeAll(rest).value, SLASH)))
  }

  /** The target the segments spell, if they can be unescaped and it fits. */
  function ServerTarget(rest: seq<string>): Option<seq<int>> {
    if ServerReadable(rest) then Some(TrimBytes(Join(UnescapeAll(rest).value, SLASH))) else None
  }

  function Served(command: string, node: seq<int>, rest: seq<string>, param: string): Option<Query> {
    var target := ServerTarget(rest);
    if target.None? then None
    else Some(Query(command, target.value, if node == [] then Utf8All(TrimSpace(param)) else node))
  }

  /** The query the server sees at a path; `param` is the `node` parameter of the query string. */
  function ServerQuery(path: string, param: string): Option<Query> {
    match ServerSegments(Segments(path))
    case None => None
    case Some((command, node, rest)) => Served(command, node, rest, param)
  }

  // ---- Splitting and decoding in loops ----

  function NonEmpty(parts: seq<string>): seq<string> {
    if parts == [] then []
    else NonEmpty(parts[..|parts| - 1]) + if parts[|parts| - 1] == [] then [] else [parts[|parts| - 1]]
  }

  lemma {:induction false} NonEmptyBoth(a: seq<string>, b: seq<string>)
    ensures NonEmpty(a + b) == NonEmpty(a) + NonEmpty(b)
  {
    if b == [] {
      assert a + b == a;
    } else {
      assert (a + b)[..|a + b| - 1] == a + b[..|b| - 1];
      NonEmptyBoth(a, b[..|b| - 1]);
    }
  }

  lemma NonEmptyOne(run: string)
    ensures NonEmpty([run]) == if run == [] then [] else [run]
  {
    assert [run][..0] == [];
  }

  /** Splitting at every slash and dropping the empty pieces leaves the segments. */
  lemma {:induction false} SplitIsSegments(s: string, run: string)
    ensures NonEmpty(Split(s, run, IsSlash)) == FieldsFrom(s, run, IsSlash)
    decreases s
  {
    NonEmptyOne(run);
    if s != [] {
      SplitIsSegments(s[1..], if IsSlash(s[0]) then [] else run + [s[0]]);
      NonEmptyBoth([run], Split(s[1..], [], IsSlash));
    }
  }

  method PathSegments(path: string) returns (segments: seq<string>)
    ensures segments == Segments(path)
  {
    var parts := Split(path, [], IsSlash);
    segments := [];
    for i := 0 to |parts|
      invariant segments == NonEmpty(parts[..i])
    {
      assert parts[..i + 1][..i] == parts[..i];
      if parts[i] != "" {
        segments := segments + [parts[i]];
      }
    }
    assert parts[..|parts|] == parts;
    SplitIsSegments(path, []);
  }

  lemma {:induction false} UnescapeAllStops(parts: seq<string>, i: nat)
    requires i < |parts| && Unescape(parts[i]).None?
    ensures UnescapeAll(parts).None?
  {
    if i < |parts| - 1 {
      UnescapeAllStops(parts[..|parts| - 1], i);
    }
  }

  method UnescapeSegments(rest: seq<string>) returns (parts: Option<seq<seq<int>>>)
    ensures parts == UnescapeAll(rest)
  {
    var done: seq<seq<int>> := [];
    for i := 0 to |rest|
      invariant UnescapeAll(rest[..i]) == Some(done)
    {
      assert rest[..i + 1][..i] == rest[..i];
      var decoded := Unescape(rest[i]);
      if decoded.None? {
        UnescapeAllStops(rest, i);
        return None;
      }
      done := done + [decoded.value];
    }
    assert rest[..|rest|] == rest;
    return Some(done);
  }

  method ParseQueryPath(path: string, param: string) returns (q: Option<Query>)
    ensures q == ServerQuery(path, param)
  {
    var segments := PathSegments(path);
    if |segments| < 2 {
      return None;
    }
    var command, node, rest := ServerCommand(segments[0]), [], segments[1..];
    if command.None? {
      command := ServerCommand(segments[1]);
      if command.None? || |segments| <= 2 {
        return None;
      }
      var decoded := Unescape(segments[0]);
      if decoded.None? {
        return None;
      }
      node, rest := decoded.value, segments[2..];
    }
    var parts := UnescapeSegments(rest);
    if parts.None? {
      return None;
    }
    var target := TrimBytes(Join(parts.value, SLASH));
    if target == [] || |target| > MAX_TARGET_LENGTH {
      return None;
    }
    if node == [] {
      node := Utf8All(TrimSpace(param));
    }
    return Some(Query(command.value, target, node));
  }

  // ---- The mirror ----

  /** Both sides read the same query, or both read none. */
  predicate Agree(front: Option<SharedQuery>, server: Option<Query>) {
    if front.None? || server.None? then front.None? && server.None?
    else
      && front.value.command == Named(server.value.command)
      && server.value.target == Utf8All(front.value.target)
      && server.value.node == NodeBytes(front.value.node)
  }

  function NodeBytes(node: Option<string>): seq<int> {
    if node.None? then [] else Utf8All(node.value)
  }

  lemma {:induction false} SameParts(rest: seq<string>)
    requires DecodeAll(rest).Some?
    ensures UnescapeAll(rest) == Some(Utf8Each(DecodeAll(rest).value))
  {
    if rest != [] {
      var front, last := rest[..|rest| - 1], rest[|rest| - 1];
      SameParts(front);
      DecodesIff(last, Decode(last).value);
      var texts := DecodeAll(rest).value;
      assert texts[..|texts| - 1] == DecodeAll(front).value;
    }
  }

  /** What the server makes of a target that decodes to a text. */
  lemma ServerReadsText(rest: seq<string>)
    requires DecodeAll(rest).Some?
    ensures var target := TrimSpace(Join(DecodeAll(rest).value, "/"));
      ServerTarget(rest) == if target != "" && Bytes(target) <= MAX_TARGET_LENGTH then Some(Utf8All(target)) else None
  {
    var texts := DecodeAll(rest).value;
    SameParts(rest);
    Utf8Join(texts);
    TrimUtf8(Join(texts, "/"));
  }

  /** The target reads alike on both sides: each fits its own measure, UTF-16 units there and bytes here, or neither
      does, and nothing stands at its ends that only one of them trims. What is no text must not fit here either. */
  predicate SameTarget(rest: seq<string>) {
    var texts := DecodeAll(rest);
    if texts.None? then !ServerReadable(rest)
    else
      var front, server := Trim(Join(texts.value, "/")), TrimSpace(Join(texts.value, "/"));
      if Fits(front) then front == server && Bytes(front) <= MAX_TARGET_LENGTH
      else server == "" || Bytes(server) > MAX_TARGET_LENGTH
  }

  lemma SameTargetIff(rest: seq<string>)
    ensures SameTarget(rest) <==>
      if Readable(rest) then ServerTarget(rest) == Some(Utf8All(ReadTarget(rest).value)) else !ServerReadable(rest)
  {
    if DecodeAll(rest).Some? {
      ServerReadsText(rest);
      var front, server := Trim(Join(DecodeAll(rest).value, "/")), TrimSpace(Join(DecodeAll(rest).value, "/"));
      if Utf8All(front) == Utf8All(server) {
        Utf8AllInjective(front, server);
      }
    }
  }

  lemma SameParamIff(param: string)
    ensures Utf8All(TrimSpace(param)) == NodeBytes(OrNone(Trim(param))) <==> TrimSpace(param) == Trim(param)
  {
    assert NodeBytes(OrNone(Trim(param))) == Utf8All(Trim(param));
    if Utf8All(TrimSpace(param)) == Utf8All(Trim(param)) {
      Utf8AllInjective(TrimSpace(param), Trim(param));
    }
  }

  /** Agreement on a path that names no node. */
  lemma PlainAgreesIff(command: string, rest: seq<string>, param: string)
    ensures Agree(Shared(Named(command), None, rest, param), Served(command, [], rest, param)) <==>
      SameTarget(rest) && (Readable(rest) ==> TrimSpace(param) == Trim(param))
  {
    SameTargetIff(rest);
    SameParamIff(param);
  }

  /** Agreement on a path that names a node the server can unescape. */
  lemma NodeAgreesIff(command: string, node: string, rest: seq<string>, param: string)
    requires node != "" && Unescape(node).Some?
    ensures var front := Shared(Named(command), Decode(node), rest, param);
      var server := Served(command, Unescape(node).value, rest, param);
      Agree(front, server) <==> SameTarget(rest) && (Readable(rest) ==> Decode(node).Some?)
  {
    SameTargetIff(rest);
    if Decode(node).Some? {
      DecodesIff(node, Decode(node).value);
    } else {
      NoTextNoNode(node, OrNone(Trim(param)));
    }
  }

  lemma NoTextNoNode(node: string, other: Option<string>)
    requires node != "" && Unescape(node).Some? && Decode(node).None?
    ensures Unescape(node).value != NodeBytes(other)
  {
    DecodesIff(node, if other.None? then "" else other.value);
  }

  /** Both sides agree on a path and a `node` parameter: no inherited member decides where a target can be read, the
      targets read alike, a node segment that either side needs is a text, and a node parameter that decides has
      nothing at its ends that only one side trims. */
  predicate Mirrored(path: string, param: string) {
    MirroredSegments(Segments(path), param)
  }

  predicate MirroredSegments(segments: seq<string>, param: string) {
    if segments == [] then true
    else if segments[0] in INHERITED then
      && !Readable(segments[1..])
      && (|segments| > 2 && ServerCommand(segments[1]).Some? ==> !ServerReadable(segments[2..]))
    else if IsCommandSlug(segments[0]) then
      SameTarget(segments[1..]) && (Readable(segments[1..]) ==> TrimSpace(param) == Trim(param))
    else if |segments| == 1 then true
    else if segments[1] in INHERITED then !Readable(segments[2..])
    else if IsCommandSlug(segments[1]) then
      if Unescape(segments[0]).None? then !Readable(segments[2..])
      else SameTarget(segments[2..]) && (Readable(segments[2..]) ==> Decode(segments[0]).Some?)
    else true
  }

  lemma NothingToRead()
    ensures !Readable([]) && !ServerReadable([])
  {
    assert DecodeAll([]) == Some([]) && Join<char>([], "/") == "";
    assert UnescapeAll([]) == Some([]) && Join<int>([], SLASH) == [];
    assert FirstRune([]) == None && LastRune([], 1) == None;
  }

  lemma WordUnescapes(word: string)
    requires IsWord(word)
    ensures Unescape(word).Some?
  {
    EncodeUnreserved(word);
    DecodeEncode(word);
    DecodesIff(word, word);
  }

  /** The known slugs are the commands of both tables. */
  lemma SameCommands(slug: string)
    ensures ServerCommand(slug).Some? <==> IsCommandSlug(slug) && slug !in INHERITED
    ensures ServerCommand(slug).Some? ==> CommandOf(slug) == Some(Named(ServerCommand(slug).value))
    ensures slug in INHERITED ==> CommandOf(slug) == Some(Inherited(slug))
  {
  }

  /** The server reads a path as the frontend does exactly under that condition, for every path and parameter. */
  lemma ServerMirrorsIff(path: string, param: string)
    ensures Agree(ParseQueryLocation(path, param), ServerQuery(path, param)) <==> Mirrored(path, param)
  {
    var segments := Segments(path);
    NothingToRead();
    FieldsAreTokens(path, [], IsSlash);
    if segments != [] {
      SameCommands(segments[0]);
      if segments[0] in INHERITED {
        InheritedAreWords(segments[0]);
        WordUnescapes(segments[0]);
      } else if IsCommandSlug(segments[0]) {
        PlainAgreesIff(ServerCommand(segments[0]).value, segments[1..], param);
      } else if |segments| > 1 && IsCommandSlug(segments[1]) {
        SameCommands(segments[1]);
        if segments[1] !in INHERITED && Unescape(segments[0]).Some? {
          NodeAgreesIff(ServerCommand(segments[1]).value, segments[0], segments[2..], param);
        }
      }
    }
  }

  // ---- Where it fails, and shared links ----

  lemma SegmentsOfTwo(a: string, b: string)
    requires IsToken(a, IsSlash) && IsToken(b, IsSlash)
    ensures Segments("/" + a + "/" + b) == [a, b]
  {
    SegmentThen(a, b);
    FieldsOfToken(b, [], IsSlash);
    assert [] + b == b;
  }

  lemma UnescapedReads(text: string)
    requires Unescaped(text) && Trim(text) == text && Fits(text)
    ensures ReadTarget([text]) == Some(text)
  {
    EncodeUnreserved(text);
    DecodeEncode(text);
    assert [text][..0] == [];
    assert DecodeAll([text]) == Some([] + [text]);
  }

  lemma {:induction false} PlainUnits(s: string)
    requires forall i :: 0 <= i < |s| ==> s[i] < '\U{FFFF}'
    ensures Units(s) == |s|
  {
    if s != [] {
      PlainUnits(s[1..]);
    }
  }

  lemma AddressIsTarget()
    ensures Unescaped("8.8.8.8") && Trim("8.8.8.8") == "8.8.8.8" && Fits("8.8.8.8") && IsToken("8.8.8.8", IsSlash)
  {
    PlainUnits("8.8.8.8");
  }

  lemma MembersAreSegments(member: string)
    requires member in INHERITED
    ensures IsToken(member, IsSlash)
  {
    InheritedAreWords(member);
    assert member != "";
  }

  /** A path that begins with an inherited member is a query to the frontend and none to the server. */
  lemma InheritedMisreads(member: string, target: string)
    requires member in INHERITED && IsToken(target, IsSlash) && Unescaped(target) && Trim(target) == target
    requires Fits(target)
    ensures var path := "/" + member + "/" + target;
      && ParseQueryLocation(path, "") == Some(SharedQuery(Inherited(member), target, None))
      && ServerQuery(path, "") == None && !Mirrored(path, "")
  {
    MembersAreSegments(member);
    SameCommands(member);
    SegmentsOfTwo(member, target);
    UnescapedReads(target);
    assert [member, target][1..] == [target];
  }

  /** One such path: /constructor/8.8.8.8. */
  lemma ConstructorIsMisread() returns (path: string)
    ensures path == "/" + "constructor" + "/" + "8.8.8.8"
    ensures ParseQueryLocation(path, "").Some? && ServerQuery(path, "") == None && !Mirrored(path, "")
  {
    var member, target := "constructor", "8.8.8.8";
    AddressIsTarget();
    InheritedMisreads(member, target);
    path := "/" + member + "/" + target;
  }

  lemma PlainMirrored(slug: string, rest: seq<string>)
    requires IsCommandSlug(slug) && slug !in INHERITED
    ensures MirroredSegments([slug] + rest, "") <==> SameTarget(rest)
  {
    assert ([slug] + rest)[1..] == rest;
  }

  lemma NodeMirrored(node: string, slug: string, rest: seq<string>)
    requires !IsCommandSlug(node) && Decode(node).Some? && IsCommandSlug(slug) && slug !in INHERITED
    ensures MirroredSegments([node] + ([slug] + rest), "") <==> SameTarget(rest)
  {
    var segments := [node] + ([slug] + rest);
    assert segments[0] == node && segments[1] == slug && segments[2..] == rest;
    DecodesIff(node, Decode(node).value);
    SameCommands(node);
  }

  lemma EncodedMirrored(target: string)
    requires Carries(target)
    ensures SameTarget(EncodeAll(Segments(target))) <==>
      TrimSpace(Normalised(target)) == Normalised(target) && Bytes(Normalised(target)) <= MAX_TARGET_LENGTH
  {
    DecodeEncodeAll(Segments(target));
  }

  /** On the link of a shareable query the condition is about its target alone: at most 255 bytes, and nothing Go
      alone regards as blank at its ends. */
  lemma SharedLinkMirroredIff(command: string, target: string, nodeSlug: Option<string>, native: string -> string)
    requires Shareable(command, target, nodeSlug)
    ensures Mirrored(BuildQueryPath(command, target, nodeSlug, native), "") <==>
      TrimSpace(Normalised(target)) == Normalised(target) && Bytes(Normalised(target)) <= MAX_TARGET_LENGTH
  {
    var slug, rest := SlugOf(command).value, EncodeAll(Segments(target));
    NormalisedEmpty(target);
    SegmentsOfBuilt(command, target, nodeSlug, native);
    EncodedMirrored(target);
    KnownSlug(command);
    if NodeOf(nodeSlug).Some? {
      EncodedCommandSlug(nodeSlug.value);
      DecodeEncode(nodeSlug.value);
      NodeMirrored(Encode(nodeSlug.value), slug, rest);
    } else {
      PlainMirrored(slug, rest);
      assert [] + ([slug] + rest) == [slug] + rest;
    }
  }

  lemma KnownSlug(command: string)
    requires SlugOf(command).Some?
    ensures ServerCommand(SlugOf(command).value) == Some(command)
    ensures IsCommandSlug(SlugOf(command).value) && SlugOf(command).value !in INHERITED
  {
  }

  // ---- Nodes ----

  function Present(nodes: seq<Option<Node>>): seq<Node> {
    if nodes == [] then []
    else Present(nodes[..|nodes| - 1]) + if nodes[|nodes| - 1].Some? then [nodes[|nodes| - 1].value] else []
  }

  lemma {:induction false} FindSnoc(nodes: seq<Node>, n: Node, good: Node -> bool)
    ensures Find(nodes + [n], good) ==
      if Find(nodes, good).Some? then Find(nodes, good) else if good(n) then Some(n) else None
  {
    if nodes != [] {
      assert (nodes + [n])[1..] == nodes[1..] + [n];
      FindSnoc(nodes[1..], n, good);
    }
  }

  /** One more entry of the list, and what a search finds in it. */
  lemma PresentNext(nodes: seq<Option<Node>>, i: nat, good: Node -> bool)
    requires i < |nodes|
    ensures Present(nodes[..i + 1]) == Present(nodes[..i]) + if nodes[i].Some? then [nodes[i].value] else []
    ensures var before, after := Find(Present(nodes[..i]), good), Find(Present(nodes[..i + 1]), good);
      after == if before.None? && nodes[i].Some? && good(nodes[i].value) then nodes[i] else before
  {
    assert nodes[..i + 1][..i] == nodes[..i];
    if nodes[i].Some? {
      FindSnoc(Present(nodes[..i]), nodes[i].value, good);
    } else {
      assert Present(nodes[..i]) + [] == Present(nodes[..i]);
    }
  }

  /** What the first pass has seen of the nodes: the first of them, and the first marked one. */
  ghost predicate Scanned(nodes: seq<Node>, first: Option<Node>, marked: Option<Node>) {
    first == (if nodes == [] then None else Some(nodes[0])) && marked == Find(nodes, IsMarked)
  }

  method DefaultNode(nodes: seq<Option<Node>>) returns (fallback: Option<Node>)
    ensures fallback.None? <==> Present(nodes) == []
    ensures fallback.Some? ==>
      fallback.value in Present(nodes) && Decimal(fallback.value.id) == PickDefaultNodeId(Present(nodes))
  {
    var first, marked: Option<Node> := None, None;
    for i := 0 to |nodes|
      invariant Scanned(Present(nodes[..i]), first, marked)
    {
      PresentNext(nodes, i, IsMarked);
      if nodes[i].Some? {
        if first.None? {
          first := nodes[i];
        }
        if marked.None? && nodes[i].value.isDefault {
          marked := nodes[i];
        }
      }
    }
    assert nodes[..|nodes|] == nodes;
    fallback := if marked.Some? then marked else first;
  }

  /** The first present node with an id in decimal. */
  method NodeWithId(nodes: seq<Option<Node>>, token: string) returns (n: Option<Node>)
    ensures n == Find(Present(nodes), WithId(token))
  {
    for i := 0 to |nodes|
      invariant Find(Present(nodes[..i]), WithId(token)) == None
    {
      NextPresent(nodes, i, WithId(token));
      if nodes[i].Some? && Decimal(nodes[i].value.id) == token {
        return nodes[i];
      }
    }
    assert nodes[..|nodes|] == nodes;
    return None;
  }

  /** The first present node with a slug. */
  method NodeWithSlug(nodes: seq<Option<Node>>, slug: string, fold: string -> string) returns (n: Option<Node>)
    ensures n == Find(Present(nodes), WithSlug(slug, fold))
  {
    for i := 0 to |nodes|
      invariant Find(Present(nodes[..i]), WithSlug(slug, fold)) == None
    {
      NextPresent(nodes, i, WithSlug(slug, fold));
      if nodes[i].Some? {
        var own := SlugifyOnServer(fold(nodes[i].value.name));
        if own == slug {
          return nodes[i];
        }
      }
    }
    assert nodes[..|nodes|] == nodes;
    return None;
  }

  lemma {:induction false} FoundStays(nodes: seq<Node>, more: seq<Node>, good: Node -> bool)
    requires Find(nodes, good).Some?
    ensures Find(nodes + more, good) == Find(nodes, good)
  {
    assert (nodes + more)[0] == nodes[0];
    if !good(nodes[0]) {
      assert (nodes + more)[1..] == nodes[1..] + more;
      FoundStays(nodes[1..], more, good);
    }
  }

  lemma {:induction false} PresentBoth(a: seq<Option<Node>>, b: seq<Option<Node>>)
    ensures Present(a + b) == Present(a) + Present(b)
  {
    if b == [] {
      assert a + b == a;
    } else {
      assert (a + b)[..|a + b| - 1] == a + b[..|b| - 1];
      PresentBoth(a, b[..|b| - 1]);
    }
  }

  /** A search that has found something in a part of the list finds the same in all of it. */
  lemma FoundInPrefix(nodes: seq<Option<Node>>, i: nat, good: Node -> bool)
    requires i <= |nodes| && Find(Present(nodes[..i]), good).Some?
    ensures Find(Present(nodes), good) == Find(Present(nodes[..i]), good)
  {
    assert nodes == nodes[..i] + nodes[i..];
    PresentBoth(nodes[..i], nodes[i..]);
    FoundStays(Present(nodes[..i]), Present(nodes[i..]), good);
  }

  /** Where a search that has found nothing yet stands after one more node. */
  lemma NextPresent(nodes: seq<Option<Node>>, i: nat, good: Node -> bool)
    requires i < |nodes| && Find(Present(nodes[..i]), good) == None
    ensures nodes[i].Some? && good(nodes[i].value) ==> Find(Present(nodes), good) == nodes[i]
    ensures nodes[i].None? || !good(nodes[i].value) ==> Find(Present(nodes[..i + 1]), good) == None
  {
    PresentNext(nodes, i, good);
    if nodes[i].Some? && good(nodes[i].value) {
      FoundInPrefix(nodes, i + 1, good);
    }
  }

  /** The server picks the node whose id the frontend picks, whatever entries are missing from its list. */
  method ResolveNode(nodes: seq<Option<Node>>, token: string, fold: string -> string) returns (n: Option<Node>)
    ensures n.None? <==> Present(nodes) == []
    ensures n.Some? ==>
      n.value in Present(nodes) && Decimal(n.value.id) == ResolveLinkedNodeId(Present(nodes), Some(token), fold)
  {
    var fallback := DefaultNode(nodes);
    if token == "" {
      return fallback;
    }
    n := NodeWithId(nodes, token);
    if n.Some? {
      return;
    }
    var slug := SlugifyOnServer(fold(token));
    n := NodeWithSlug(nodes, slug, fold);
    if n.None? {
      n := fallback;
    }
  }
}
