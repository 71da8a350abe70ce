/** Share links: building the path of a query, reading it back, and finding the node it names. */
module ShareLinks {

  import opened JsText
  import opened Options
  import opened Text
  import opened PercentCoding
  import opened Slugs

  /** What a lookup in the slug table yields: a command, or a member every JavaScript object inherits. */
  datatype Command = Named(name: string) | Inherited(member: string)

  const INHERITED := {"constructor", "toString", "valueOf", "hasOwnProperty", "isPrototypeOf", "propertyIsEnumerable",
                      "toLocaleString", "__proto__", "__defineGetter__", "__defineSetter__", "__lookupGetter__",
                      "__lookupSetter__"}

  function CommandOf(slug: string): Option<Command> {
    if slug == "ping" then Some(Named("ping"))
    else if slug == "traceroute" then Some(Named("traceroute"))
    else if slug == "bgp" then Some(Named("bgp_route"))
    else if slug in INHERITED then Some(Inherited(slug))
    else None
  }

  predicate IsCommandSlug(slug: string) {
    CommandOf(slug).Some?
  }

  function SlugOf(command: string): Option<string> {
    if command == "ping" then Some("ping")
    else if command == "traceroute" then Some("traceroute")
    else if command == "bgp_route" then Some("bgp")
    else None
  }

  // ---- Building ----

  function Segments(path: string): seq<string> {
    Fields(path, IsSlash)
  }

  function EncodeAll(parts: seq<string>): seq<string> {
    if parts == [] then [] else EncodeAll(parts[..|parts| - 1]) + [Encode(parts[|parts| - 1])]
  }

  /** What the reverse table yields for a command: its slug, or the text of an inherited member. */
  function TableSlug(command: string, native: string -> string): Option<string> {
    if command in INHERITED then Some(native(command)) else SlugOf(command)
  }

  /** The path of a query, or the home path when the command is unknown or the target has no segment; `native`
      is how the members every object inherits print. */
  function BuildQueryPath(command: string, target: string, nodeSlug: Option<string>, native: string -> string): string {
    var slug := TableSlug(command, native);
    var encoded := Join(EncodeAll(Segments(target)), "/");
    if slug.None? || encoded == [] then "/" else Prefix(nodeSlug) + "/" + slug.value + "/" + encoded
  }

  function Prefix(nodeSlug: Option<string>): string {
    if nodeSlug.Some? && nodeSlug.value != "" then "/" + Encode(nodeSlug.value) else ""
  }

  // ---- Reading back ----

  datatype SharedQuery = SharedQuery(command: Command, target: string, node: Option<string>)

  const MAX_TARGET_LENGTH := 255

  function DecodeAll(parts: seq<string>): Option<seq<string>> {
    if parts == [] then Some([])
    else
      var front, last := DecodeAll(parts[..|parts| - 1]), Decode(parts[|parts| - 1]);
      if front.None? || last.None? then None else Some(front.value + [last.value])
  }

  function OrNone(s: string): Option<string> {
    if s == "" then None else Some(s)
  }

  /** The command, the node segment if there is one, and the segments of the target. */
  function ReadSegments(segments: seq<string>): Option<(Command, Option<string>, seq<string>)> {
    if segments != [] && IsCommandSlug(segments[0]) then Some((CommandOf(segments[0]).value, None, segments[1..]))
    else if |segments| > 1 && IsCommandSlug(segments[1]) then
      Some((CommandOf(segments[1]).value, Decode(segments[0]), segments[2..]))
    else None
  }

  predicate Fits(target: string) {
    target != "" && Units(target) <= MAX_TARGET_LENGTH
  }

  predicate Readable(rest: seq<string>) {
    DecodeAll(rest).Some? && Fits(Trim(Join(DecodeAll(rest).value, "/")))
  }

  /** The target the segments spell, if they can be decoded and it fits. */
  function ReadTarget(rest: seq<string>): Option<string> {
    if Readable(rest) then Some(Trim(Join(DecodeAll(rest).value, "/"))) else None
  }

  function Shared(command: Command, node: Option<string>, rest: seq<string>, param: string): Option<SharedQuery> {
    var target := ReadTarget(rest);
    if target.None? then None
    else Some(SharedQuery(command, target.value, if node.None? || node.value == "" then OrNone(Trim(param)) else node))
  }

  /** The query a location stands for; `param` is the `node` parameter of its query string, empty if there is none. */
  function ParseQueryLocation(path: string, param: string): Option<SharedQuery> {
    match ReadSegments(Segments(path))
    case None => None
    case Some((command, node, rest)) => Shared(command, node, rest, param)
  }

  // ---- The round trip ----

  /** The target as a path can carry it: without empty segments. */
  function Normalised(target: string): string {
    Join(Segments(target), "/")
  }

  lemma DecodeAllSnoc(parts: seq<string>, part: string, texts: seq<string>, text: string)
    requires DecodeAll(parts) == Some(texts) && Decode(part) == Some(text)
    ensures DecodeAll(parts + [part]) == Some(texts + [text])
  {
    assert (parts + [part])[..|parts|] == parts;
  }

  lemma {:induction false} DecodeEncodeAll(parts: seq<string>)
    ensures DecodeAll(EncodeAll(parts)) == Some(parts)
  {
    if parts == [] {
    } else {
      var front, last := parts[..|parts| - 1], parts[|parts| - 1];
      DecodeEncodeAll(front);
      var part := Encode(last);
      assert Decode(part) == Some(last) by {
        DecodeEncode(last);
      }
      DecodeAllSnoc(EncodeAll(front), part, front, last);
      assert front + [last] == parts;
    }
  }

  lemma {:induction false} EncodedAreTokens(parts: seq<string>)
    requires AllTokens(parts, IsSlash)
    ensures AllTokens(EncodeAll(parts), IsSlash) && |EncodeAll(parts)| == |parts|
  {
    if parts != [] {
      var front, last := parts[..|parts| - 1], parts[|parts| - 1];
      EncodedAreTokens(front);
      EncodedIsSegment(last);
      assert last != [];
    }
  }

  lemma JoinEmpty(parts: seq<string>)
    requires AllTokens(parts, IsSlash)
    ensures Join(parts, "/") == [] <==> parts == []
  {
    if parts != [] {
      assert parts[|parts| - 1] != [];
    }
  }

  /** A token, a slash and more: the segments are the token and the segments of the rest. */
  lemma SegmentThen(token: string, rest: string)
    requires IsToken(token, IsSlash)
    ensures Segments("/" + token + "/" + rest) == [token] + Segments(rest)
  {
    FieldsSplit([], '/', token + "/" + rest, [], IsSlash);
    assert [] + ['/'] + (token + "/" + rest) == "/" + token + "/" + rest;
    assert FieldsFrom([], [], IsSlash) == [];
    FieldsSplit(token, '/', rest, [], IsSlash);
    FieldsOfToken(token, [], IsSlash);
    assert [] + token == token;
  }

  lemma LeadingSlash(rest: string)
    ensures Segments("/" + rest) == Segments(rest)
  {
    FieldsSplit([], '/', rest, [], IsSlash);
    assert [] + ['/'] + rest == "/" + rest;
    assert FieldsFrom([], [], IsSlash) == [];
  }

  /** The node segment of a link, if it has one. */
  function NodeOf(nodeSlug: Option<string>): Option<string> {
    if nodeSlug == Some("") then None else nodeSlug
  }

  lemma SegmentsOfPath(nodeSlug: Option<string>, slug: string, encoded: string)
    requires IsToken(slug, IsSlash)
    ensures Segments(Prefix(nodeSlug) + "/" + slug + "/" + encoded) ==
      (if NodeOf(nodeSlug).Some? then [Encode(nodeSlug.value)] else []) + ([slug] + Segments(encoded))
  {
    if NodeOf(nodeSlug).Some? {
      NodeThen(nodeSlug.value, slug, encoded);
    } else {
      SegmentThen(slug, encoded);
      assert "" + "/" + slug + "/" + encoded == "/" + slug + "/" + encoded;
    }
  }

  lemma NodeThen(node: string, slug: string, encoded: string)
    requires node != "" && IsToken(slug, IsSlash)
    ensures Segments("/" + Encode(node) + "/" + slug + "/" + encoded) == [Encode(node)] + ([slug] + Segments(encoded))
  {
    EncodedIsSegment(node);
    SegmentThen(Encode(node), slug + "/" + encoded);
    assert "/" + Encode(node) + "/" + (slug + "/" + encoded) == "/" + Encode(node) + "/" + slug + "/" + encoded;
    SegmentThen(slug, encoded);
    LeadingSlash(slug + "/" + encoded);
    assert "/" + (slug + "/" + encoded) == "/" + slug + "/" + encoded;
  }

  /** The encoded target: empty exactly when the target has no segment, and its segments are the encoded ones. */
  lemma EncodedTarget(target: string)
    ensures var encoded := Join(EncodeAll(Segments(target)), "/");
      (encoded == [] <==> Segments(target) == []) && Segments(encoded) == EncodeAll(Segments(target))
  {
    var parts := Segments(target);
    FieldsAreTokens(target, [], IsSlash);
    EncodedAreTokens(parts);
    JoinEmpty(EncodeAll(parts));
    TokensOfJoin(EncodeAll(parts), '/', IsSlash);
  }

  lemma NormalisedEmpty(target: string)
    ensures Normalised(target) == [] <==> Segments(target) == []
  {
    FieldsAreTokens(target, [], IsSlash);
    JoinEmpty(Segments(target));
  }

  lemma KnownIsNotInherited(command: string, native: string -> string)
    requires SlugOf(command).Some?
    ensures TableSlug(command, native) == SlugOf(command)
  {
  }

  /** The segments of a built path: the node if there is one, the command's slug, and the encoded target. */
  lemma SegmentsOfBuilt(command: string, target: string, nodeSlug: Option<string>, native: string -> string)
    requires SlugOf(command).Some? && Segments(target) != []
    ensures Segments(BuildQueryPath(command, target, nodeSlug, native)) ==
      (if NodeOf(nodeSlug).Some? then [Encode(nodeSlug.value)] else []) +
      ([SlugOf(command).value] + EncodeAll(Segments(target)))
  {
    KnownIsNotInherited(command, native);
    EncodedTarget(target);
    SegmentsOfPath(nodeSlug, SlugOf(command).value, Join(EncodeAll(Segments(target)), "/"));
  }

  predicate IsWord(s: string) {
    forall i :: 0 <= i < |s| ==> 'a' <= s[i] <= 'z' || 'A' <= s[i] <= 'Z' || s[i] == '_'
  }

  lemma InheritedAreWords(member: string)
    requires member in INHERITED
    ensures IsWord(member)
  {
    if member in {"constructor", "toString", "valueOf", "hasOwnProperty"} {
    } else if member in {"isPrototypeOf", "propertyIsEnumerable", "toLocaleString", "__proto__"} {
    } else {
    }
  }

  lemma CommandSlugsAreWords(slug: string)
    requires IsCommandSlug(slug)
    ensures IsWord(slug)
  {
    if slug in INHERITED {
      InheritedAreWords(slug);
    }
  }

  /** Encoding neither makes nor hides a command slug. */
  lemma EncodedCommandSlug(slug: string)
    ensures IsCommandSlug(Encode(slug)) <==> IsCommandSlug(slug)
  {
    if IsCommandSlug(slug) {
      CommandSlugsAreWords(slug);
      EncodeUnreserved(slug);
    } else if IsCommandSlug(Encode(slug)) {
      CommandSlugsAreWords(Encode(slug));
      EncodeUnreserved(Encode(slug));
      EncodeInjective(Encode(slug), slug);
    }
  }

  lemma CommandReadsBack(command: string)
    requires SlugOf(command).Some?
    ensures CommandOf(SlugOf(command).value) == Some(Named(command))
  {
  }

  lemma ReadWithNode(segment: string, slug: string, rest: seq<string>)
    requires IsCommandSlug(slug)
    ensures var read := ReadSegments([segment] + ([slug] + rest));
      if IsCommandSlug(segment) then read.Some? && read.value.1 == None
      else read == Some((CommandOf(slug).value, Decode(segment), rest))
  {
    var segments := [segment] + ([slug] + rest);
    assert segments[0] == segment && segments[1] == slug && segments[2..] == rest;
  }

  lemma ReadWithoutNode(slug: string, rest: seq<string>)
    requires IsCommandSlug(slug)
    ensures ReadSegments([slug] + rest) == Some((CommandOf(slug).value, None, rest))
  {
    assert ([slug] + rest)[1..] == rest;
  }

  /** What reading the segments of a built path gives. */
  lemma ReadBuilt(nodeSlug: Option<string>, command: string, rest: seq<string>)
    requires SlugOf(command).Some?
    ensures var node := NodeOf(nodeSlug);
      var first := if node.Some? then [Encode(nodeSlug.value)] else [];
      var read := ReadSegments(first + ([SlugOf(command).value] + rest));
      if node.Some? && IsCommandSlug(node.value) then read.Some? && read.value.1 == None
      else read == Some((Named(command), node, rest))
  {
    var slug := SlugOf(command).value;
    CommandReadsBack(command);
    if NodeOf(nodeSlug).Some? {
      EncodedCommandSlug(nodeSlug.value);
      DecodeEncode(nodeSlug.value);
      ReadWithNode(Encode(nodeSlug.value), slug, rest);
    } else {
      ReadWithoutNode(slug, rest);
      assert [] + ([slug] + rest) == [slug] + rest;
    }
  }

  /** A target a link can carry: not empty, not padded and not too long. */
  predicate Carries(target: string) {
    Trim(Normalised(target)) == Normalised(target) && Fits(Normalised(target))
  }

  /** A known command, a target that fits, and a node whose token does not read as a command. */
  predicate Shareable(command: string, target: string, nodeSlug: Option<string>) {
    SlugOf(command).Some? && Carries(target) && (NodeOf(nodeSlug).Some? ==> !IsCommandSlug(nodeSlug.value))
  }

  /** No path reads as a command outside the table. */
  lemma ReadCommandsAreKnown(path: string, param: string)
    ensures var read := ParseQueryLocation(path, param);
      read.Some? && read.value.command.Named? ==> SlugOf(read.value.command.name).Some?
  {
  }

  /** Reading a built link back gives the query that was shared, exactly when it is shareable. */
  lemma LinkRoundTripIff(command: string, target: string, nodeSlug: Option<string>, native: string -> string)
    ensures ParseQueryLocation(BuildQueryPath(command, target, nodeSlug, native), "")
         == Some(SharedQuery(Named(command), Normalised(target), NodeOf(nodeSlug)))
      <==> Shareable(command, target, nodeSlug)
  {
    if SlugOf(command).None? {
      ReadCommandsAreKnown(BuildQueryPath(command, target, nodeSlug, native), "");
    } else {
      KnownRoundTripIff(command, target, nodeSlug, native);
    }
  }

  lemma KnownRoundTripIff(command: string, target: string, nodeSlug: Option<string>, native: string -> string)
    requires SlugOf(command).Some?
    ensures ParseQueryLocation(BuildQueryPath(command, target, nodeSlug, native), "")
         == Some(SharedQuery(Named(command), Normalised(target), NodeOf(nodeSlug)))
      <==> Shareable(command, target, nodeSlug)
  {
    EncodedTarget(target);
    NormalisedEmpty(target);
    if Segments(target) == [] {
      HomeIsNoLink();
    } else {
      SegmentsOfBuilt(command, target, nodeSlug, native);
      ReadBuilt(nodeSlug, command, EncodeAll(Segments(target)));
      DecodeEncodeAll(Segments(target));
    }
  }

  /** On a link without a node segment the trimmed node parameter names the node; a node segment outranks it. */
  lemma ParameterNamesNode(command: string, target: string, nodeSlug: Option<string>, native: string -> string,
                           param: string)
    requires Shareable(command, target, nodeSlug)
    ensures ParseQueryLocation(BuildQueryPath(command, target, nodeSlug, native), param) ==
      Some(SharedQuery(Named(command), Normalised(target),
        if NodeOf(nodeSlug).Some? then nodeSlug else if Trim(param) == "" then None else Some(Trim(param))))
  {
    EncodedTarget(target);
    NormalisedEmpty(target);
    SegmentsOfBuilt(command, target, nodeSlug, native);
    ReadBuilt(nodeSlug, command, EncodeAll(Segments(target)));
    DecodeEncodeAll(Segments(target));
  }

  lemma HomeIsNoLink()
    ensures ParseQueryLocation("/", "") == None
  {
    LeadingSlash("");
    assert "/" + "" == "/";
    assert Segments("") == [];
  }

  // ---- The node a link names ----

  datatype Node = Node(id: nat, name: string, isDefault: bool)

  /** The first node with the property, searching from the front. */
  function Find(nodes: seq<Node>, good: Node -> bool): (r: Option<Node>)
    ensures r.Some? ==> r.value in nodes && good(r.value)
    ensures r.None? ==> forall n :: n in nodes ==> !good(n)
  {
    if nodes == [] then None
    else if good(nodes[0]) then Some(nodes[0])
    else Find(nodes[1..], good)
  }

  predicate IsMarked(n: Node) {
    n.isDefault
  }

  function WithId(id: string): Node -> bool {
    (n: Node) => Decimal(n.id) == id
  }

  function WithSlug(slug: string, fold: string -> string): Node -> bool {
    (n: Node) => SlugifyNodeName(fold(n.name)) == slug
  }

  function PickDefaultNodeId(nodes: seq<Node>): string {
    if nodes == [] then ""
    else
      var marked := Find(nodes, IsMarked);
      Decimal(if marked.Some? then marked.value.id else nodes[0].id)
  }

  /** Node i is the first with the property. */
  predicate IsFirst(nodes: seq<Node>, good: Node -> bool, i: nat) {
    i < |nodes| && good(nodes[i]) && forall j :: 0 <= j < i ==> !good(nodes[j])
  }

  lemma {:induction false} FindsFirst(nodes: seq<Node>, good: Node -> bool, i: nat)
    requires IsFirst(nodes, good, i)
    ensures Find(nodes, good) == Some(nodes[i])
  {
    if i > 0 {
      assert !good(nodes[0]);
      assert forall j :: 0 <= j < i - 1 ==> nodes[1..][j] == nodes[j + 1];
      FindsFirst(nodes[1..], good, i - 1);
    }
  }

  /** The default node is the first marked one, and the first of all when none is marked. */
  lemma DefaultIs(nodes: seq<Node>, i: nat)
    requires i < |nodes|
    ensures nodes[i].isDefault && (forall j :: 0 <= j < i ==> !nodes[j].isDefault) ==>
      PickDefaultNodeId(nodes) == Decimal(nodes[i].id)
    ensures (forall j :: 0 <= j < |nodes| ==> !nodes[j].isDefault) ==> PickDefaultNodeId(nodes) == Decimal(nodes[0].id)
  {
    if nodes[i].isDefault && forall j :: 0 <= j < i ==> !nodes[j].isDefault {
      FindsFirst(nodes, IsMarked, i);
    }
  }

  predicate HasId(nodes: seq<Node>, id: string) {
    exists n :: n in nodes && Decimal(n.id) == id
  }

  /** The node a token stands for; `fold` normalises names and tokens alike before they become slugs. */
  function ResolveLinkedNodeId(nodes: seq<Node>, token: Option<string>, fold: string -> string): string {
    if token.None? || token.value == "" then PickDefaultNodeId(nodes)
    else if HasId(nodes, token.value) then token.value
    else
      var slug := SlugifyNodeName(fold(token.value));
      var matching := Find(nodes, WithSlug(slug, fold));
      if matching.Some? then Decimal(matching.value.id) else PickDefaultNodeId(nodes)
  }

  /** The nodes whose names have this slug. */
  function SameSlug(nodes: seq<Node>, slug: string, fold: string -> string): (r: seq<Node>)
    ensures forall n :: n in r <==> n in nodes && SlugifyNodeName(fold(n.name)) == slug
  {
    if nodes == [] then []
    else (if SlugifyNodeName(fold(nodes[0].name)) == slug then [nodes[0]] else []) + SameSlug(nodes[1..], slug, fold)
  }

  function ShareSlugForNode(nodes: seq<Node>, nodeId: string, fold: string -> string): Option<string> {
    if nodeId == PickDefaultNodeId(nodes) then None
    else
      var node := Find(nodes, WithId(nodeId));
      if node.None? then None
      else
        var slug := SlugifyNodeName(fold(node.value.name));
        if slug == "" || IsCommandSlug(slug) || |SameSlug(nodes, slug, fold)| != 1 then Some(nodeId) else Some(slug)
  }

  /** Folding changes nothing in a text that is already a slug. */
  ghost predicate FoldsSlugs(fold: string -> string) {
    forall s: string :: SlugText(s) ==> fold(s) == s
  }

  predicate SlugText(s: string) {
    forall i :: 0 <= i < |s| ==> IsSlugChar(s[i]) || s[i] == '-'
  }

  lemma TokenOfSlug(name: string, fold: string -> string)
    requires FoldsSlugs(fold)
    ensures var slug := SlugifyNodeName(fold(name)); SlugifyNodeName(fold(slug)) == slug
  {
    SlugifyIsSlug(fold(name));
    SlugIsStable(fold(name));
    SlugifyIsSlug(Slug(fold(name)));
    assert SlugText(Slug(fold(name)));
  }

  lemma OnlyOne(nodes: seq<Node>, a: Node, b: Node, slug: string, fold: string -> string)
    requires a in nodes && b in nodes && |SameSlug(nodes, slug, fold)| == 1
    requires SlugifyNodeName(fold(a.name)) == slug && SlugifyNodeName(fold(b.name)) == slug
    ensures a == b
  {
    var same := SameSlug(nodes, slug, fold);
    assert a in same && b in same;
  }

  /** No other node's name has this slug. */
  predicate OnlySlug(nodes: seq<Node>, i: nat, fold: string -> string)
    requires i < |nodes|
  {
    forall j :: 0 <= j < |nodes| && j != i ==>
      SlugifyNodeName(fold(nodes[j].name)) != SlugifyNodeName(fold(nodes[i].name))
  }

  lemma {:induction false} NoSlug(nodes: seq<Node>, slug: string, fold: string -> string)
    requires forall j :: 0 <= j < |nodes| ==> SlugifyNodeName(fold(nodes[j].name)) != slug
    ensures SameSlug(nodes, slug, fold) == []
  {
    if nodes != [] {
      NoSlug(nodes[1..], slug, fold);
    }
  }

  lemma HasSlug(nodes: seq<Node>, j: nat, slug: string, fold: string -> string)
    requires j < |nodes| && SlugifyNodeName(fold(nodes[j].name)) == slug
    ensures |SameSlug(nodes, slug, fold)| >= 1
  {
    assert nodes[j] in SameSlug(nodes, slug, fold);
  }

  /** The slug of a node counts once exactly when it is the only one. */
  lemma {:induction false} OnlySlugIff(nodes: seq<Node>, i: nat, fold: string -> string)
    requires i < |nodes|
    ensures |SameSlug(nodes, SlugifyNodeName(fold(nodes[i].name)), fold)| == 1 <==> OnlySlug(nodes, i, fold)
  {
    var slug, rest := SlugifyNodeName(fold(nodes[i].name)), nodes[1..];
    if i == 0 {
      if OnlySlug(nodes, 0, fold) {
        forall j | 0 <= j < |rest| ensures SlugifyNodeName(fold(rest[j].name)) != slug {
          assert rest[j] == nodes[j + 1];
        }
        NoSlug(rest, slug, fold);
      } else {
        var j :| 0 <= j < |nodes| && j != 0 && SlugifyNodeName(fold(nodes[j].name)) == slug;
        HasSlug(rest, j - 1, slug, fold);
      }
    } else {
      OnlySlugIff(rest, i - 1, fold);
      HasSlug(rest, i - 1, slug, fold);
      assert forall j :: 0 <= j < |rest| ==> rest[j] == nodes[j + 1];
      OnlySlugTail(nodes, i, fold);
    }
  }

  lemma OnlySlugTail(nodes: seq<Node>, i: nat, fold: string -> string)
    requires 0 < i < |nodes|
    ensures OnlySlug(nodes, i, fold) <==>
      OnlySlug(nodes[1..], i - 1, fold) &&
      SlugifyNodeName(fold(nodes[0].name)) != SlugifyNodeName(fold(nodes[i].name))
  {
    var rest, slug := nodes[1..], SlugifyNodeName(fold(nodes[i].name));
    assert rest[i - 1] == nodes[i];
    if OnlySlug(nodes, i, fold) {
      forall j | 0 <= j < |rest| && j != i - 1 ensures SlugifyNodeName(fold(rest[j].name)) != slug {
        assert rest[j] == nodes[j + 1];
      }
    }
    if OnlySlug(rest, i - 1, fold) && SlugifyNodeName(fold(nodes[0].name)) != slug {
      forall j | 0 <= j < |nodes| && j != i ensures SlugifyNodeName(fold(nodes[j].name)) != slug {
        assert j > 0 ==> rest[j - 1] == nodes[j];
      }
    }
  }

  /** How a node is named in a link: not at all if it is the default, by its slug if that is not empty, no command and
      no other node's, and by its id otherwise. Node i is the first with its id. */
  lemma ShareSlugIs(nodes: seq<Node>, i: nat, fold: string -> string)
    requires i < |nodes| && forall j :: 0 <= j < i ==> Decimal(nodes[j].id) != Decimal(nodes[i].id)
    ensures var id, slug := Decimal(nodes[i].id), SlugifyNodeName(fold(nodes[i].name));
      ShareSlugForNode(nodes, id, fold) ==
        if id == PickDefaultNodeId(nodes) then None
        else if slug != "" && !IsCommandSlug(slug) && OnlySlug(nodes, i, fold) then Some(slug) else Some(id)
  {
    FindsFirst(nodes, WithId(Decimal(nodes[i].id)), i);
    OnlySlugIff(nodes, i, fold);
  }

  /** The token of a shared node leads back to the node, for any list of nodes, exactly when it is not the id
      of another one. */
  lemma NodeRoundTripIff(nodes: seq<Node>, nodeId: string, fold: string -> string)
    requires HasId(nodes, nodeId) && FoldsSlugs(fold)
    ensures var token := ShareSlugForNode(nodes, nodeId, fold);
      ResolveLinkedNodeId(nodes, token, fold) == nodeId <==>
      (token.Some? && HasId(nodes, token.value) ==> token.value == nodeId)
  {
    var token := ShareSlugForNode(nodes, nodeId, fold);
    if token.Some? && !HasId(nodes, token.value) {
      var node := Find(nodes, WithId(nodeId)).value;
      TokenOfSlug(node.name, fold);
      var found := Find(nodes, WithSlug(token.value, fold));
      if found.Some? {
        OnlyOne(nodes, node, found.value, token.value, fold);
      }
    }
  }

  lemma IdIsNoCommand(id: nat)
    ensures !IsCommandSlug(Decimal(id))
  {
    assert IsDigit(Decimal(id)[0]) && !IsWord(Decimal(id));
    if IsCommandSlug(Decimal(id)) {
      CommandSlugsAreWords(Decimal(id));
    }
  }

  lemma TokenIsNoCommand(nodes: seq<Node>, nodeId: string, fold: string -> string)
    requires HasId(nodes, nodeId)
    ensures var token := ShareSlugForNode(nodes, nodeId, fold);
      token.Some? ==> token.value != "" && !IsCommandSlug(token.value)
  {
    var node: Node :| node in nodes && Decimal(node.id) == nodeId;
    IdIsNoCommand(node.id);
  }

  /** A link for such a node reads back as the query it was built from. */
  lemma NodeLinkReadsBack(nodes: seq<Node>, nodeId: string, command: string, target: string, fold: string -> string,
                          native: string -> string)
    requires HasId(nodes, nodeId) && SlugOf(command).Some? && Carries(target)
    ensures var token := ShareSlugForNode(nodes, nodeId, fold);
      ParseQueryLocation(BuildQueryPath(command, target, token, native), "")
        == Some(SharedQuery(Named(command), Normalised(target), token))
  {
    var token := ShareSlugForNode(nodes, nodeId, fold);
    TokenIsNoCommand(nodes, nodeId, fold);
    assert NodeOf(token) == token;
    LinkRoundTripIff(command, target, token, native);
  }

  /** The whole journey: the link built for a node, a known command and a target that fits is read back as that
      command and target, and opens the node it was built for, exactly when the node's slug is not the id of
      another node. */
  lemma SharedLinkOpensIff(nodes: seq<Node>, nodeId: string, command: string, target: string, fold: string -> string,
                           native: string -> string)
    requires HasId(nodes, nodeId) && FoldsSlugs(fold) && SlugOf(command).Some? && Carries(target)
    ensures var token := ShareSlugForNode(nodes, nodeId, fold);
      var read := ParseQueryLocation(BuildQueryPath(command, target, token, native), "");
      && read == Some(SharedQuery(Named(command), Normalised(target), token))
      && (ResolveLinkedNodeId(nodes, read.value.node, fold) == nodeId <==>
          (token.Some? && HasId(nodes, token.value) ==> token.value == nodeId))
  {
    NodeLinkReadsBack(nodes, nodeId, command, target, fold, native);
    NodeRoundTripIff(nodes, nodeId, fold);
  }
}
