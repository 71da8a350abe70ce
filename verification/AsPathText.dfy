/** AS paths as text: how GoBGP attributes are printed, how the text is parsed back, and the key
    under which equal paths are recognised. */
module AsPathText {
  import opened Text

  const UINT32: nat := 0x1_0000_0000

  type Asn = n: nat | n < UINT32

  /** What the parser splits on. */
  predicate IsSeparator(c: char) {
    c == ' ' || c == '[' || c == ']' || c == ','
  }

  // ---- Printing ----

  function DecimalAll(asns: seq<Asn>): (parts: seq<string>)
    ensures |parts| == |asns|
  {
    if asns == [] then [] else DecimalAll(asns[..|asns| - 1]) + [Decimal(asns[|asns| - 1])]
  }

  /** How a slice of strings is printed: bracketed, separated by spaces. */
  function Bracketed(parts: seq<string>): string {
    "[" + Join(parts, " ") + "]"
  }

  function SegmentTexts(segments: seq<seq<Asn>>): (parts: seq<string>)
    ensures |parts| == |segments|
  {
    if segments == [] then []
    else SegmentTexts(segments[..|segments| - 1]) + [Bracketed(DecimalAll(segments[|segments| - 1]))]
  }

  function PathText(segments: seq<seq<Asn>>): string {
    Bracketed(SegmentTexts(segments))
  }

  method AsPathToString(segments: seq<seq<Asn>>) returns (text: string)
    ensures text == PathText(segments)
  {
    var parts: seq<string> := [];
    for i := 0 to |segments|
      invariant parts == SegmentTexts(segments[..i])
    {
      var asns: seq<string> := [];
      for j := 0 to |segments[i]|
        invariant asns == DecimalAll(segments[i][..j])
      {
        assert segments[i][..j + 1][..j] == segments[i][..j];
        asns := asns + [Decimal(segments[i][j])];
      }
      assert segments[i][..|segments[i]|] == segments[i];
      assert segments[..i + 1][..i] == segments[..i];
      parts := parts + [Bracketed(asns)];
    }
    assert segments[..|segments|] == segments;
    text := Bracketed(parts);
  }

  // ---- Parsing ----

  /** The fields that are 32-bit numbers; others are skipped. */
  function NumbersIn(fields: seq<string>): seq<Asn> {
    if fields == [] then []
    else
      var parsed := ParseUint(fields[|fields| - 1], UINT32);
      NumbersIn(fields[..|fields| - 1]) + if parsed.None? then [] else [parsed.value]
  }

  function ParsedPath(raw: string): seq<Asn> {
    NumbersIn(Fields(raw, IsSeparator))
  }

  method ParseASPath(raw: string) returns (asns: seq<Asn>)
    ensures asns == ParsedPath(raw)
  {
    asns := [];
    if raw == "" {
      return;
    }
    var parts := Fields(raw, IsSeparator);
    for i := 0 to |parts|
      invariant asns == NumbersIn(parts[..i])
    {
      assert parts[..i + 1][..i] == parts[..i];
      var parsed := ParseUint(parts[i], UINT32);
      if parsed.Some? {
        asns := asns + [parsed.value];
      }
    }
    assert parts[..|parts|] == parts;
  }

  function Flatten(segments: seq<seq<Asn>>): seq<Asn> {
    if segments == [] then [] else Flatten(segments[..|segments| - 1]) + segments[|segments| - 1]
  }

  lemma FieldsOfBracketed(parts: seq<string>)
    ensures Fields(Bracketed(parts), IsSeparator) == FieldsOfAll(parts, IsSeparator)
  {
    var inner := Join(parts, " ");
    FieldsOfJoin(parts, ' ', IsSeparator);
    FieldsSplit([], '[', inner + "]", [], IsSeparator);
    FieldsSplit(inner, ']', [], [], IsSeparator);
    assert Bracketed(parts) == [] + ['['] + (inner + "]");
    assert inner + "]" == inner + [']'] + [];
    assert FieldsFrom([], [], IsSeparator) == [];
  }

  lemma DecimalIsField(n: Asn)
    ensures Fields(Decimal(n), IsSeparator) == [Decimal(n)]
  {
    var token := Decimal(n);
    forall i | 0 <= i < |token| ensures !IsSeparator(token[i]) {
      assert IsDigit(token[i]);
    }
    FieldsOfToken(token, [], IsSeparator);
    assert [] + token == token;
  }

  lemma {:induction false} FieldsOfDecimals(asns: seq<Asn>)
    ensures FieldsOfAll(DecimalAll(asns), IsSeparator) == DecimalAll(asns)
  {
    if asns == [] {
    } else {
      var front, parts := asns[..|asns| - 1], DecimalAll(asns);
      FieldsOfDecimals(front);
      DecimalIsField(asns[|asns| - 1]);
      assert parts[..|parts| - 1] == DecimalAll(front);
    }
  }

  lemma {:induction false} NumbersOfDecimals(asns: seq<Asn>)
    ensures NumbersIn(DecimalAll(asns)) == asns
  {
    if asns == [] {
    } else {
      var front, parts := asns[..|asns| - 1], DecimalAll(asns);
      NumbersOfDecimals(front);
      ParseDecimal(asns[|asns| - 1], UINT32);
      assert parts[..|parts| - 1] == DecimalAll(front);
      assert asns == front + [asns[|asns| - 1]];
    }
  }

  lemma {:induction false} NumbersInBoth(a: seq<string>, b: seq<string>)
    ensures NumbersIn(a + b) == NumbersIn(a) + NumbersIn(b)
  {
    if b == [] {
      assert a + b == a;
    } else {
      assert (a + b)[..|a + b| - 1] == a + b[..|b| - 1];
      NumbersInBoth(a, b[..|b| - 1]);
    }
  }

  lemma {:induction false} SegmentFields(segments: seq<seq<Asn>>)
    ensures NumbersIn(FieldsOfAll(SegmentTexts(segments), IsSeparator)) == Flatten(segments)
  {
    if segments == [] {
    } else {
      var front, last := segments[..|segments| - 1], segments[|segments| - 1];
      SegmentFields(front);
      FieldsOfBracketed(DecimalAll(last));
      FieldsOfDecimals(last);
      NumbersOfDecimals(last);
      assert SegmentTexts(segments)[..|segments| - 1] == SegmentTexts(front);
      NumbersInBoth(FieldsOfAll(SegmentTexts(front), IsSeparator), DecimalAll(last));
    }
  }

  /** Parsing a printed AS path gives back every AS number of every segment, in order. */
  lemma PathRoundTrip(segments: seq<seq<Asn>>)
    ensures ParsedPath(PathText(segments)) == Flatten(segments)
  {
    FieldsOfBracketed(SegmentTexts(segments));
    SegmentFields(segments);
  }

  /** Blanks, brackets and commas part a text: on either side of one the text is read by itself. */
  lemma PartsReadAlone(a: string, c: char, b: string)
    requires c in {' ', '[', ']', ','}
    ensures ParsedPath(a + [c] + b) == ParsedPath(a) + ParsedPath(b)
  {
    FieldsSplit(a, c, b, [], IsSeparator);
    NumbersInBoth(Fields(a, IsSeparator), Fields(b, IsSeparator));
  }

  /** A piece without any of them is an AS number exactly when it is a decimal below 2^32; otherwise it is skipped. */
  lemma PieceReads(piece: string)
    requires forall c :: c in piece ==> c !in {' ', '[', ']', ','}
    ensures ParsedPath(piece) ==
      if piece != [] && AllDigits(piece) && DigitsValue(piece) < 0x1_0000_0000 then [DigitsValue(piece)] else []
  {
    forall i | 0 <= i < |piece| ensures !IsSeparator(piece[i]) {
      assert piece[i] in piece;
    }
    FieldsOfToken(piece, [], IsSeparator);
    assert [] + piece == piece;
    if piece != [] {
      assert [piece][..0] == [];
      assert NumbersIn([]) == [];
    }
  }

  // ---- The key of a path ----

  function PathKey(path: seq<Asn>): string {
    Join(DecimalAll(path), " ")
  }

  method AsPathKey(path: seq<Asn>) returns (key: string)
    ensures key == PathKey(path)
  {
    var parts: seq<string> := [];
    for i := 0 to |path|
      invariant parts == DecimalAll(path[..i])
    {
      assert path[..i + 1][..i] == path[..i];
      parts := parts + [Decimal(path[i])];
    }
    assert path[..|path|] == path;
    key := Join(parts, " ");
  }

  lemma KeyRoundTrip(path: seq<Asn>)
    ensures ParsedPath(PathKey(path)) == path
  {
    FieldsOfJoin(DecimalAll(path), ' ', IsSeparator);
    FieldsOfDecimals(path);
    NumbersOfDecimals(path);
  }

  /** Two paths have the same key exactly when they are the same path. */
  lemma KeyInjective(a: seq<Asn>, b: seq<Asn>)
    ensures PathKey(a) == PathKey(b) <==> a == b
  {
    KeyRoundTrip(a);
    KeyRoundTrip(b);
  }
}
