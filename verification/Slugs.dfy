/** Node names as path segments. What Unicode normalisation and case folding make of a name is given; from
    there on the slug is built from its letters a-z and digits alone. */
module Slugs {

  import opened Text

  predicate IsSlugChar(c: char) {
    'a' <= c <= 'z' || '0' <= c <= '9'
  }

  predicate IsGap(c: char) {
    !IsSlugChar(c)
  }

  /** The maximal runs of slug characters, joined by single dashes. */
  function Slug(folded: string): string {
    Join(Fields(folded, IsGap), "-")
  }

  // ---- Reading one more character ----

  /** Whether the text, read after `run`, ends inside a run. */
  predicate EndsInRun(s: string, run: string) {
    if s == [] then run != [] else IsSlugChar(s[|s| - 1])
  }

  function ExtendLast(parts: seq<string>, c: char): seq<string>
    requires parts != []
  {
    parts[..|parts| - 1] + [parts[|parts| - 1] + [c]]
  }

  /** Reading on after one character: the run it leaves and the fields it finishes. */
  lemma FieldsStep(s: string, run: string)
    requires s != []
    ensures IsGap(s[0]) ==>
      FieldsFrom(s, run, IsGap) == (if run == [] then [] else [run]) + FieldsFrom(s[1..], [], IsGap)
    ensures !IsGap(s[0]) ==> FieldsFrom(s, run, IsGap) == FieldsFrom(s[1..], run + [s[0]], IsGap)
  {
  }

  lemma FieldsOfOne(c: char, run: string)
    ensures FieldsFrom([c], run, IsGap) == if !IsGap(c) then [run + [c]] else if run == [] then [] else [run]
  {
    assert [c][1..] == [];
  }

  lemma SnocTail(s: string, c: char)
    requires s != []
    ensures (s + [c])[0] == s[0] && (s + [c])[1..] == s[1..] + [c]
  {
  }

  lemma {:induction false} GapSnoc(s: string, c: char, run: string)
    requires IsGap(c)
    ensures FieldsFrom(s + [c], run, IsGap) == FieldsFrom(s, run, IsGap)
    decreases s
  {
    if s == [] {
      FieldsOfOne(c, run);
    } else {
      SnocTail(s, c);
      FieldsStep(s, run);
      FieldsStep(s + [c], run);
      GapSnoc(s[1..], c, if IsGap(s[0]) then [] else run + [s[0]]);
    }
  }

  lemma {:induction false} NewRunSnoc(s: string, c: char, run: string)
    requires !IsGap(c) && !EndsInRun(s, run)
    ensures FieldsFrom(s + [c], run, IsGap) == FieldsFrom(s, run, IsGap) + [[c]]
    decreases s
  {
    if s == [] {
      FieldsOfOne(c, run);
      assert run + [c] == [c] && FieldsFrom(s, run, IsGap) + [[c]] == [[c]];
      assert s + [c] == [c];
    } else {
      SnocTail(s, c);
      FieldsStep(s, run);
      FieldsStep(s + [c], run);
      NewRunSnoc(s[1..], c, if IsGap(s[0]) then [] else run + [s[0]]);
    }
  }

  lemma {:induction false} SameRunSnoc(s: string, c: char, run: string)
    requires !IsGap(c) && EndsInRun(s, run)
    ensures FieldsFrom(s, run, IsGap) != []
    ensures FieldsFrom(s + [c], run, IsGap) == ExtendLast(FieldsFrom(s, run, IsGap), c)
    decreases s
  {
    if s == [] {
      FieldsOfOne(c, run);
    } else {
      SnocTail(s, c);
      FieldsStep(s, run);
      FieldsStep(s + [c], run);
      SameRunSnoc(s[1..], c, if IsGap(s[0]) then [] else run + [s[0]]);
      if IsGap(s[0]) {
        ExtendAfter(if run == [] then [] else [run], FieldsFrom(s[1..], [], IsGap), c);
      }
    }
  }

  lemma ExtendAfter(first: seq<string>, parts: seq<string>, c: char)
    requires parts != []
    ensures ExtendLast(first + parts, c) == first + ExtendLast(parts, c)
  {
  }

  lemma JoinExtended(parts: seq<string>, c: char)
    requires parts != []
    ensures Join(ExtendLast(parts, c), "-") == Join(parts, "-") + [c]
  {
    var longer := ExtendLast(parts, c);
    assert longer[..|longer| - 1] == parts[..|parts| - 1];
  }

  lemma JoinSnoc(parts: seq<string>, part: string)
    ensures Join(parts + [part], "-") == if parts == [] then part else Join(parts, "-") + "-" + part
  {
    assert (parts + [part])[..|parts|] == parts;
  }

  /** What one more character does to a slug. */
  lemma SlugSnoc(s: string, c: char)
    ensures Slug(s + [c]) ==
      if !('a' <= c <= 'z' || '0' <= c <= '9') then Slug(s)
      else if EndsInRun(s, []) || Slug(s) == [] then Slug(s) + [c]
      else Slug(s) + "-" + [c]
  {
    var before := Fields(s, IsGap);
    FieldsAreTokens(s, [], IsGap);
    if before != [] {
      JoinOfTokens(before);
    }
    if IsGap(c) {
      GapSnoc(s, c, []);
    } else if EndsInRun(s, []) {
      SameRunSnoc(s, c, []);
      JoinExtended(before, c);
    } else {
      NewRunSnoc(s, c, []);
      JoinSnoc(before, [c]);
    }
  }

  /** A non-empty list of runs joins to a text that begins and ends with slug characters. */
  lemma {:induction false} JoinOfTokens(parts: seq<string>)
    requires parts != [] && AllTokens(parts, IsGap)
    ensures var s := Join(parts, "-"); s != [] && IsSlugChar(s[0]) && IsSlugChar(s[|s| - 1])
  {
    if |parts| > 1 {
      JoinOfTokens(parts[..|parts| - 1]);
    }
  }

  // ---- The frontend: replace every gap by a dash, then strip dashes ----

  /** Every maximal run of other characters becomes one dash. */
  function Dashed(s: string): string {
    if s == [] then []
    else
      var front, c := s[..|s| - 1], s[|s| - 1];
      if IsSlugChar(c) then Dashed(front) + [c]
      else if front != [] && IsGap(front[|front| - 1]) then Dashed(front)
      else Dashed(front) + "-"
  }

  function StripLeft(s: string): string {
    if s != [] && s[0] == '-' then StripLeft(s[1..]) else s
  }

  function StripRight(s: string): string {
    if s != [] && s[|s| - 1] == '-' then StripRight(s[..|s| - 1]) else s
  }

  /** The frontend's slug of a folded name. */
  function SlugifyNodeName(folded: string): string {
    StripRight(StripLeft(Dashed(folded)))
  }

  predicate BeginsInGap(s: string) {
    s != [] && IsGap(s[0])
  }

  predicate EndsInGap(s: string) {
    s != [] && IsGap(s[|s| - 1])
  }

  function Padded(before: bool, slug: string, after: bool): string {
    (if before then "-" else "") + slug + if after then "-" else ""
  }

  lemma DashedSnoc(s: string, c: char)
    ensures Dashed(s + [c]) ==
      if IsSlugChar(c) then Dashed(s) + [c] else if EndsInGap(s) then Dashed(s) else Dashed(s) + "-"
  {
    assert (s + [c])[..|s|] == s;
  }

  lemma EmptySlug(s: string)
    requires Slug(s) == [] ==> forall i :: 0 <= i < |s| ==> IsGap(s[i])
    ensures s == [] ==> Slug(s) == []
    ensures Slug(s) == [] && s != [] ==> BeginsInGap(s) && EndsInGap(s)
  {
  }

  lemma RunOrGap(s: string)
    ensures EndsInRun(s, []) <==> s != [] && !EndsInGap(s)
  {
  }

  lemma EndsSnoc(front: string, c: char)
    ensures EndsInGap(front + [c]) == IsGap(c)
    ensures BeginsInGap(front + [c]) == if front == [] then IsGap(c) else BeginsInGap(front)
  {
  }

  /** One more character of a padded slug: `begins` and `ends` say whether the text read so far does so in a gap. */
  lemma PadNext(slug: string, empty: bool, begins: bool, ends: bool, c: char)
    requires empty ==> slug == [] && !begins && !ends
    requires slug == [] && !empty ==> begins && ends
    ensures var dashed := Padded(begins, slug, slug != [] && ends);
      if IsGap(c) then
        (if ends then dashed else dashed + "-") == Padded(empty || begins, slug, slug != [])
      else
        var longer := if slug != [] && ends then slug + "-" + [c] else slug + [c];
        dashed + [c] == Padded(begins, longer, false)
  {
    if IsGap(c) {
      assert slug + "" + "-" == slug + "-";
    } else if slug != [] && ends {
      assert Padded(begins, slug, true) + [c] == (if begins then "-" else "") + (slug + "-" + [c]) + "";
    } else {
      assert Padded(begins, slug, false) + [c] == (if begins then "-" else "") + (slug + [c]) + "";
    }
  }

  lemma DashedStep(front: string, c: char)
    requires Dashed(front) == Padded(BeginsInGap(front), Slug(front), Slug(front) != [] && EndsInGap(front))
    requires Slug(front) == [] ==> forall i :: 0 <= i < |front| ==> IsGap(front[i])
    ensures var s := front + [c]; Dashed(s) == Padded(BeginsInGap(s), Slug(s), Slug(s) != [] && EndsInGap(s))
  {
    EndsSnoc(front, c);
    DashedSnoc(front, c);
    SlugSnoc(front, c);
    RunOrGap(front);
    EmptySlug(front);
    PadNext(Slug(front), front == [], BeginsInGap(front), EndsInGap(front), c);
  }

  /** The dashed text is the slug with at most one dash before and one after it. */
  lemma {:induction false} DashedIsSlug(s: string)
    ensures Dashed(s) == Padded(BeginsInGap(s), Slug(s), Slug(s) != [] && EndsInGap(s))
    ensures Slug(s) == [] ==> forall i :: 0 <= i < |s| ==> IsGap(s[i])
  {
    if s != [] {
      var front, c := s[..|s| - 1], s[|s| - 1];
      assert s == front + [c];
      DashedIsSlug(front);
      DashedStep(front, c);
      SlugSnoc(front, c);
    }
  }

  /** Replacing gaps by dashes and stripping the ends joins the runs by dashes. */
  lemma SlugifyIsSlug(folded: string)
    ensures SlugifyNodeName(folded) == Slug(folded)
  {
    DashedIsSlug(folded);
    SlugEnds(folded);
    StripDashes(Slug(folded), BeginsInGap(folded), Slug(folded) != [] && EndsInGap(folded));
  }

  lemma SlugEnds(s: string)
    ensures Slug(s) != [] ==> IsSlugChar(Slug(s)[0]) && IsSlugChar(Slug(s)[|Slug(s)| - 1])
  {
    FieldsAreTokens(s, [], IsGap);
    if Fields(s, IsGap) != [] {
      JoinOfTokens(Fields(s, IsGap));
    }
  }

  lemma StripDashes(slug: string, before: bool, after: bool)
    requires slug != [] ==> slug[0] != '-' && slug[|slug| - 1] != '-'
    requires slug == [] ==> !after
    ensures StripRight(StripLeft(Padded(before, slug, after))) == slug
  {
    var left := slug + if after then "-" else "";
    assert Padded(before, slug, after) == (if before then "-" else "") + left;
    StripFirst(left, before);
    StripLast(slug, after);
  }

  lemma StripFirst(s: string, before: bool)
    requires s != [] ==> s[0] != '-'
    ensures StripLeft((if before then "-" else "") + s) == s
  {
    if before {
      assert ("-" + s)[1..] == s;
    } else {
      assert "" + s == s;
    }
  }

  lemma StripLast(s: string, after: bool)
    requires s != [] ==> s[|s| - 1] != '-'
    ensures StripRight(s + if after then "-" else "") == s
  {
    if after {
      assert (s + "-")[..|s|] == s;
    } else {
      assert s + "" == s;
    }
  }

  // ---- The server: one pass with a dash flag ----

  /** The server's slug of a folded name is the frontend's. */
  method SlugifyOnServer(folded: string) returns (b: string)
    ensures b == SlugifyNodeName(folded)
  {
    b := [];
    var dash := false;
    for i := 0 to |folded|
      invariant b == Slug(folded[..i])
      invariant dash == (i > 0 && IsGap(folded[i - 1]))
    {
      var c := folded[i];
      SlugSnoc(folded[..i], c);
      assert folded[..i + 1] == folded[..i] + [c];
      if IsSlugChar(c) {
        if dash && |b| > 0 {
          b := b + "-";
        }
        dash := false;
        b := b + [c];
      } else {
        dash := true;
      }
    }
    assert folded[..|folded|] == folded;
    SlugifyIsSlug(folded);
  }

  // ---- What slugs are ----

  lemma {:induction false} JoinChars(parts: seq<string>)
    requires AllTokens(parts, IsGap)
    ensures forall i :: 0 <= i < |Join(parts, "-")| ==> IsSlugChar(Join(parts, "-")[i]) || Join(parts, "-")[i] == '-'
  {
    if |parts| > 1 {
      JoinChars(parts[..|parts| - 1]);
    }
  }

  /** A slug is made of slug characters and dashes, and is its own slug. */
  lemma SlugIsStable(folded: string)
    ensures Slug(Slug(folded)) == Slug(folded)
    ensures forall i :: 0 <= i < |Slug(folded)| ==> IsSlugChar(Slug(folded)[i]) || Slug(folded)[i] == '-'
  {
    var parts := Fields(folded, IsGap);
    FieldsAreTokens(folded, [], IsGap);
    TokensOfJoin(parts, '-', IsGap);
    JoinChars(parts);
  }
}
