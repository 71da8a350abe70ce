/** Text helpers the modelled code relies on: decimal numbers, separated fields, joining and trimming. */
module Text {

  import opened Options

  // ---- Decimal numbers ----

  predicate IsDigit(c: char) {
    '0' <= c <= '9'
  }

  predicate AllDigits(s: string) {
    forall i :: 0 <= i < |s| ==> IsDigit(s[i])
  }

  function DigitChar(d: nat): (c: char)
    requires d < 10
    ensures IsDigit(c) && DigitValue(c) == d
  {
    ('0' as int + d) as char
  }

  function DigitValue(c: char): nat
    requires IsDigit(c)
  {
    c as int - '0' as int
  }

  /** The shortest decimal form of a number. */
  function Decimal(n: nat): (s: string)
    ensures s != [] && AllDigits(s)
  {
    if n < 10 then [DigitChar(n)] else Decimal(n / 10) + [DigitChar(n % 10)]
  }

  function DigitsValue(s: string): nat
    requires AllDigits(s)
  {
    if s == [] then 0 else DigitsValue(s[..|s| - 1]) * 10 + DigitValue(s[|s| - 1])
  }

  /** An unsigned number of at most the given size, in decimal; anything else is an error. */
  function ParseUint(s: string, bound: nat): Option<nat> {
    if s == [] || !AllDigits(s) || DigitsValue(s) >= bound then None else Some(DigitsValue(s))
  }

  lemma {:induction false} DecimalValue(n: nat)
    ensures DigitsValue(Decimal(n)) == n
  {
    if n >= 10 {
      DecimalValue(n / 10);
      assert Decimal(n)[..|Decimal(n)| - 1] == Decimal(n / 10);
    }
  }

  lemma ParseDecimal(n: nat, bound: nat)
    requires n < bound
    ensures ParseUint(Decimal(n), bound) == Some(n)
  {
    DecimalValue(n);
  }

  /** A lower-case hexadecimal digit. */
  function LowerHex(d: nat): char
    requires d < 16
  {
    if d < 10 then ('0' as int + d) as char else ('a' as int + d - 10) as char
  }

  // ---- Joining and splitting ----

  function Join<T>(parts: seq<seq<T>>, sep: seq<T>): seq<T> {
    if parts == [] then []
    else if |parts| == 1 then parts[0]
    else Join(parts[..|parts| - 1], sep) + sep + parts[|parts| - 1]
  }

  /** The maximal runs of characters that are not separators; `run` is the one being read. */
  function FieldsFrom(s: string, run: string, isSep: char -> bool): seq<string>
    decreases s
  {
    var finished := if run == [] then [] else [run];
    if s == [] then finished
    else if isSep(s[0]) then finished + FieldsFrom(s[1..], [], isSep)
    else FieldsFrom(s[1..], run + [s[0]], isSep)
  }

  function Fields(s: string, isSep: char -> bool): seq<string> {
    FieldsFrom(s, [], isSep)
  }

  /** A separator splits the fields of a text. */
  lemma {:induction false} FieldsSplit(a: string, c: char, b: string, run: string, isSep: char -> bool)
    requires isSep(c)
    ensures FieldsFrom(a + [c] + b, run, isSep) == FieldsFrom(a, run, isSep) + Fields(b, isSep)
    decreases a
  {
    var s := a + [c] + b;
    if a == [] {
      assert s[1..] == b;
    } else {
      assert s[0] == a[0] && s[1..] == a[1..] + [c] + b;
      FieldsSplit(a[1..], c, b, if isSep(a[0]) then [] else run + [a[0]], isSep);
    }
  }

  /** A text without separators is a single field. */
  lemma {:induction false} FieldsOfToken(token: string, run: string, isSep: char -> bool)
    requires forall i :: 0 <= i < |token| ==> !isSep(token[i])
    ensures FieldsFrom(token, run, isSep) == if run + token == [] then [] else [run + token]
    decreases token
  {
    if token == [] {
      assert run + token == run;
    } else {
      FieldsOfToken(token[1..], run + [token[0]], isSep);
      assert run + [token[0]] + token[1..] == run + token;
    }
  }

  /** The fields of all parts, in order. */
  function FieldsOfAll(parts: seq<string>, isSep: char -> bool): seq<string> {
    if parts == [] then [] else FieldsOfAll(parts[..|parts| - 1], isSep) + Fields(parts[|parts| - 1], isSep)
  }

  lemma {:induction false} FieldsOfJoin(parts: seq<string>, c: char, isSep: char -> bool)
    requires isSep(c)
    ensures Fields(Join(parts, [c]), isSep) == FieldsOfAll(parts, isSep)
  {
    if parts == [] {
    } else if |parts| == 1 {
      assert parts[..0] == [];
      assert FieldsOfAll(parts, isSep) == [] + Fields(parts[0], isSep);
    } else {
      FieldsOfJoin(parts[..|parts| - 1], c, isSep);
      FieldsSplit(Join(parts[..|parts| - 1], [c]), c, parts[|parts| - 1], [], isSep);
    }
  }

  /** The pieces between separators, empty ones included; `run` is the one being read. */
  function Split(s: string, run: string, isSep: char -> bool): seq<string>
    decreases s
  {
    if s == [] then [run]
    else if isSep(s[0]) then [run] + Split(s[1..], [], isSep)
    else Split(s[1..], run + [s[0]], isSep)
  }

  lemma {:induction false} SplitAt(piece: string, c: char, rest: string, run: string, isSep: char -> bool)
    requires isSep(c) && forall i :: 0 <= i < |piece| ==> !isSep(piece[i])
    ensures Split(piece + [c] + rest, run, isSep) == [run + piece] + Split(rest, [], isSep)
    decreases piece
  {
    var s := piece + [c] + rest;
    if piece == [] {
      assert s[1..] == rest && run + piece == run;
    } else {
      assert s[0] == piece[0] && s[1..] == piece[1..] + [c] + rest;
      SplitAt(piece[1..], c, rest, run + [piece[0]], isSep);
      assert run + [piece[0]] + piece[1..] == run + piece;
    }
  }

  /** Joining tokens by a separator and splitting again gives the tokens back. */
  lemma TokensOfJoin(tokens: seq<string>, c: char, isSep: char -> bool)
    requires isSep(c) && AllTokens(tokens, isSep)
    ensures Fields(Join(tokens, [c]), isSep) == tokens
  {
    FieldsOfJoin(tokens, c, isSep);
    FieldsOfTokens(tokens, isSep);
  }

  predicate IsToken(s: string, isSep: char -> bool) {
    s != [] && forall i :: 0 <= i < |s| ==> !isSep(s[i])
  }

  predicate AllTokens(tokens: seq<string>, isSep: char -> bool) {
    forall i :: 0 <= i < |tokens| ==> IsToken(tokens[i], isSep)
  }

  lemma {:induction false} FieldsOfTokens(tokens: seq<string>, isSep: char -> bool)
    requires AllTokens(tokens, isSep)
    ensures FieldsOfAll(tokens, isSep) == tokens
  {
    if tokens != [] {
      var front, last := tokens[..|tokens| - 1], tokens[|tokens| - 1];
      FieldsOfTokens(front, isSep);
      FieldsOfToken(last, [], isSep);
      assert [] + last == last && front + [last] == tokens;
    }
  }

  /** Fields are tokens. */
  lemma {:induction false} FieldsAreTokens(s: string, run: string, isSep: char -> bool)
    requires forall i :: 0 <= i < |run| ==> !isSep(run[i])
    ensures AllTokens(FieldsFrom(s, run, isSep), isSep)
    decreases s
  {
    if s != [] {
      FieldsAreTokens(s[1..], if isSep(s[0]) then [] else run + [s[0]], isSep);
    }
  }

  // ---- Trimming ----

  predicate IsSpace(c: char) {
    c in {' ', '\t', '\n', '\r', '\U{000B}', '\U{000C}', '\U{0085}', '\U{00A0}', '\U{1680}', '\U{2028}', '\U{2029}',
      '\U{202F}', '\U{205F}', '\U{3000}'}
    || '\U{2000}' <= c <= '\U{200A}'
  }

  function TrimLeft(s: string): string {
    if s != [] && IsSpace(s[0]) then TrimLeft(s[1..]) else s
  }

  function TrimRight(s: string): string {
    if s != [] && IsSpace(s[|s| - 1]) then TrimRight(s[..|s| - 1]) else s
  }

  function TrimSpace(s: string): string {
    TrimRight(TrimLeft(s))
  }

  lemma {:induction false} TrimLeftSnoc(s: string, c: char)
    requires IsSpace(c)
    ensures TrimLeft(s + [c]) == if TrimLeft(s) == [] then [] else TrimLeft(s) + [c]
  {
    if s == [] {
      assert ([] + [c])[1..] == [];
    } else if IsSpace(s[0]) {
      assert (s + [c])[1..] == s[1..] + [c];
      TrimLeftSnoc(s[1..], c);
    }
  }

  /** Blanks at the ends do not matter to trimming. */
  lemma TrimSpaceAround(s: string, c: char)
    requires IsSpace(c)
    ensures TrimSpace(s + [c]) == TrimSpace(s) && TrimSpace([c] + s) == TrimSpace(s)
  {
    TrimLeftSnoc(s, c);
    var left := TrimLeft(s);
    if left != [] {
      assert (left + [c])[..|left|] == left;
    }
    assert ([c] + s)[1..] == s;
  }

  predicate AllSpace(s: string) {
    forall i :: 0 <= i < |s| ==> IsSpace(s[i])
  }

  lemma {:induction false} TrimLeftIs(s: string) returns (before: string)
    ensures s == before + TrimLeft(s) && AllSpace(before)
    ensures TrimLeft(s) == "" || !IsSpace(TrimLeft(s)[0])
  {
    before := "";
    if s != [] && IsSpace(s[0]) {
      var rest := TrimLeftIs(s[1..]);
      before := [s[0]] + rest;
    }
  }

  lemma {:induction false} TrimRightIs(s: string) returns (after: string)
    ensures s == TrimRight(s) + after && AllSpace(after)
    ensures TrimRight(s) == "" || (!IsSpace(TrimRight(s)[|TrimRight(s)| - 1]) && TrimRight(s)[0] == s[0])
  {
    after := "";
    if s != [] && IsSpace(s[|s| - 1]) {
      var rest := TrimRightIs(s[..|s| - 1]);
      after := rest + [s[|s| - 1]];
    }
  }

  /** Trimming takes off the spaces on both sides, and nothing else. */
  lemma TrimSpaceIs(s: string) returns (before: string, after: string)
    ensures s == before + TrimSpace(s) + after && AllSpace(before) && AllSpace(after)
    ensures TrimSpace(s) == "" || (!IsSpace(TrimSpace(s)[0]) && !IsSpace(TrimSpace(s)[|TrimSpace(s)| - 1]))
  {
    before := TrimLeftIs(s);
    after := TrimRightIs(TrimLeft(s));
  }
}
