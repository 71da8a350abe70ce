/** The order of strings by their characters. */
module StringOrder {

  /** Byte order of strings; on UTF-8 it is the order of the characters. */
  predicate Less(a: string, b: string) {
    b != [] && (a == [] || a[0] < b[0] || (a[0] == b[0] && Less(a[1..], b[1..])))
  }

  lemma {:induction false} LessIrreflexive(a: string)
    ensures !Less(a, a)
  {
    if a != [] {
      LessIrreflexive(a[1..]);
    }
  }

  lemma {:induction false} LessTransitive(a: string, b: string, c: string)
    requires Less(a, b) && Less(b, c)
    ensures Less(a, c)
  {
    if a != [] && a[0] == b[0] && b[0] == c[0] {
      LessTransitive(a[1..], b[1..], c[1..]);
    }
  }

  lemma {:induction false} LessTotal(a: string, b: string)
    ensures Less(a, b) || a == b || Less(b, a)
  {
    if a != [] && b != [] && a[0] == b[0] {
      LessTotal(a[1..], b[1..]);
      assert a == [a[0]] + a[1..] && b == [b[0]] + b[1..];
    }
  }

  /** With prefixes of equal length the order is decided by them first. */
  lemma {:induction false} LessConcat(a: string, x: string, b: string, y: string)
    requires |a| == |b|
    ensures Less(a + x, b + y) <==> Less(a, b) || (a == b && Less(x, y))
  {
    if a == [] {
      assert a + x == x && b + y == y;
    } else {
      assert (a + x)[1..] == a[1..] + x && (b + y)[1..] == b[1..] + y;
      LessConcat(a[1..], x, b[1..], y);
      assert a == [a[0]] + a[1..] && b == [b[0]] + b[1..];
    }
  }

  /** A text without colons, up to where another such text differs from it or it ends. */
  predicate Continues(x: string) {
    x == [] || x[0] == ':'
  }

  predicate NoColon(s: string) {
    forall i :: 0 <= i < |s| ==> s[i] != ':'
  }

  /** What follows a piece in a text joined by colons: a colon, or nothing after the last one. */
  function Follow(x: string): string {
    if x == [] then [] else [x[0]]
  }

  /** Two different pieces decide the order of the texts they begin, each with the colon or end that follows. */
  lemma {:induction false} LessAtDifference(a: string, x: string, b: string, y: string)
    requires a != b && NoColon(a) && NoColon(b) && Continues(x) && Continues(y)
    ensures Less(a + x, b + y) <==> Less(a + Follow(x), b + Follow(y))
    decreases a
  {
    if a == [] {
      assert a + x == x && a + Follow(x) == Follow(x);
    } else if b == [] {
      assert b + y == y && b + Follow(y) == Follow(y);
    } else {
      assert (a + x)[1..] == a[1..] + x && (b + y)[1..] == b[1..] + y;
      assert (a + Follow(x))[1..] == a[1..] + Follow(x) && (b + Follow(y))[1..] == b[1..] + Follow(y);
      if a[0] == b[0] {
        assert a == [a[0]] + a[1..] && b == [b[0]] + b[1..];
        LessAtDifference(a[1..], x, b[1..], y);
      }
    }
  }
}
