/** The BGP decision process as an ordering of what a received path carries. */
module BestPath {
  import opened AsPathText
  import opened Orders
  import opened StringOrder
  import opened Text

  // ---- Preference ----

  datatype Preference = Preference(localPref: Asn, asPathLen: nat, origin: nat, med: Asn, reflected: bool,
                                   clusterLen: nat, ageSec: int, nextHop: string, neighbor: string)

  predicate MorePreferred(a: Preference, b: Preference) {
    if a.localPref != b.localPref then a.localPref > b.localPref
    else if a.asPathLen != b.asPathLen then a.asPathLen < b.asPathLen
    else if a.origin != b.origin then a.origin < b.origin
    else if a.med != b.med then a.med < b.med
    else if a.reflected != b.reflected then !a.reflected
    else if a.clusterLen != b.clusterLen then a.clusterLen < b.clusterLen
    else if a.ageSec != b.ageSec then a.ageSec > b.ageSec
    else if a.nextHop != b.nextHop then Less(a.nextHop, b.nextHop)
    else Less(a.neighbor, b.neighbor)
  }

  lemma PreferenceIrreflexive(a: Preference)
    ensures !MorePreferred(a, a)
  {
    LessIrreflexive(a.neighbor);
  }

  lemma PreferenceTransitive(a: Preference, b: Preference, c: Preference)
    requires MorePreferred(a, b) && MorePreferred(b, c)
    ensures MorePreferred(a, c)
  {
    if Less(a.nextHop, b.nextHop) && Less(b.nextHop, c.nextHop) {
      LessTransitive(a.nextHop, b.nextHop, c.nextHop);
      LessIrreflexive(a.nextHop);
    }
    if Less(a.neighbor, b.neighbor) && Less(b.neighbor, c.neighbor) {
      LessTransitive(a.neighbor, b.neighbor, c.neighbor);
    }
  }

  /** Different records are always ordered one way, so nothing is left to the order of the input. */
  lemma PreferenceTotal(a: Preference, b: Preference)
    ensures MorePreferred(a, b) || a == b || MorePreferred(b, a)
    ensures !(MorePreferred(a, b) && MorePreferred(b, a))
  {
    LessTotal(a.nextHop, b.nextHop);
    LessTotal(a.neighbor, b.neighbor);
    if MorePreferred(a, b) && MorePreferred(b, a) {
      PreferenceTransitive(a, b, a);
      PreferenceIrreflexive(a);
    }
  }

  lemma PreferenceIsStrictTotal()
    ensures StrictTotalOrder(MorePreferred)
  {
    forall a, b ensures !MorePreferred(a, a) && (MorePreferred(a, b) || a == b || MorePreferred(b, a)) {
      PreferenceIrreflexive(a);
      PreferenceTotal(a, b);
    }
    forall a, b, c | MorePreferred(a, b) && MorePreferred(b, c) ensures MorePreferred(a, c) {
      PreferenceTransitive(a, b, c);
    }
  }

  // ---- Extraction ----

  const DEFAULT_LOCAL_PREF: Asn := 100

  function ParseUintOr(raw: string, fallback: Asn): Asn {
    match ParseUint(TrimSpace(raw), UINT32)
    case Some(v) => v
    case None => fallback
  }

  /** Upper case of the letters the origin names are made of; the dotless i has an upper case I too. */
  function ToUpper(s: string): string {
    if s == [] then [] else [Upper(s[0])] + ToUpper(s[1..])
  }

  function Upper(c: char): char {
    if 'a' <= c <= 'z' then (c as int - 32) as char else if c == '\U{0131}' then 'I' else c
  }

  function OriginRank(origin: string): nat {
    var name := ToUpper(TrimSpace(origin));
    if name == "IGP" || name == "I" then 0
    else if name == "EGP" || name == "E" then 1
    else if name == "INCOMPLETE" || name == "?" then 2
    else 3
  }
  // ---- What the fields say ----

  /** The 32-bit number a text states, or what counts when it states none. */
  function Stated(raw: string, absent: Asn): Asn {
    var digits := TrimSpace(raw);
    if digits != "" && AllDigits(digits) && DigitsValue(digits) < UINT32 then DigitsValue(digits) else absent
  }

  /** A letter in either case; a dotless i passes for an I. */
  predicate SameLetter(c: char, capital: char) {
    c == capital || ('A' <= capital <= 'Z' && c as int == capital as int + 32) || (capital == 'I' && c == '\U{0131}')
  }

  /** Whether the origin is given by this name, in any case and with blanks around it. */
  predicate IsNamed(origin: string, name: string) {
    var text := TrimSpace(origin);
    |text| == |name| && forall i :: 0 <= i < |name| ==> SameLetter(text[i], name[i])
  }

  /** IGP before EGP before incomplete before anything else. */
  function OriginClass(origin: string): nat {
    if IsNamed(origin, "IGP") || IsNamed(origin, "I") then 0
    else if IsNamed(origin, "EGP") || IsNamed(origin, "E") then 1
    else if IsNamed(origin, "INCOMPLETE") || IsNamed(origin, "?") then 2
    else 3
  }

  lemma {:induction false} UpperIs(text: string, name: string)
    requires forall i :: 0 <= i < |name| ==> name[i] == '?' || 'A' <= name[i] <= 'Z'
    ensures ToUpper(text) == name <==> |text| == |name| && forall i :: 0 <= i < |name| ==> SameLetter(text[i], name[i])
  {
    if text != [] {
      if name != [] {
        UpperIs(text[1..], name[1..]);
        assert name == [name[0]] + name[1..];
        LetterIs(text[0], name[0]);
        if |text| == |name| {
          TailLetters(text, name);
        }
      }
    }
  }

  lemma LetterIs(c: char, capital: char)
    requires capital == '?' || 'A' <= capital <= 'Z'
    ensures Upper(c) == capital <==> SameLetter(c, capital)
  {
  }

  lemma TailLetters(text: string, name: string)
    requires |text| == |name| > 0
    ensures (forall i :: 0 <= i < |name| ==> SameLetter(text[i], name[i])) <==>
      SameLetter(text[0], name[0]) && forall i :: 0 <= i < |name[1..]| ==> SameLetter(text[1..][i], name[1..][i])
  {
    if SameLetter(text[0], name[0]) && forall i :: 0 <= i < |name[1..]| ==> SameLetter(text[1..][i], name[1..][i]) {
      forall i | 0 <= i < |name| ensures SameLetter(text[i], name[i]) {
        if i > 0 {
          assert SameLetter(text[1..][i - 1], name[1..][i - 1]);
        }
      }
    }
  }

  lemma NamedIs(origin: string, name: string)
    requires forall i :: 0 <= i < |name| ==> name[i] == '?' || 'A' <= name[i] <= 'Z'
    ensures ToUpper(TrimSpace(origin)) == name <==> IsNamed(origin, name)
  {
    UpperIs(TrimSpace(origin), name);
  }

  lemma RankIsClass(origin: string)
    ensures OriginRank(origin) == OriginClass(origin)
  {
    NamedIs(origin, "IGP");
    NamedIs(origin, "I");
    NamedIs(origin, "EGP");
    NamedIs(origin, "E");
    NamedIs(origin, "INCOMPLETE");
    NamedIs(origin, "?");
  }

  lemma StatedIs(raw: string, absent: Asn)
    ensures ParseUintOr(raw, absent) == Stated(raw, absent)
  {
  }
}
