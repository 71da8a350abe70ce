/** Router addresses and the keys they are ordered by. */
module Addresses {
  import opened Ipv6
  import opened Ipv6Order
  import opened StringOrder
  import opened Text

  type Octet = n: nat | n < 256

  /** An address as the parser understood it; anything else keeps its lower-cased text. */
  datatype Address = V4(a: Octet, b: Octet, c: Octet, d: Octet) | V6(groups: Groups) | Unparsed(text: string)

  /** Three digits with leading zeros. */
  function Pad3(n: Octet): string {
    [DigitChar(n / 100), DigitChar(n / 10 % 10), DigitChar(n % 10)]
  }

  function AddressKey(address: Address): string {
    match address
    case V4(a, b, c, d) => "4:" + (Pad3(a) + ("." + (Pad3(b) + ("." + (Pad3(c) + ("." + Pad3(d)))))))
    case V6(groups) => "6:" + Canonical(groups)
    case Unparsed(text) => text
  }

  /** The number an address is, within its own family. */
  function Number(address: Address): nat
    requires !address.Unparsed?
  {
    match address
    case V4(a, b, c, d) => ((a * 256 + b) * 256 + c) * 256 + d
    case V6(groups) => Value(groups)
  }

  lemma LessThree(p: string, q: string)
    requires |p| == |q| == 3
    ensures Less(p, q) <==> p[0] < q[0] || (p[0] == q[0] && (p[1] < q[1] || (p[1] == q[1] && p[2] < q[2])))
  {
    LessConcat([p[0]], p[1..], [q[0]], q[1..]);
    LessConcat([p[1]], p[2..], [q[1]], q[2..]);
    assert p == [p[0]] + p[1..] && q == [q[0]] + q[1..];
    assert p[1..] == [p[1]] + p[2..] && q[1..] == [q[1]] + q[2..];
    assert p[2..] == [p[2]] && q[2..] == [q[2]];
    LessIrreflexive([p[0]]);
    LessIrreflexive([p[1]]);
  }

  lemma ThreeDigits(n: Octet)
    ensures |Pad3(n)| == 3 && AllDigits(Pad3(n))
    ensures n == DigitValue(Pad3(n)[0]) * 100 + DigitValue(Pad3(n)[1]) * 10 + DigitValue(Pad3(n)[2])
  {
    assert n == n / 10 * 10 + n % 10 && n / 10 == n / 10 / 10 * 10 + n / 10 % 10 && n / 10 / 10 == n / 100;
  }

  lemma Pad3Order(m: Octet, n: Octet)
    ensures Less(Pad3(m), Pad3(n)) <==> m < n
    ensures Pad3(m) == Pad3(n) <==> m == n
  {
    var p, q := Pad3(m), Pad3(n);
    LessThree(p, q);
    ThreeDigits(m);
    ThreeDigits(n);
    assert forall c: char, d: char :: IsDigit(c) && IsDigit(d) ==> (c < d <==> DigitValue(c) < DigitValue(d));
  }

  /** One octet ahead of the rest of the key. */
  lemma OctetFirst(m: Octet, x: string, n: Octet, y: string)
    ensures Less(Pad3(m) + x, Pad3(n) + y) <==> m < n || (m == n && Less(x, y))
  {
    Pad3Order(m, n);
    LessConcat(Pad3(m), x, Pad3(n), y);
    LessIrreflexive(Pad3(m));
  }

  lemma DotFirst(x: string, y: string)
    ensures Less("." + x, "." + y) <==> Less(x, y)
  {
    LessConcat(".", x, ".", y);
    LessIrreflexive(".");
  }

  /** IPv4 keys are ordered as the addresses are, as numbers. */
  lemma V4Numeric(s: Address, t: Address)
    requires s.V4? && t.V4?
    ensures Less(AddressKey(s), AddressKey(t)) <==> Number(s) < Number(t)
  {
    var s3, t3 := Pad3(s.d), Pad3(t.d);
    var s2, t2 := Pad3(s.c) + ("." + s3), Pad3(t.c) + ("." + t3);
    var s1, t1 := Pad3(s.b) + ("." + s2), Pad3(t.b) + ("." + t2);
    var s0, t0 := Pad3(s.a) + ("." + s1), Pad3(t.a) + ("." + t1);
    Pad3Order(s.d, t.d);
    DotFirst(s3, t3);
    OctetFirst(s.c, "." + s3, t.c, "." + t3);
    DotFirst(s2, t2);
    OctetFirst(s.b, "." + s2, t.b, "." + t2);
    DotFirst(s1, t1);
    OctetFirst(s.a, "." + s1, t.a, "." + t1);
    LessConcat("4:", s0, "4:", t0);
    LessIrreflexive("4:");
  }

  /** Every IPv4 key comes before every IPv6 key. */
  lemma V4BeforeV6(s: Address, t: Address)
    requires s.V4? && t.V6?
    ensures Less(AddressKey(s), AddressKey(t))
  {
    assert AddressKey(s)[0] == '4' && AddressKey(t)[0] == '6';
  }

  /** The numeric order of IPv6 keys holds for two addresses exactly under a condition on one pair of their groups,
      whichever runs of zeros they shorten. */
  lemma V6NumericIff(s: Groups, t: Groups, i: nat)
    requires FirstDifference(s, t, i)
    ensures (Less(AddressKey(V6(s)), AddressKey(V6(t))) <==> Number(V6(s)) < Number(V6(t))) <==> NumericAt(s, t, i)
  {
    SamePiece("6:", Canonical(s), Canonical(t));
    NumericIff(s, t, i);
  }

  /** For addresses that shorten the same run of zeros, or none: the keys are in numeric order exactly when the
      hexadecimal texts of the first groups that differ, with what follows them, compare as the groups do. */
  lemma V6SameRunIff(s: Groups, t: Groups, i: nat)
    requires SameRun(s, t) && FirstDifference(s, t, i)
    ensures var end := if i + 1 < GROUPS then ":" else "";
      (Less(AddressKey(V6(s)), AddressKey(V6(t))) <==> Number(V6(s)) < Number(V6(t)))
      <==> (Less(HexText(s[i]) + end, HexText(t[i]) + end) <==> s[i] < t[i])
  {
    V6NumericIff(s, t, i);
  }

  /** For an address that shortens an earlier run than another, from that run on: the keys are in numeric order exactly
      when the group the other one shows there begins with a letter and it is the larger address, or with a decimal
      digit and it is the smaller one. */
  lemma V6EarlierRunIff(s: Groups, t: Groups, i: nat)
    requires FirstDifference(s, t, i) && RunStart(s) < RunStart(t) && RunStart(s) <= i
    ensures (Less(AddressKey(V6(s)), AddressKey(V6(t))) <==> Number(V6(s)) < Number(V6(t)))
      <==> (':' < HexText(t[RunStart(s)])[0] <==> s[i] < t[i])
  {
    V6NumericIff(s, t, i);
  }

  // 2001:db8::9 and 2001:db8::10
  const NINE: Groups := [0x2001, 0xdb8, 0, 0, 0, 0, 0, 9]
  const SIXTEEN: Groups := [0x2001, 0xdb8, 0, 0, 0, 0, 0, 16]

  lemma TheirRuns()
    ensures SameRun(NINE, SIXTEEN) && RunStart(NINE) == 2 && FirstDifference(NINE, SIXTEEN, 7)
  {
    RunOf(NINE, 9);
    RunOf(SIXTEEN, 16);
  }

  lemma RunOf(g: Groups, last: Group)
    requires g == [0x2001, 0xdb8, 0, 0, 0, 0, 0, last] && last != 0
    ensures RunStart(g) == 2 && RunEnd(g) == 7
  {
    assert ZerosFrom(g, 8) == 0 && ZerosFrom(g, 7) == 0 && ZerosFrom(g, 6) == 1 && ZerosFrom(g, 5) == 2;
    assert ZerosFrom(g, 4) == 3 && ZerosFrom(g, 3) == 4 && ZerosFrom(g, 2) == 5 && ZerosFrom(g, 1) == 0;
    assert RunFrom(g, 8) == 8 && RunFrom(g, 7) == 8 && RunFrom(g, 6) == 8 && RunFrom(g, 5) == 5;
    assert RunFrom(g, 4) == 4 && RunFrom(g, 3) == 3 && RunFrom(g, 2) == 2 && RunFrom(g, 1) == 2;
  }

  /** IPv6 keys are not in numeric order: 2001:db8::10 sorts before 2001:db8::9. */
  lemma V6NotNumeric()
    ensures Number(V6(NINE)) < Number(V6(SIXTEEN))
    ensures Less(AddressKey(V6(SIXTEEN)), AddressKey(V6(NINE))) && !Less(AddressKey(V6(NINE)), AddressKey(V6(SIXTEEN)))
  {
    TheirRuns();
    ValueAt(NINE, SIXTEEN, 7);
    HexOfBoth();
    SameRunOrder(NINE, SIXTEEN, 7);
    SameRunOrder(SIXTEEN, NINE, 7);
    SamePiece("6:", Canonical(NINE), Canonical(SIXTEEN));
    SamePiece("6:", Canonical(SIXTEEN), Canonical(NINE));
  }

  lemma HexOfBoth()
    ensures HexText(9) + "" == "9" && HexText(16) + "" == "10"
    ensures Less("10", "9") && !Less("9", "10")
  {
    assert HexText(16) == HexText(1) + [LowerHex(0)];
    LessConcat("1", "0", "9", "");
    LessConcat("9", "", "1", "0");
  }
}
