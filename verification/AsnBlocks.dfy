/** Longest-prefix match by one scan over the blocks, longest mask first. Addresses and networks are bit
    strings of 32 or 128 bits; an IPv6 address of the form ::ffff:a.b.c.d stands for the IPv4 one. */
module AsnBlocks {

  import opened Options

  type Bits = seq<bool>

  const V4 := 32
  const V6 := 128
  const MAPPED_LENGTH := 96

  predicate IsAddress(ip: Bits) {
    |ip| == V4 || |ip| == V6
  }

  /** The first 96 bits of an IPv4-mapped address are 80 zeros and 16 ones. */
  predicate IsMapped(ip: Bits) {
    |ip| == V6 && forall i :: 0 <= i < MAPPED_LENGTH ==> ip[i] == (i >= 80)
  }

  /** The IPv4 form of an address that has one, and the address itself otherwise. */
  function Shortest(ip: Bits): Bits {
    if IsMapped(ip) then ip[MAPPED_LENGTH..] else ip
  }

  datatype Block = Block(network: Bits, maskOnes: nat, info: int)

  /** What parsing a CIDR yields: the bits after the mask are zero. */
  predicate IsBlock(b: Block) {
    IsAddress(b.network) && b.maskOnes <= |b.network| && forall i :: b.maskOnes <= i < |b.network| ==> !b.network[i]
  }

  /** How many bits of the network's shortest form count. */
  function PrefixLength(b: Block): (n: nat)
    requires IsBlock(b)
    ensures n <= |Shortest(b.network)|
  {
    if IsMapped(b.network) then MappedMask(b); b.maskOnes - MAPPED_LENGTH else b.maskOnes
  }

  lemma MappedMask(b: Block)
    requires IsBlock(b) && IsMapped(b.network)
    ensures b.maskOnes >= MAPPED_LENGTH
  {
    assert b.network[MAPPED_LENGTH - 1];
  }

  /** The network as it is reported: its address in shortest form and its prefix length. */
  function Reported(b: Block): (Bits, nat)
    requires IsBlock(b)
  {
    (Shortest(b.network), PrefixLength(b))
  }

  predicate Contains(b: Block, ip: Bits)
    requires IsBlock(b)
  {
    var net, address, n := Shortest(b.network), Shortest(ip), PrefixLength(b);
    |address| == |net| && address[..n] == net[..n]
  }

  // ---- What a block covers, on bits ----

  /** An IPv4 address written as IPv6: 80 zeros, 16 ones and its bits. */
  function Mapped(v4: Bits): Bits {
    seq(80, _ => false) + seq(16, _ => true) + v4
  }

  /** Two ways to write one address. */
  predicate SameAddress(a: Bits, b: Bits) {
    a == b || (|a| == V4 && Mapped(a) == b) || (|b| == V4 && Mapped(b) == a)
  }

  /** Written with 32 bits, or as an IPv4 address is in IPv6. */
  ghost predicate IsIpv4(ip: Bits) {
    |ip| == V4 || exists v4 :: |v4| == V4 && ip == Mapped(v4)
  }

  /** The address is the network with any bits after the mask, written either way; an IPv6 network covers no IPv4
      address. */
  ghost predicate Covers(b: Block, ip: Bits)
    requires IsBlock(b)
  {
    && (IsIpv4(b.network) <==> IsIpv4(ip))
    && exists host: Bits :: |host| == |b.network| - b.maskOnes && SameAddress(ip, b.network[..b.maskOnes] + host)
  }

  lemma MappedIs(v4: Bits)
    requires |v4| == V4
    ensures IsMapped(Mapped(v4)) && Shortest(Mapped(v4)) == v4
  {
  }

  lemma IsMappedIff(ip: Bits)
    ensures IsMapped(ip) <==> |ip| == V6 && ip == Mapped(ip[MAPPED_LENGTH..])
    ensures IsIpv4(ip) <==> |ip| == V4 || IsMapped(ip)
  {
    if v4 :| |v4| == V4 && ip == Mapped(v4) {
      MappedIs(v4);
    }
  }

  lemma SameShortest(a: Bits, b: Bits)
    requires IsAddress(a) && IsAddress(b)
    ensures SameAddress(a, b) <==> Shortest(a) == Shortest(b)
  {
    IsMappedIff(a);
    IsMappedIff(b);
    if |a| == V4 {
      MappedIs(a);
    }
    if |b| == V4 {
      MappedIs(b);
    }
  }

  /** The shortest form of the network with other bits after the mask. */
  lemma ShortestWith(b: Block, host: Bits)
    requires IsBlock(b) && |host| == |b.network| - b.maskOnes
    ensures var full := b.network[..b.maskOnes] + host;
      (IsMapped(b.network) ==> IsMapped(full)) &&
      (IsMapped(b.network) || !IsMapped(full) ==> Shortest(full) == Shortest(b.network)[..PrefixLength(b)] + host)
  {
    if IsMapped(b.network) {
      MappedMask(b);
    }
  }

  /** Containment, as the lookup computes it, is covering. */
  lemma ContainsIff(b: Block, ip: Bits)
    requires IsBlock(b)
    ensures Contains(b, ip) <==> Covers(b, ip)
  {
    IsMappedIff(b.network);
    IsMappedIff(ip);
    if Contains(b, ip) {
      ContainedIsCovered(b, ip);
    } else if Covers(b, ip) {
      CoveredIsContained(b, ip);
    }
  }

  lemma ContainedIsCovered(b: Block, ip: Bits)
    requires IsBlock(b) && Contains(b, ip)
    ensures Covers(b, ip)
  {
    var address, n := Shortest(ip), PrefixLength(b);
    var host := address[n..];
    IsMappedIff(b.network);
    IsMappedIff(ip);
    ShortestWith(b, host);
    assert address == address[..n] + host;
    SameShortest(ip, b.network[..b.maskOnes] + host);
  }

  lemma CoveredIsContained(b: Block, ip: Bits)
    requires IsBlock(b) && Covers(b, ip)
    ensures Contains(b, ip)
  {
    var host: Bits :| |host| == |b.network| - b.maskOnes && SameAddress(ip, b.network[..b.maskOnes] + host);
    var full := b.network[..b.maskOnes] + host;
    IsMappedIff(b.network);
    IsMappedIff(ip);
    IsMappedIff(full);
    ShortestWith(b, host);
    SameShortest(ip, full);
  }

  /** A network is reported as the IPv4 one it stands for if it is written as IPv4-mapped, and as it is otherwise. */
  lemma ReportedIs(b: Block, v4: Bits)
    requires IsBlock(b) && |v4| == V4
    ensures b.network == Mapped(v4) ==> b.maskOnes >= 96 && Reported(b) == (v4, b.maskOnes - 96)
    ensures !IsMapped(b.network) ==> Reported(b) == (b.network, b.maskOnes)
  {
    MappedIs(v4);
    if b.network == Mapped(v4) {
      MappedMask(b);
    }
  }

  predicate AllBlocks(blocks: seq<Block>) {
    forall i :: 0 <= i < |blocks| ==> IsBlock(blocks[i])
  }

  predicate LongestMaskFirst(blocks: seq<Block>) {
    forall i, j :: 0 <= i < j < |blocks| ==> blocks[i].maskOnes >= blocks[j].maskOnes
  }

  /** The scan finds the first block that contains the address, and only a miss finds none. */
  method LookupBlock(blocks: seq<Block>, ip: Option<Bits>) returns (hit: Option<nat>)
    requires AllBlocks(blocks)
    ensures ip.None? ==> hit.None?
    ensures ip.Some? && hit.None? ==> forall i :: 0 <= i < |blocks| ==> !Covers(blocks[i], ip.value)
    ensures ip.Some? && hit.Some? ==>
      && hit.value < |blocks| && Covers(blocks[hit.value], ip.value)
      && forall i :: 0 <= i < hit.value ==> !Covers(blocks[i], ip.value)
    ensures ip.Some? && hit.Some? ==> IsFirstHit(blocks, ip.value, hit.value)
  {
    if |blocks| == 0 || ip.None? {
      return None;
    }
    for k := 0 to |blocks|
      invariant forall i :: 0 <= i < k ==> !Contains(blocks[i], ip.value) && !Covers(blocks[i], ip.value)
    {
      ContainsIff(blocks[k], ip.value);
      if Contains(blocks[k], ip.value) {
        return Some(k);
      }
    }
    return None;
  }

  predicate IsFirstHit(blocks: seq<Block>, ip: Bits, k: nat)
    requires AllBlocks(blocks)
  {
    k < |blocks| && Contains(blocks[k], ip) && forall i :: 0 <= i < k ==> !Contains(blocks[i], ip)
  }

  /** No block that contains the address has a longer prefix. */
  predicate IsLongest(blocks: seq<Block>, ip: Bits, k: nat)
    requires AllBlocks(blocks) && k < |blocks|
  {
    forall j :: 0 <= j < |blocks| && Contains(blocks[j], ip) ==> PrefixLength(blocks[j]) <= PrefixLength(blocks[k])
  }

  // ---- When the first hit is the longest ----

  /** Block i is written as IPv4-mapped and contains the address. It sorts by its 128-bit mask and so comes
      before every plain IPv4 block, even before a longer one. */
  predicate MappedHit(blocks: seq<Block>, ip: Bits, i: nat)
    requires AllBlocks(blocks) && i < |blocks|
  {
    IsMapped(blocks[i].network) && Contains(blocks[i], ip)
  }

  /** Block j is a plain IPv4 block that contains the address, with a longer prefix than every mapped one. */
  predicate OutranksMapped(blocks: seq<Block>, ip: Bits, j: nat)
    requires AllBlocks(blocks) && j < |blocks|
  {
    && |blocks[j].network| == V4 && Contains(blocks[j], ip)
    && forall i :: 0 <= i < |blocks| && MappedHit(blocks, ip, i) ==> PrefixLength(blocks[i]) < PrefixLength(blocks[j])
  }

  /** Some mapped block contains the address, and a plain one that does outranks all of them. */
  predicate Hidden(blocks: seq<Block>, ip: Bits)
    requires AllBlocks(blocks)
  {
    && (exists i :: 0 <= i < |blocks| && MappedHit(blocks, ip, i))
    && (exists j :: 0 <= j < |blocks| && OutranksMapped(blocks, ip, j))
  }

  /** Of two blocks that contain one address, the one with the longer prefix has the longer mask, unless the
      other is mapped and it is not. */
  lemma LongerMask(a: Block, b: Block, ip: Bits)
    requires IsBlock(a) && IsBlock(b) && Contains(a, ip) && Contains(b, ip)
    requires PrefixLength(a) < PrefixLength(b) && a.maskOnes >= b.maskOnes
    ensures IsMapped(a.network) && |b.network| == V4
  {
  }

  /** A block with at least the mask of a mapped one, containing the same address, is mapped too. */
  lemma MappedBefore(a: Block, m: Block, ip: Bits)
    requires IsBlock(a) && IsBlock(m) && Contains(a, ip) && Contains(m, ip)
    requires IsMapped(m.network) && a.maskOnes >= m.maskOnes
    ensures IsMapped(a.network)
  {
    MappedMask(m);
  }

  lemma HiddenIsMissed(blocks: seq<Block>, ip: Bits, k: nat)
    requires AllBlocks(blocks) && LongestMaskFirst(blocks) && IsFirstHit(blocks, ip, k) && Hidden(blocks, ip)
    ensures !IsLongest(blocks, ip, k)
  {
    var i: nat :| i < |blocks| && MappedHit(blocks, ip, i);
    var j: nat :| j < |blocks| && OutranksMapped(blocks, ip, j);
    MappedBefore(blocks[k], blocks[i], ip);
    assert MappedHit(blocks, ip, k);
  }

  lemma MissedIsHidden(blocks: seq<Block>, ip: Bits, k: nat)
    requires AllBlocks(blocks) && LongestMaskFirst(blocks) && IsFirstHit(blocks, ip, k) && !IsLongest(blocks, ip, k)
    ensures Hidden(blocks, ip)
  {
    var j: nat :| j < |blocks| && Contains(blocks[j], ip) && PrefixLength(blocks[j]) > PrefixLength(blocks[k]);
    LongerMask(blocks[k], blocks[j], ip);
    assert MappedHit(blocks, ip, k);
    assert OutranksMapped(blocks, ip, j);
  }

  /** Longest-prefix match, exactly: in any list sorted by mask the first block that contains an address has the
      longest prefix of all that contain it, unless a mapped block hides a longer plain one. */
  lemma FirstHitIsLongestIff(blocks: seq<Block>, ip: Bits, k: nat)
    requires AllBlocks(blocks) && LongestMaskFirst(blocks) && IsFirstHit(blocks, ip, k)
    ensures IsLongest(blocks, ip, k) <==> !Hidden(blocks, ip)
  {
    if Hidden(blocks, ip) {
      HiddenIsMissed(blocks, ip, k);
    } else if !IsLongest(blocks, ip, k) {
      MissedIsHidden(blocks, ip, k);
    }
  }

  lemma {:induction false} SomeFirstHit(blocks: seq<Block>, ip: Bits, i: nat) returns (k: nat)
    requires AllBlocks(blocks) && i < |blocks| && Contains(blocks[i], ip)
    ensures IsFirstHit(blocks, ip, k)
  {
    if j: nat :| j < i && Contains(blocks[j], ip) {
      k := SomeFirstHit(blocks, ip, j);
    } else {
      k := i;
    }
  }

  /** The table as a whole answers every lookup by longest prefix exactly when it hides nothing from any address. */
  lemma TableIsLongestIff(blocks: seq<Block>)
    requires AllBlocks(blocks) && LongestMaskFirst(blocks)
    ensures (forall ip: Bits, k: nat :: IsFirstHit(blocks, ip, k) ==> IsLongest(blocks, ip, k))
      <==> forall ip: Bits :: !Hidden(blocks, ip)
  {
    forall ip: Bits, k: nat | IsFirstHit(blocks, ip, k) ensures IsLongest(blocks, ip, k) <==> !Hidden(blocks, ip) {
      FirstHitIsLongestIff(blocks, ip, k);
    }
    forall ip: Bits | Hidden(blocks, ip)
      ensures exists k: nat :: IsFirstHit(blocks, ip, k) && !IsLongest(blocks, ip, k)
    {
      var i: nat :| i < |blocks| && MappedHit(blocks, ip, i);
      var k := SomeFirstHit(blocks, ip, i);
      FirstHitIsLongestIff(blocks, ip, k);
    }
  }

  /** Tables without mapped blocks hide nothing. */
  lemma UnmappedHideNothing(blocks: seq<Block>, ip: Bits)
    requires AllBlocks(blocks) && forall i :: 0 <= i < |blocks| ==> !IsMapped(blocks[i].network)
    ensures !Hidden(blocks, ip)
  {
  }

  /** The whole IPv4 space written as IPv4-mapped, and its lower half written plainly. */
  const WHOLE_MAPPED := Block(seq(V6, i => 80 <= i < MAPPED_LENGTH), MAPPED_LENGTH, 0)
  const HALF_PLAIN := Block(seq(V4, i => false), 1, 1)

  /** The mapped block sorts first and answers for addresses of the longer plain one. */
  lemma MappedHides()
    ensures IsBlock(WHOLE_MAPPED) && IsBlock(HALF_PLAIN) && LongestMaskFirst([WHOLE_MAPPED, HALF_PLAIN])
    ensures IsFirstHit([WHOLE_MAPPED, HALF_PLAIN], HALF_PLAIN.network, 0)
    ensures Hidden([WHOLE_MAPPED, HALF_PLAIN], HALF_PLAIN.network)
  {
    var blocks := [WHOLE_MAPPED, HALF_PLAIN];
    assert MappedHit(blocks, HALF_PLAIN.network, 0);
    assert OutranksMapped(blocks, HALF_PLAIN.network, 1);
  }

  // ---- Any order of equal masks ----

  /** Two containing blocks with the same mask are the same network. */
  lemma SameMaskSameNetwork(a: Block, b: Block, ip: Bits)
    requires IsBlock(a) && IsBlock(b) && Contains(a, ip) && Contains(b, ip) && a.maskOnes == b.maskOnes
    ensures Reported(a) == Reported(b)
  {
    var n := PrefixLength(a);
    if IsMapped(a.network) {
      MappedMask(a);
    }
    if IsMapped(b.network) {
      MappedMask(b);
    }
    assert PrefixLength(b) == n;
    var x, y := Shortest(a.network), Shortest(b.network);
    assert x[..n] == y[..n];
    assert forall i :: n <= i < |x| ==> !x[i] && !y[i];
    assert forall i :: 0 <= i < n ==> x[i] == x[..n][i] && y[i] == y[..n][i];
    assert x == y;
  }

  /** The sort leaves equal masks in any order: whichever it chose, a hit in one order is a hit in the other
      and reports the same network. */
  lemma NetworkIsUnique(blocks: seq<Block>, other: seq<Block>, ip: Bits, k: nat, m: nat)
    requires multiset(blocks) == multiset(other) && AllBlocks(blocks) && AllBlocks(other)
    requires LongestMaskFirst(blocks) && LongestMaskFirst(other)
    requires IsFirstHit(blocks, ip, k) && IsFirstHit(other, ip, m)
    ensures Reported(blocks[k]) == Reported(other[m])
  {
    FirstHasLongestMask(blocks, other, ip, k, m);
    FirstHasLongestMask(other, blocks, ip, m, k);
    SameMaskSameNetwork(blocks[k], other[m], ip);
  }

  lemma FirstHasLongestMask(blocks: seq<Block>, other: seq<Block>, ip: Bits, k: nat, m: nat)
    requires multiset(blocks) == multiset(other) && AllBlocks(blocks) && AllBlocks(other)
    requires LongestMaskFirst(blocks) && IsFirstHit(blocks, ip, k) && IsFirstHit(other, ip, m)
    ensures blocks[k].maskOnes >= other[m].maskOnes
  {
    assert other[m] in multiset(blocks);
    var j: nat :| j < |blocks| && blocks[j] == other[m];
  }

  /** Nor does the order decide whether there is a hit at all. */
  lemma MissIsUnique(blocks: seq<Block>, other: seq<Block>, ip: Bits)
    requires multiset(blocks) == multiset(other) && AllBlocks(blocks) && AllBlocks(other)
    requires forall i :: 0 <= i < |blocks| ==> !Contains(blocks[i], ip)
    ensures forall i :: 0 <= i < |other| ==> !Contains(other[i], ip)
  {
    forall i | 0 <= i < |other| ensures !Contains(other[i], ip) {
      assert other[i] in multiset(blocks);
    }
  }
}
