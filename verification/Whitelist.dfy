/** The address whitelist: ranges built from CIDR blocks byte by byte, and a test
    that compares sixteen-byte addresses (milterSession.go, lines 223-259). */
module Whitelist {

  type Address = seq<bv8>

  /** A configured block as it is parsed, which may fail; without a prefix length it
      is a single address. */
  datatype Block = Unparsable | Block(ip: Address, prefix: nat)

  predicate WellFormed(b: Block) {
    b.Block? && |b.ip| in {4, 16} && b.prefix <= 8 * |b.ip|
  }

  datatype Range = Range(ipStart: Address, ipEnd: Address, mask: nat)

  const V4_IN_V6: Address := [0, 0, 0, 0, 0, 0, 0, 0, 0, 0, 0xff, 0xff]

  /** An IPv4 address in its mapped form; what is no address has no bytes. */
  function To16(a: Address): Address {
    if |a| == 4 then V4_IN_V6 + a else if |a| == 16 then a else []
  }

  /** The mask of the first n bits of a byte. */
  function HeadMask(n: nat): bv8 {
    match n
    case 0 => 0x00 case 1 => 0x80 case 2 => 0xc0 case 3 => 0xe0 case 4 => 0xf0
    case 5 => 0xf8 case 6 => 0xfc case 7 => 0xfe case _ => 0xff
  }

  /** The byte of the network, and that of the last address, for n bits of mask. */
  function Low(y: bv8, n: nat): bv8 {
    y & HeadMask(n)
  }

  function High(y: bv8, n: nat): bv8 {
    Low(y, n) | (HeadMask(n) ^ 0xff)
  }

  function BitsFrom(prefix: nat, k: nat): nat {
    if prefix <= 8 * k then 0 else prefix - 8 * k
  }

  /** The network of a block, as parsing masks it, and its last address. */
  function Network(ip: Address, prefix: nat): (r: Address)
    ensures |r| == |ip| && forall k :: 0 <= k < |ip| ==> r[k] == Low(ip[k], BitsFrom(prefix, k))
  {
    seq(|ip|, k requires 0 <= k < |ip| => Low(ip[k], BitsFrom(prefix, k)))
  }

  function LastOf(ip: Address, prefix: nat): (r: Address)
    ensures |r| == |ip| && forall k :: 0 <= k < |ip| ==> r[k] == High(ip[k], BitsFrom(prefix, k))
  {
    seq(|ip|, k requires 0 <= k < |ip| => High(ip[k], BitsFrom(prefix, k)))
  }

  function Compare(a: Address, b: Address): int {
    if a == [] then (if b == [] then 0 else -1)
    else if b == [] then 1
    else if a[0] < b[0] then -1
    else if a[0] > b[0] then 1
    else Compare(a[1..], b[1..])
  }

  predicate Within(ip: Address, start: Address, end: Address) {
    Compare(ip, start) >= 0 && Compare(ip, end) <= 0
  }

  function BitMask(j: nat): bv8 {
    match j
    case 0 => 0x80 case 1 => 0x40 case 2 => 0x20 case 3 => 0x10
    case 4 => 0x08 case 5 => 0x04 case 6 => 0x02 case _ => 0x01
  }

  /** The i-th bit, counted from the most significant one. */
  predicate Bit(a: Address, i: nat)
    requires i < 8 * |a|
  {
    a[i / 8] & BitMask(i % 8) != 0
  }

  ghost predicate SamePrefix(a: Address, b: Address, n: nat)
    requires |a| == |b| && n <= 8 * |a|
  {
    forall i: nat :: i < n ==> (Bit(a, i) <==> Bit(b, i))
  }

  // ----- One byte -----

  predicate BitsEqual(x: bv8, y: bv8, j: nat) {
    x & BitMask(j) != 0 <==> y & BitMask(j) != 0
  }

  ghost predicate SameHead(x: bv8, y: bv8, n: nat) {
    forall j: nat :: j < n ==> BitsEqual(x, y, j)
  }

  predicate MaskedEqual(x: bv8, y: bv8, n: nat) {
    x & HeadMask(n) == y & HeadMask(n)
  }

  lemma OneMoreBit(x: bv8, y: bv8, n: nat)
    requires n < 8
    ensures x & HeadMask(n + 1) == y & HeadMask(n + 1)
       <==> x & HeadMask(n) == y & HeadMask(n) && (x & BitMask(n) != 0 <==> y & BitMask(n) != 0)
  {
  }

  lemma MaskStep(x: bv8, y: bv8, n: nat)
    requires n < 8
    ensures MaskedEqual(x, y, n + 1) <==> MaskedEqual(x, y, n) && BitsEqual(x, y, n)
  {
    hide HeadMask, BitMask;
    OneMoreBit(x, y, n);
  }

  lemma NoMask(x: bv8, y: bv8)
    ensures MaskedEqual(x, y, 0)
  {
  }

  lemma {:induction false} SameHeadIff(x: bv8, y: bv8, n: nat)
    requires n <= 8
    ensures SameHead(x, y, n) <==> MaskedEqual(x, y, n)
  {
    hide MaskedEqual, BitsEqual;
    if n == 0 {
      NoMask(x, y);
    } else {
      MaskStep(x, y, n - 1);
      SameHeadIff(x, y, n - 1);
    }
  }

  predicate Ordered(lo: bv8, x: bv8, hi: bv8) {
    lo <= x <= hi
  }

  lemma ByteRange(x: bv8, y: bv8, n: nat)
    requires n <= 8
    ensures Ordered(Low(y, n), x, High(y, n)) <==> MaskedEqual(x, y, n)
  {
  }

  lemma WholeByte(y: bv8, n: nat)
    requires n >= 8
    ensures Low(y, n) == Low(y, 8) == High(y, 8) == High(y, n) == y
  {
  }

  lemma EmptyMask(y: bv8)
    ensures Low(y, 0) == 0 && High(y, 0) == 0xff
  {
  }

  // ----- Addresses -----

  lemma {:induction false} AllBetween(ip: Address, lo: Address, hi: Address)
    requires |ip| == |lo| == |hi| && forall k :: 0 <= k < |ip| ==> lo[k] == 0 && hi[k] == 0xff
    ensures Within(ip, lo, hi)
    decreases |ip|
  {
    if ip != [] {
      AllBetween(ip[1..], lo[1..], hi[1..]);
    }
  }

  lemma BitOfTail(a: Address, i: nat)
    requires a != [] && i < 8 * |a[1..]|
    ensures Bit(a[1..], i) <==> Bit(a, i + 8)
  {
  }

  lemma BitOfHead(a: Address, j: nat)
    requires a != [] && j < 8
    ensures Bit(a, j) <==> a[0] & BitMask(j) != 0
  {
  }

  lemma PrefixHead(a: Address, b: Address, n: nat)
    requires |a| == |b| > 0 && n <= 8
    ensures SamePrefix(a, b, n) <==> SameHead(a[0], b[0], n)
  {
    forall j: nat | j < n ensures BitsEqual(a[0], b[0], j) <==> (Bit(a, j) <==> Bit(b, j)) {
      BitOfHead(a, j);
      BitOfHead(b, j);
    }
    hide Bit, BitsEqual;
    if SamePrefix(a, b, n) {
      forall j: nat | j < n ensures BitsEqual(a[0], b[0], j) {
        assert Bit(a, j) <==> Bit(b, j);
      }
    }
  }

  lemma PrefixTail(a: Address, b: Address, n: nat)
    requires |a| == |b| > 0 && 8 <= n <= 8 * |a|
    ensures SamePrefix(a, b, n) <==> SamePrefix(a, b, 8) && SamePrefix(a[1..], b[1..], n - 8)
  {
    forall i: nat | i < n - 8 ensures (Bit(a[1..], i) <==> Bit(a, i + 8)) && (Bit(b[1..], i) <==> Bit(b, i + 8)) {
      BitOfTail(a, i);
      BitOfTail(b, i);
    }
    hide Bit;
    if SamePrefix(a, b, 8) && SamePrefix(a[1..], b[1..], n - 8) {
      forall i: nat | i < n ensures Bit(a, i) <==> Bit(b, i) {
        if i >= 8 {
          assert Bit(a[1..], i - 8) <==> Bit(b[1..], i - 8);
        }
      }
    }
  }

  /** The first n bits agree exactly when those of the first byte do and, past the
      first byte, those of the rest do. */
  lemma PrefixSplits(a: Address, b: Address, n: nat)
    requires |a| == |b| > 0 && n <= 8 * |a|
    ensures n <= 8 ==> (SamePrefix(a, b, n) <==> SameHead(a[0], b[0], n))
    ensures n >= 8 ==> (SamePrefix(a, b, n) <==> SameHead(a[0], b[0], 8) && SamePrefix(a[1..], b[1..], n - 8))
  {
    hide Bit, SameHead;
    if n <= 8 {
      PrefixHead(a, b, n);
    } else {
      PrefixHead(a, b, 8);
    }
    if n >= 8 {
      PrefixTail(a, b, n);
    }
  }

  lemma CompareStep(a: Address, b: Address)
    requires |a| == |b| > 0
    ensures Compare(a, b) >= 0 <==> a[0] >= b[0] && (a[0] == b[0] ==> Compare(a[1..], b[1..]) >= 0)
    ensures Compare(a, b) <= 0 <==> a[0] <= b[0] && (a[0] == b[0] ==> Compare(a[1..], b[1..]) <= 0)
  {
  }

  lemma WithinStep(ip: Address, lo: Address, hi: Address)
    requires |ip| == |lo| == |hi| > 0
    ensures Within(ip, lo, hi) <==>
            && Ordered(lo[0], ip[0], hi[0])
            && (ip[0] == lo[0] ==> Compare(ip[1..], lo[1..]) >= 0)
            && (ip[0] == hi[0] ==> Compare(ip[1..], hi[1..]) <= 0)
  {
    hide Compare;
    CompareStep(ip, lo);
    CompareStep(ip, hi);
  }

  lemma TailRange(ip: Address, net: Address, prefix: nat)
    requires |net| > 0 && prefix <= 8 * |net|
    ensures var rest := if prefix < 8 then 0 else prefix - 8;
            && Network(net, prefix)[1..] == Network(net[1..], rest)
            && LastOf(net, prefix)[1..] == LastOf(net[1..], rest)
  {
    hide Low, High;
  }

  lemma OnlyOne(lo: bv8, x: bv8)
    ensures Ordered(lo, x, lo) <==> x == lo
  {
  }

  lemma AllBytes(ip: Address, net: Address)
    requires |ip| == |net|
    ensures Within(ip, Network(net, 0), LastOf(net, 0))
  {
    forall k | 0 <= k < |net| ensures Network(net, 0)[k] == 0 && LastOf(net, 0)[k] == 0xff {
      EmptyMask(net[k]);
    }
    hide Low, High;
    AllBetween(ip, Network(net, 0), LastOf(net, 0));
  }

  lemma NoBits(a: Address, b: Address)
    requires a == [] && b == []
    ensures SamePrefix(a, b, 0) && Within(a, Network(b, 0), LastOf(b, 0))
  {
  }

  /** An address is between the network and the last address of a block exactly when
      it agrees with the block on the prefix bits. */
  lemma {:induction false} RangeIff(ip: Address, net: Address, prefix: nat)
    requires |ip| == |net| && prefix <= 8 * |net|
    ensures Within(ip, Network(net, prefix), LastOf(net, prefix)) <==> SamePrefix(ip, net, prefix)
    decreases |ip|
  {
    hide SamePrefix, SameHead, Compare, Ordered, MaskedEqual, Low, High;
    if ip == [] {
      NoBits(ip, net);
    } else {
      var n := if prefix < 8 then prefix else 8;
      WithinStep(ip, Network(net, prefix), LastOf(net, prefix));
      PrefixSplits(ip, net, prefix);
      ByteRange(ip[0], net[0], n);
      SameHeadIff(ip[0], net[0], n);
      TailRange(ip, net, prefix);
      if prefix < 8 {
        AllBytes(ip[1..], net[1..]);
      } else {
        WholeByte(net[0], prefix);
        OnlyOne(Low(net[0], 8), ip[0]);
        RangeIff(ip[1..], net[1..], prefix - 8);
      }
    }
  }

  // ----- IPv4 in its mapped form -----

  lemma SameBits(prefix: nat, j: nat)
    ensures BitsFrom(96 + prefix, j + 12) == BitsFrom(prefix, j)
  {
  }

  lemma MappedRange(ip: Address, prefix: nat)
    requires |ip| == 4 && prefix <= 32
    ensures To16(Network(ip, prefix)) == Network(To16(ip), 96 + prefix)
    ensures To16(LastOf(ip, prefix)) == LastOf(To16(ip), 96 + prefix)
  {
    forall k: nat | k < 16
      ensures To16(Network(ip, prefix))[k] == Network(To16(ip), 96 + prefix)[k]
      ensures To16(LastOf(ip, prefix))[k] == LastOf(To16(ip), 96 + prefix)[k]
    {
      if k < 12 {
        WholeByte(To16(ip)[k], BitsFrom(96 + prefix, k));
      } else {
        SameBits(prefix, k - 12);
      }
    }
  }

  /** The sixteen-byte address and the prefix length that a block stands for. */
  function Prefix16(b: Block): nat
    requires WellFormed(b)
  {
    if |b.ip| == 4 then 96 + b.prefix else b.prefix
  }

  /** Whether a block covers an address of four or sixteen bytes: the address agrees
      with it on its prefix bits, where an IPv4 address is the IPv6 address with the
      prefix ::ffff:0:0/96. What is no address has no bytes. */
  ghost predicate Covers(b: Block, ip: Address) {
    && WellFormed(b)
    && (if |ip| == |b.ip| then SamePrefix(ip, b.ip, b.prefix)
        else if |ip| == 16 then
          ip[..12] == [0, 0, 0, 0, 0, 0, 0, 0, 0, 0, 0xff, 0xff] && SamePrefix(ip[12..], b.ip, b.prefix)
        else if |ip| == 4 then
          SamePrefix([0, 0, 0, 0, 0, 0, 0, 0, 0, 0, 0xff, 0xff] + ip, b.ip, b.prefix)
        else false)
  }

  lemma BitMapped(front: Address, a: Address, i: nat)
    requires |front| == 12 && i < 8 * |a|
    ensures Bit(front + a, 96 + i) <==> Bit(a, i)
  {
    assert (96 + i) / 8 == 12 + i / 8 && (96 + i) % 8 == i % 8;
    assert (front + a)[12 + i / 8] == a[i / 8];
  }

  lemma FullMask(x: bv8, y: bv8)
    ensures MaskedEqual(x, y, 8) <==> x == y
  {
  }

  /** One byte is equal to another exactly when all eight bits are. */
  lemma SameByte(x: bv8, y: bv8)
    ensures SameHead(x, y, 8) <==> x == y
  {
    hide *;
    SameHeadIff(x, y, 8);
    FullMask(x, y);
  }

  lemma BitsOfByte(a: Address, b: Address, k: nat)
    requires |a| == |b| && k < |a|
    requires forall i: nat :: 8 * k <= i < 8 * k + 8 ==> (Bit(a, i) <==> Bit(b, i))
    ensures a[k] == b[k]
  {
    forall j: nat | j < 8 ensures BitsEqual(a[k], b[k], j) {
      assert (8 * k + j) / 8 == k && (8 * k + j) % 8 == j;
      assert Bit(a, 8 * k + j) <==> Bit(b, 8 * k + j);
    }
    SameByte(a[k], b[k]);
  }

  /** Agreement on whole leading bytes is their equality. */
  lemma SameFront(front: Address, a: Address, other: Address, b: Address)
    requires |front| == |other| == 12 && |a| == |b|
    ensures SamePrefix(front + a, other + b, 96) <==> front == other
  {
    if front == other {
      forall i: nat | i < 96 ensures Bit(front + a, i) <==> Bit(other + b, i) {
        assert (front + a)[i / 8] == (other + b)[i / 8];
      }
    }
    if SamePrefix(front + a, other + b, 96) {
      forall k: nat | k < 12 ensures front[k] == other[k] {
        BitsOfByte(front + a, other + b, k);
      }
    }
  }

  lemma SameMapped(front: Address, a: Address, other: Address, b: Address, n: nat)
    requires |front| == |other| == 12 && |a| == |b| && n <= 8 * |a|
    ensures SamePrefix(front + a, other + b, 96 + n) <==> front == other && SamePrefix(a, b, n)
  {
    SameFront(front, a, other, b);
    forall i: nat | i < n
      ensures (Bit(front + a, 96 + i) <==> Bit(a, i)) && (Bit(other + b, 96 + i) <==> Bit(b, i))
    {
      BitMapped(front, a, i);
      BitMapped(other, b, i);
    }
    hide Bit;
    if SamePrefix(front + a, other + b, 96 + n) {
      forall i: nat | i < n ensures Bit(a, i) <==> Bit(b, i) {
        assert Bit(front + a, 96 + i) <==> Bit(other + b, 96 + i);
      }
    }
    if front == other && SamePrefix(a, b, n) {
      forall i: nat | i < 96 + n ensures Bit(front + a, i) <==> Bit(other + b, i) {
        if i >= 96 {
          assert Bit(a, i - 96) <==> Bit(b, i - 96);
        }
      }
    }
  }

  lemma CoversMapped(b: Block, ip: Address)
    requires WellFormed(b) && |ip| in {4, 16}
    ensures Covers(b, ip) <==> SamePrefix(To16(ip), To16(b.ip), Prefix16(b))
  {
    hide SamePrefix;
    if |b.ip| == 4 && |ip| == 4 {
      SameMapped(V4_IN_V6, ip, V4_IN_V6, b.ip, b.prefix);
    } else if |b.ip| == 4 {
      SameMapped(ip[..12], ip[12..], V4_IN_V6, b.ip, b.prefix);
      assert ip[..12] + ip[12..] == ip;
    }
  }

  /** The test on sixteen bytes holds exactly for the addresses that the block covers. */
  lemma TestIff(b: Block, ip: Address)
    requires WellFormed(b) && |ip| in {0, 4, 16}
    ensures Within(To16(ip), To16(Network(b.ip, b.prefix)), To16(LastOf(b.ip, b.prefix))) <==> Covers(b, ip)
  {
    hide SamePrefix, Low, High;
    if |b.ip| == 4 {
      MappedRange(b.ip, b.prefix);
    }
    if |ip| != 0 {
      CoversMapped(b, ip);
      RangeIff(To16(ip), To16(b.ip), Prefix16(b));
    }
  }

  // ----- The session's whitelist -----

  predicate IsRangeOf(r: Range, b: Block) {
    b.Block? && r == Range(To16(Network(b.ip, b.prefix)), To16(LastOf(b.ip, b.prefix)), b.prefix)
  }

  class Session {
    var whitelist: array<Range>
    ghost var blocks: seq<Block>

    ghost predicate Valid()
      reads this, whitelist
    {
      && |blocks| == whitelist.Length
      && forall i :: 0 <= i < |blocks| ==> WellFormed(blocks[i]) && IsRangeOf(whitelist[i], blocks[i])
    }

    constructor ()
      ensures Valid() && blocks == []
    {
      whitelist, blocks := new Range[0], [];
    }

    /** The loop that fills the last address of a network. */
    method LastAddress(ghost ip: Address, network: Address, prefix: nat) returns (ipEnd: array<bv8>)
      requires network == Network(ip, prefix)
      ensures fresh(ipEnd) && ipEnd[..] == LastOf(ip, prefix)
    {
      ipEnd := new bv8[|network|];
      for k := 0 to |network|
        invariant forall j :: 0 <= j < k ==> ipEnd[j] == High(ip[j], BitsFrom(prefix, j))
      {
        ipEnd[k] := network[k] | (HeadMask(BitsFrom(prefix, k)) ^ 0xff);
        assert ipEnd[k] == High(ip[k], BitsFrom(prefix, k));
      }
    }

    /** The whitelist part of milterSessionStart: it panics on a block that does not
        parse. */
    method Start(config: seq<Block>) returns (ok: bool)
      requires forall b :: b in config && b.Block? ==> WellFormed(b)
      modifies this
      ensures ok <==> Unparsable !in config
      ensures ok ==> Valid() && fresh(whitelist) && blocks == config
    {
      hide Network, LastOf, High, Low;
      var ranges := new Range[|config|];
      for idx := 0 to |config|
        invariant fresh(ranges) && Unparsable !in config[..idx]
        invariant forall i :: 0 <= i < idx ==> WellFormed(config[i]) && IsRangeOf(ranges[i], config[i])
      {
        if config[idx].Unparsable? {
          return false;
        }
        var ip, prefix := config[idx].ip, config[idx].prefix;
        var network := Network(ip, prefix);
        var ipEnd := LastAddress(ip, network, prefix);
        ranges[idx] := Range(To16(network), To16(ipEnd[..]), prefix);
      }
      whitelist, blocks := ranges, config;
      return true;
    }

    /** isWhitelisted, of the parsed address, which has no bytes when it does not
        parse: the scan finds exactly the addresses that some block covers. */
    method IsWhitelisted(ip: Address) returns (found: bool)
      requires Valid() && |ip| in {0, 4, 16}
      ensures found <==> exists i :: 0 <= i < |blocks| && Covers(blocks[i], ip)
    {
      hide Compare, Covers, Network, LastOf;
      var testIP := To16(ip);
      for i := 0 to whitelist.Length
        invariant forall k :: 0 <= k < i ==> !Covers(blocks[k], ip)
      {
        TestIff(blocks[i], ip);
        if Compare(testIP, whitelist[i].ipStart) >= 0 && Compare(testIP, whitelist[i].ipEnd) <= 0 {
          return true;
        }
      }
      return false;
    }
  }
}
