/**
 * The private-network denylist of `check_ip_allowed`.
 *
 * An IPv4 address is its 32-bit value, an IPv6 address its 128-bit value.
 * A CIDR block (section 3.1 of RFC 4632) holds every address whose first
 * `prefix` bits equal those of its network address; on the numeric value
 * that is "same quotient when divided by 2^(width - prefix)".
 */
module IpRanges {
  import opened Wrappers

  type Ipv4Bits = x: nat | x < 0x1_0000_0000
  type Ipv6Bits = x: nat | x < 0x1_0000_0000_0000_0000_0000_0000_0000_0000

  datatype IpAddr = V4(v4: Ipv4Bits) | V6(v6: Ipv6Bits)

  datatype Family = Ipv4 | Ipv6

  function FamilyOf(ip: IpAddr): Family {
    if ip.V4? then Ipv4 else Ipv6
  }

  function Width(f: Family): nat {
    if f == Ipv4 then 32 else 128
  }

  function Bits(ip: IpAddr): nat {
    if ip.V4? then ip.v4 else ip.v6
  }

  function Pow2(n: nat): (r: nat)
    ensures r >= 1
  {
    if n == 0 then 1 else 2 * Pow2(n - 1)
  }

  /** A parsed `IpNetwork`: a network address and a prefix length. */
  datatype IpNetwork = IpNetwork(family: Family, network: nat, prefix: nat)

  predicate WellFormed(n: IpNetwork) {
    n.prefix <= Width(n.family) && n.network < Pow2(Width(n.family))
  }

  /** The number of addresses in the block. */
  function BlockSize(n: IpNetwork): (r: nat)
    requires n.prefix <= Width(n.family)
    ensures r >= 1
  {
    Pow2(Width(n.family) - n.prefix)
  }

  /**
   * `IpNetwork::contains`: same family, and the leading `prefix` bits agree.
   * A prefix longer than the family's width is no network at all (the
   * range would not parse) and contains nothing.
   */
  predicate Contains(n: IpNetwork, ip: IpAddr) {
    && n.prefix <= Width(n.family)
    && FamilyOf(ip) == n.family
    && Bits(ip) / BlockSize(n) == n.network / BlockSize(n)
  }

  /** Independent reading of a CIDR block: one interval of addresses. */
  predicate InInterval(n: IpNetwork, ip: IpAddr)
    requires n.prefix <= Width(n.family)
  {
    var first := n.network - n.network % BlockSize(n);
    FamilyOf(ip) == n.family && first <= Bits(ip) < first + BlockSize(n)
  }

  lemma QuotientIsInterval(x: nat, y: nat, s: nat)
    requires s >= 1
    ensures x / s == y / s <==> y - y % s <= x < y - y % s + s
  {
    var q := y / s;
    assert y - y % s == q * s;
    if x / s == q {
      assert x == (x / s) * s + x % s;
    }
    if q * s <= x < q * s + s {
      DivisionBetween(x, s, q);
    }
  }

  lemma DivisionBetween(x: nat, s: nat, q: nat)
    requires s >= 1 && q * s <= x < q * s + s
    ensures x / s == q
  {
    var q', r' := x / s, x % s;
    assert x == q' * s + r' && 0 <= r' < s;
    if q' < q {
      AtLeastOnce(q - q', s);
      assert false;
    } else if q' > q {
      AtLeastOnce(q' - q, s);
      assert false;
    }
  }

  lemma {:induction false} AtLeastOnce(d: nat, s: nat)
    requires d >= 1
    ensures d * s >= s
  {
    if d > 1 {
      AtLeastOnce(d - 1, s);
      assert d * s == (d - 1) * s + s;
    }
  }

  /** Containment by prefix is the same as lying in the block's interval. */
  lemma ContainsIsInterval(n: IpNetwork, ip: IpAddr)
    requires n.prefix <= Width(n.family)
    ensures Contains(n, ip) <==> InInterval(n, ip)
  {
    QuotientIsInterval(Bits(ip), n.network, BlockSize(n));
  }

  /** The interval form for a network whose address is already aligned to its block. */
  lemma BlockInterval(n: IpNetwork, ip: IpAddr, size: nat)
    requires n.prefix <= Width(n.family) && BlockSize(n) == size && n.network % size == 0
    ensures Contains(n, ip) <==> FamilyOf(ip) == n.family && n.network <= Bits(ip) < n.network + size
  {
    ContainsIsInterval(n, ip);
  }

  /** One entry of the denylist: its text as written and the network it parses to. */
  datatype BlockedRange = BlockedRange(text: string, net: IpNetwork)

  /** The eleven ranges, in the order the loop visits them. */
  const PRIVATE_RANGES: seq<BlockedRange> := [
    BlockedRange("10.0.0.0/8", IpNetwork(Ipv4, 0x0A00_0000, 8)),
    BlockedRange("172.16.0.0/12", IpNetwork(Ipv4, 0xAC10_0000, 12)),
    BlockedRange("192.168.0.0/16", IpNetwork(Ipv4, 0xC0A8_0000, 16)),
    BlockedRange("127.0.0.0/8", IpNetwork(Ipv4, 0x7F00_0000, 8)),
    BlockedRange("::1/128", IpNetwork(Ipv6, 1, 128)),
    BlockedRange("169.254.0.0/16", IpNetwork(Ipv4, 0xA9FE_0000, 16)),
    BlockedRange("fc00::/7", IpNetwork(Ipv6, 0xFC00_0000_0000_0000_0000_0000_0000_0000, 7)),
    BlockedRange("fe80::/10", IpNetwork(Ipv6, 0xFE80_0000_0000_0000_0000_0000_0000_0000, 10)),
    BlockedRange("100.64.0.0/10", IpNetwork(Ipv4, 0x6440_0000, 10)),
    BlockedRange("198.51.100.0/24", IpNetwork(Ipv4, 0xC633_6400, 24)),
    BlockedRange("203.0.113.0/24", IpNetwork(Ipv4, 0xCB00_7100, 24))
  ]

  /** Some range of the list contains the address. */
  ghost predicate IsBlocked(ranges: seq<BlockedRange>, ip: IpAddr) {
    exists i :: 0 <= i < |ranges| && Contains(ranges[i].net, ip)
  }

  /** Range `k` contains the address and no earlier range does. */
  ghost predicate IsFirstContaining(ranges: seq<BlockedRange>, ip: IpAddr, k: nat) {
    && k < |ranges|
    && Contains(ranges[k].net, ip)
    && forall j :: 0 <= j < k ==> !Contains(ranges[j].net, ip)
  }

  /** The index of the first range that contains the address, if any. */
  function FirstBlocking(ranges: seq<BlockedRange>, ip: IpAddr): (r: Option<nat>)
    ensures r.Some? ==> IsFirstContaining(ranges, ip, r.value)
    ensures r.None? <==> !IsBlocked(ranges, ip)
  {
    if ranges == [] then None
    else if Contains(ranges[0].net, ip) then Some(0)
    else
      var rest := FirstBlocking(ranges[1..], ip);
      assert forall j :: 1 <= j < |ranges| ==> ranges[j] == ranges[1..][j - 1];
      match rest
      case None => None
      case Some(k) => Some(k + 1)
  }

  /** `check_ip_allowed` as a value: the first containing range, or a pass. */
  function IpVerdict(ip: IpAddr): (r: Outcome<BlockedRange>)
    ensures r.Fail? <==> IsBlocked(PRIVATE_RANGES, ip)
    ensures r.Fail? ==> exists k: nat :: IsFirstContaining(PRIVATE_RANGES, ip, k) && r.error == PRIVATE_RANGES[k]
  {
    Verdict(PRIVATE_RANGES, ip)
  }

  function Verdict(ranges: seq<BlockedRange>, ip: IpAddr): (r: Outcome<BlockedRange>)
    ensures r.Fail? <==> IsBlocked(ranges, ip)
    ensures r.Fail? ==> exists k: nat :: IsFirstContaining(ranges, ip, k) && r.error == ranges[k]
  {
    match FirstBlocking(ranges, ip)
    case None => Pass
    case Some(k) => Fail(ranges[k])
  }

  /**
   * The loop of `check_ip_allowed`: visit the ranges in order and stop at
   * the first that contains the address.
   */
  method CheckIpAgainst(ranges: seq<BlockedRange>, ip: IpAddr) returns (r: Outcome<BlockedRange>)
    ensures r.Fail? <==> IsBlocked(ranges, ip)
    ensures r.Fail? ==> exists k: nat :: IsFirstContaining(ranges, ip, k) && r.error == ranges[k]
    ensures r == Verdict(ranges, ip)
  {
    var i := 0;
    while i < |ranges|
      invariant 0 <= i <= |ranges|
      invariant forall j :: 0 <= j < i ==> !Contains(ranges[j].net, ip)
    {
      var range := ranges[i];
      if Contains(range.net, ip) {
        FirstIsUnique(ranges, ip, i);
        return Fail(range);
      }
      i := i + 1;
    }
    return Pass;
  }

  /** `check_ip_allowed` over the eleven ranges of the source. */
  method CheckIpAllowed(ip: IpAddr) returns (r: Outcome<BlockedRange>)
    ensures r.Fail? <==> IsBlocked(PRIVATE_RANGES, ip)
    ensures r.Fail? ==> exists k: nat :: IsFirstContaining(PRIVATE_RANGES, ip, k) && r.error == PRIVATE_RANGES[k]
    ensures r == IpVerdict(ip)
  {
    r := CheckIpAgainst(PRIVATE_RANGES, ip);
  }

  /** Only one index can be "the first containing range". */
  lemma FirstIsUnique(ranges: seq<BlockedRange>, ip: IpAddr, k: nat)
    requires IsFirstContaining(ranges, ip, k)
    ensures FirstBlocking(ranges, ip) == Some(k)
  {
    var r := FirstBlocking(ranges, ip);
    assert r.Some?;
    if r.value < k {
    } else if r.value > k {
    }
  }

  lemma {:induction false} Pow2Add(a: nat, b: nat)
    ensures Pow2(a + b) == Pow2(a) * Pow2(b)
  {
    if a > 0 {
      Pow2Add(a - 1, b);
    }
  }

  lemma SmallPowers()
    ensures Pow2(1) == 2 && Pow2(4) == 16 && Pow2(6) == 64 && Pow2(8) == 256
  {
    assert Pow2(1) == 2;
    assert Pow2(2) == 4;
    assert Pow2(3) == 8;
    assert Pow2(4) == 16;
    assert Pow2(5) == 32;
    assert Pow2(6) == 64;
    assert Pow2(7) == 128;
  }

  /** Block sizes of the IPv4 entries, and the size of the IPv4 space. */
  lemma Ipv4Powers()
    ensures Pow2(8) == 0x100 && Pow2(16) == 0x1_0000 && Pow2(20) == 0x10_0000
    ensures Pow2(22) == 0x40_0000 && Pow2(24) == 0x100_0000 && Pow2(32) == 0x1_0000_0000
  {
    SmallPowers();
    Pow2Add(8, 8);
    Pow2Add(16, 4);
    Pow2Add(16, 6);
    Pow2Add(16, 8);
    Pow2Add(16, 16);
  }

  /** Block sizes of the IPv6 entries, and the size of the IPv6 space. */
  lemma Ipv6Powers()
    ensures Pow2(0) == 1
    ensures Pow2(118) == 0x40_0000_0000_0000_0000_0000_0000_0000
    ensures Pow2(121) == 0x200_0000_0000_0000_0000_0000_0000_0000
    ensures Pow2(128) == 0x1_0000_0000_0000_0000_0000_0000_0000_0000
  {
    Ipv4Powers();
    SmallPowers();
    Pow2Add(32, 32);
    Pow2Add(64, 32);
    Pow2Add(96, 16);
    Pow2Add(112, 6);
    Pow2Add(112, 8);
    Pow2Add(120, 1);
    Pow2Add(64, 64);
  }

  /** Every range in the list is inside its family's address space. */
  lemma PrivateRangesWellFormed()
    ensures forall i :: 0 <= i < |PRIVATE_RANGES| ==> WellFormed(PRIVATE_RANGES[i].net)
  {
    Ipv4Powers();
    Ipv6Powers();
  }

  /** Membership in the list, one range at a time. */
  lemma IsBlockedUnfolded(ip: IpAddr)
    ensures IsBlocked(PRIVATE_RANGES, ip) <==>
      || Contains(PRIVATE_RANGES[0].net, ip) || Contains(PRIVATE_RANGES[1].net, ip)
      || Contains(PRIVATE_RANGES[2].net, ip) || Contains(PRIVATE_RANGES[3].net, ip)
      || Contains(PRIVATE_RANGES[4].net, ip) || Contains(PRIVATE_RANGES[5].net, ip)
      || Contains(PRIVATE_RANGES[6].net, ip) || Contains(PRIVATE_RANGES[7].net, ip)
      || Contains(PRIVATE_RANGES[8].net, ip) || Contains(PRIVATE_RANGES[9].net, ip)
      || Contains(PRIVATE_RANGES[10].net, ip)
  {
    if IsBlocked(PRIVATE_RANGES, ip) {
      var i :| 0 <= i < |PRIVATE_RANGES| && Contains(PRIVATE_RANGES[i].net, ip);
      assert i in {0, 1, 2, 3, 4, 5, 6, 7, 8, 9, 10};
    }
  }

  /** 10.0.0.0/8 is the interval [0x0A00_0000, 0x0B00_0000). */
  lemma Private10Interval(x: Ipv4Bits)
    ensures Contains(PRIVATE_RANGES[0].net, V4(x)) <==> 0x0A00_0000 <= x < 0x0B00_0000
  {
    var n := PRIVATE_RANGES[0].net;
    assert n == IpNetwork(Ipv4, 0x0A00_0000, 8);
    Ipv4Powers();
    BlockInterval(n, V4(x), 0x100_0000);
  }

  /** 172.16.0.0/12 is the interval [0xAC10_0000, 0xAC20_0000). */
  lemma Private172Interval(x: Ipv4Bits)
    ensures Contains(PRIVATE_RANGES[1].net, V4(x)) <==> 0xAC10_0000 <= x < 0xAC20_0000
  {
    var n := PRIVATE_RANGES[1].net;
    assert n == IpNetwork(Ipv4, 0xAC10_0000, 12);
    Ipv4Powers();
    BlockInterval(n, V4(x), 0x10_0000);
  }

  /** 192.168.0.0/16 is the interval [0xC0A8_0000, 0xC0A9_0000). */
  lemma Private192Interval(x: Ipv4Bits)
    ensures Contains(PRIVATE_RANGES[2].net, V4(x)) <==> 0xC0A8_0000 <= x < 0xC0A9_0000
  {
    var n := PRIVATE_RANGES[2].net;
    assert n == IpNetwork(Ipv4, 0xC0A8_0000, 16);
    Ipv4Powers();
    BlockInterval(n, V4(x), 0x1_0000);
  }

  /** 127.0.0.0/8 is the interval [0x7F00_0000, 0x8000_0000). */
  lemma LoopbackInterval(x: Ipv4Bits)
    ensures Contains(PRIVATE_RANGES[3].net, V4(x)) <==> 0x7F00_0000 <= x < 0x8000_0000
  {
    var n := PRIVATE_RANGES[3].net;
    assert n == IpNetwork(Ipv4, 0x7F00_0000, 8);
    Ipv4Powers();
    BlockInterval(n, V4(x), 0x100_0000);
  }

  /** 169.254.0.0/16 is the interval [0xA9FE_0000, 0xA9FF_0000). */
  lemma LinkLocalInterval(x: Ipv4Bits)
    ensures Contains(PRIVATE_RANGES[5].net, V4(x)) <==> 0xA9FE_0000 <= x < 0xA9FF_0000
  {
    var n := PRIVATE_RANGES[5].net;
    assert n == IpNetwork(Ipv4, 0xA9FE_0000, 16);
    Ipv4Powers();
    BlockInterval(n, V4(x), 0x1_0000);
  }

  /** 100.64.0.0/10 is the interval [0x6440_0000, 0x6480_0000). */
  lemma SharedInterval(x: Ipv4Bits)
    ensures Contains(PRIVATE_RANGES[8].net, V4(x)) <==> 0x6440_0000 <= x < 0x6480_0000
  {
    var n := PRIVATE_RANGES[8].net;
    assert n == IpNetwork(Ipv4, 0x6440_0000, 10);
    Ipv4Powers();
    BlockInterval(n, V4(x), 0x40_0000);
  }

  /** 198.51.100.0/24 is the interval [0xC633_6400, 0xC633_6500). */
  lemma TestNet2Interval(x: Ipv4Bits)
    ensures Contains(PRIVATE_RANGES[9].net, V4(x)) <==> 0xC633_6400 <= x < 0xC633_6500
  {
    var n := PRIVATE_RANGES[9].net;
    assert n == IpNetwork(Ipv4, 0xC633_6400, 24);
    Ipv4Powers();
    BlockInterval(n, V4(x), 0x100);
  }

  /** 203.0.113.0/24 is the interval [0xCB00_7100, 0xCB00_7200). */
  lemma TestNet3Interval(x: Ipv4Bits)
    ensures Contains(PRIVATE_RANGES[10].net, V4(x)) <==> 0xCB00_7100 <= x < 0xCB00_7200
  {
    var n := PRIVATE_RANGES[10].net;
    assert n == IpNetwork(Ipv4, 0xCB00_7100, 24);
    Ipv4Powers();
    BlockInterval(n, V4(x), 0x100);
  }

  /** Blocked IPv4 space, written as explicit intervals of 32-bit values. */
  lemma BlockedIpv4Intervals(x: Ipv4Bits)
    ensures IsBlocked(PRIVATE_RANGES, V4(x)) <==>
      || 0x0A00_0000 <= x < 0x0B00_0000   // 10.0.0.0 .. 10.255.255.255
      || 0xAC10_0000 <= x < 0xAC20_0000   // 172.16.0.0 .. 172.31.255.255
      || 0xC0A8_0000 <= x < 0xC0A9_0000   // 192.168.0.0 .. 192.168.255.255
      || 0x7F00_0000 <= x < 0x8000_0000   // 127.0.0.0 .. 127.255.255.255
      || 0xA9FE_0000 <= x < 0xA9FF_0000   // 169.254.0.0 .. 169.254.255.255
      || 0x6440_0000 <= x < 0x6480_0000   // 100.64.0.0 .. 100.127.255.255
      || 0xC633_6400 <= x < 0xC633_6500   // 198.51.100.0 .. 198.51.100.255
      || 0xCB00_7100 <= x < 0xCB00_7200   // 203.0.113.0 .. 203.0.113.255
  {
    IsBlockedUnfolded(V4(x));
    Private10Interval(x);
    Private172Interval(x);
    Private192Interval(x);
    LoopbackInterval(x);
    LinkLocalInterval(x);
    SharedInterval(x);
    TestNet2Interval(x);
    TestNet3Interval(x);
  }

  /** Blocked IPv6 space, written as explicit intervals of 128-bit values. */
  lemma BlockedIpv6Intervals(x: Ipv6Bits)
    ensures IsBlocked(PRIVATE_RANGES, V6(x)) <==>
      || x == 1                                                                           // ::1
      || 0xFC00_0000_0000_0000_0000_0000_0000_0000 <= x < 0xFE00_0000_0000_0000_0000_0000_0000_0000
      || 0xFE80_0000_0000_0000_0000_0000_0000_0000 <= x < 0xFEC0_0000_0000_0000_0000_0000_0000_0000
  {
    IsBlockedUnfolded(V6(x));
    Ipv6LoopbackInterval(x);
    UniqueLocalInterval(x);
    Ipv6LinkLocalInterval(x);
  }

  /** ::1/128 holds exactly the address 1. */
  lemma Ipv6LoopbackInterval(x: Ipv6Bits)
    ensures Contains(PRIVATE_RANGES[4].net, V6(x)) <==> x == 1
  {
    var n := PRIVATE_RANGES[4].net;
    assert n == IpNetwork(Ipv6, 1, 128);
    Ipv6Powers();
    BlockInterval(n, V6(x), 1);
  }

  /** fc00::/7 is the interval [0xFC00::, 0xFE00::). */
  lemma UniqueLocalInterval(x: Ipv6Bits)
    ensures Contains(PRIVATE_RANGES[6].net, V6(x)) <==>
      0xFC00_0000_0000_0000_0000_0000_0000_0000 <= x < 0xFE00_0000_0000_0000_0000_0000_0000_0000
  {
    var n := PRIVATE_RANGES[6].net;
    assert n == IpNetwork(Ipv6, 0xFC00_0000_0000_0000_0000_0000_0000_0000, 7);
    Ipv6Powers();
    BlockInterval(n, V6(x), 0x200_0000_0000_0000_0000_0000_0000_0000);
  }

  /** fe80::/10 is the interval [0xFE80::, 0xFEC0::). */
  lemma Ipv6LinkLocalInterval(x: Ipv6Bits)
    ensures Contains(PRIVATE_RANGES[7].net, V6(x)) <==>
      0xFE80_0000_0000_0000_0000_0000_0000_0000 <= x < 0xFEC0_0000_0000_0000_0000_0000_0000_0000
  {
    var n := PRIVATE_RANGES[7].net;
    assert n == IpNetwork(Ipv6, 0xFE80_0000_0000_0000_0000_0000_0000_0000, 10);
    Ipv6Powers();
    BlockInterval(n, V6(x), 0x40_0000_0000_0000_0000_0000_0000_0000);
  }

  /** The 32-bit value of a dotted-quad address a.b.c.d. */
  function Ipv4Of(a: nat, b: nat, c: nat, d: nat): (r: Ipv4Bits)
    requires a < 256 && b < 256 && c < 256 && d < 256
  {
    a * 0x100_0000 + b * 0x1_0000 + c * 0x100 + d
  }

  /** 8.8.8.8 passes: it lies in none of the blocked intervals. */
  lemma PublicIpPasses()
    ensures IpVerdict(V4(Ipv4Of(8, 8, 8, 8))) == Pass
  {
    BlockedIpv4Intervals(Ipv4Of(8, 8, 8, 8));
  }

  /** Every address of 127.0.0.0/8 (so 127.0.0.1) is refused, naming the loopback range. */
  lemma LoopbackRefused(x: Ipv4Bits)
    requires Ipv4Of(127, 0, 0, 0) <= x <= Ipv4Of(127, 255, 255, 255)
    ensures IpVerdict(V4(x)) == Fail(PRIVATE_RANGES[3])
  {
    Private10Interval(x);
    Private172Interval(x);
    Private192Interval(x);
    LoopbackInterval(x);
    FirstIsUnique(PRIVATE_RANGES, V4(x), 3);
  }

  /** Every address of 169.254.0.0/16 (so 169.254.1.1) is refused, naming the link-local range. */
  lemma LinkLocalRefused(x: Ipv4Bits)
    requires Ipv4Of(169, 254, 0, 0) <= x <= Ipv4Of(169, 254, 255, 255)
    ensures IpVerdict(V4(x)) == Fail(PRIVATE_RANGES[5])
  {
    Private10Interval(x);
    Private172Interval(x);
    Private192Interval(x);
    LoopbackInterval(x);
    LinkLocalInterval(x);
    FirstIsUnique(PRIVATE_RANGES, V4(x), 5);
  }

  /** Every address of 10.0.0.0/8 (so 10.0.0.1) is refused, naming the first range. */
  lemma Private10Refused(x: Ipv4Bits)
    requires Ipv4Of(10, 0, 0, 0) <= x <= Ipv4Of(10, 255, 255, 255)
    ensures IpVerdict(V4(x)) == Fail(PRIVATE_RANGES[0])
  {
    Private10Interval(x);
    FirstIsUnique(PRIVATE_RANGES, V4(x), 0);
  }

  /** Every address of 172.16.0.0/12 (so 172.16.0.1) is refused, naming the second range. */
  lemma Private172Refused(x: Ipv4Bits)
    requires Ipv4Of(172, 16, 0, 0) <= x <= Ipv4Of(172, 31, 255, 255)
    ensures IpVerdict(V4(x)) == Fail(PRIVATE_RANGES[1])
  {
    Private10Interval(x);
    Private172Interval(x);
    FirstIsUnique(PRIVATE_RANGES, V4(x), 1);
  }

  /** Every address of 192.168.0.0/16 (so 192.168.1.1) is refused, naming the third range. */
  lemma Private192Refused(x: Ipv4Bits)
    requires Ipv4Of(192, 168, 0, 0) <= x <= Ipv4Of(192, 168, 255, 255)
    ensures IpVerdict(V4(x)) == Fail(PRIVATE_RANGES[2])
  {
    Private10Interval(x);
    Private172Interval(x);
    Private192Interval(x);
    FirstIsUnique(PRIVATE_RANGES, V4(x), 2);
  }

  /** ::1 is refused by the IPv6 loopback range, the fifth of the list. */
  lemma Ipv6LoopbackRefused(x: Ipv6Bits)
    requires x == 1
    ensures IpVerdict(V6(x)) == Fail(PRIVATE_RANGES[4])
  {
    Ipv6LoopbackInterval(x);
    FirstIsUnique(PRIVATE_RANGES, V6(x), 4);
  }
}
