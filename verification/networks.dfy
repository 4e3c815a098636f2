/** IP networks and CIDR prefix matching (section 3.1 of RFC 4632 for IPv4,
    section 2.3 of RFC 4291 for IPv6), as used for the trusted-source list.
    Addresses are already-parsed integers tagged with their family. */
module Networks {
  import opened Wrappers

  datatype Family = IPv4 | IPv6

  /** Address width in bits. */
  function Width(f: Family): nat {
    if f == IPv4 then 32 else 128
  }

  /** Number of addresses of the family, 2^Width. */
  function AddressSpace(f: Family): nat {
    if f == IPv4 then 0x1_0000_0000 else 0x1_0000_0000_0000_0000_0000_0000_0000_0000
  }

  type U32 = n: nat | n < 0x1_0000_0000
  type U128 = n: nat | n < 0x1_0000_0000_0000_0000_0000_0000_0000_0000

  datatype Address = V4(v4: U32) | V6(v6: U128) {
    function Family(): Family {
      if V4? then IPv4 else IPv6
    }

    function Value(): (n: nat)
      ensures n < AddressSpace(Family())
    {
      if V4? then v4 else v6
    }
  }

  /** A network: the family, the network address and the prefix length. */
  datatype Network = Network(family: Family, base: nat, prefixLen: nat)

  /** The low `k` bits of `v` are all zero. */
  predicate LowBitsClear(v: nat, k: nat)
    decreases k
  {
    k == 0 || (v % 2 == 0 && LowBitsClear(v / 2, k - 1))
  }

  /** 2^k, i.e. `1 << k`. */
  function Pow2(k: nat): (r: nat)
    ensures r >= 1
  {
    if k == 0 then 1 else 2 * Pow2(k - 1)
  }

  /** `v` with its low `k` bits cleared, i.e. `v & ~((1 << k) - 1)`: the
      largest value at most `v` whose low `k` bits are zero, less than 2^k
      below `v`. */
  function ClearLowBits(v: nat, k: nat): (r: nat)
    ensures r <= v && v - r < Pow2(k)
    ensures LowBitsClear(r, k)
    ensures LowBitsClear(v, k) ==> r == v
    decreases k
  {
    if k == 0 then v
    else
      var half := ClearLowBits(v / 2, k - 1);
      assert (2 * half) % 2 == 0 && (2 * half) / 2 == half;
      assert v == 2 * (v / 2) + v % 2;
      2 * half
  }

  /** Clearing the low bits is determined by those three facts: any `m` with
      its low `k` bits zero and at most 2^k - 1 below `v` is the result. */
  lemma {:induction false} ClearLowBitsUnique(v: nat, k: nat, m: nat)
    requires LowBitsClear(m, k) && m <= v < m + Pow2(k)
    ensures ClearLowBits(v, k) == m
    decreases k
  {
    if k > 0 {
      assert m == 2 * (m / 2);
      assert v == 2 * (v / 2) + v % 2;
      ClearLowBitsUnique(v / 2, k - 1, m / 2);
    }
  }

  /** Number of host bits under a prefix of length `p`. */
  function HostBits(f: Family, p: nat): nat
    requires p <= Width(f)
  {
    Width(f) - p
  }

  /** `v & netmask` for a prefix of length `p`. */
  function MaskTo(v: nat, f: Family, p: nat): nat
    requires p <= Width(f)
  {
    ClearLowBits(v, HostBits(f, p))
  }

  /** A well-formed network: prefix within the width, no host bits set. */
  ghost predicate ValidNetwork(n: Network) {
    && n.prefixLen <= Width(n.family)
    && n.base < AddressSpace(n.family)
    && LowBitsClear(n.base, HostBits(n.family, n.prefixLen))
  }

  /** `addr in network`: same family and same network part. */
  predicate Contains(n: Network, a: Address) {
    && a.Family() == n.family
    && n.prefixLen <= Width(n.family)
    && MaskTo(a.Value(), n.family, n.prefixLen) == n.base
  }

  /** Membership in a valid network is the address range it covers: the
      `2^(width - prefix)` addresses of the family from the network address on. */
  lemma ContainsIffInRange(n: Network, a: Address)
    requires ValidNetwork(n)
    ensures Contains(n, a) <==>
      a.Family() == n.family && n.base <= a.Value() < n.base + Pow2(HostBits(n.family, n.prefixLen))
  {
    if a.Family() == n.family && n.base <= a.Value() < n.base + Pow2(HostBits(n.family, n.prefixLen)) {
      ClearLowBitsUnique(a.Value(), HostBits(n.family, n.prefixLen), n.base);
    }
  }

  /** What the address parser made of one trusted-source string. */
  datatype SourceSyntax =
    | BareAddress(addr: Address)
    | CidrBlock(addr: Address, prefixLen: nat)
    | Malformed

  datatype NetworkError = InvalidNotation | HostBitsSet

  /** `_parse_network`: `ip_network(source, strict=False)`, then, for CIDR
      notation, rejection when the written address differs from the network
      address. */
  function ParseNetwork(src: SourceSyntax): (r: Result<Network, NetworkError>)
    ensures r.Success? ==> ValidNetwork(r.value)
    ensures src.Malformed? ==> r == Failure(InvalidNotation)
    ensures src.CidrBlock? && src.prefixLen > Width(src.addr.Family()) ==> r == Failure(InvalidNotation)
    ensures src.BareAddress? ==> r.Success? && r.value.prefixLen == Width(src.addr.Family())
  {
    match src
    case Malformed => Failure(InvalidNotation)
    case BareAddress(a) =>
      Success(Network(a.Family(), a.Value(), Width(a.Family())))
    case CidrBlock(a, p) =>
      if p > Width(a.Family()) then Failure(InvalidNotation)
      else
        var net := Network(a.Family(), MaskTo(a.Value(), a.Family(), p), p);
        if a.Value() != net.base then Failure(HostBitsSet) else Success(net)
  }

  /** A bare address becomes a single-host network containing that address only. */
  lemma BareAddressIsSingleHost(a: Address, b: Address)
    ensures ParseNetwork(BareAddress(a)).Success?
    ensures Contains(ParseNetwork(BareAddress(a)).value, b) <==> b == a
  {
  }

  /** CIDR notation is accepted exactly when the prefix fits the family and the
      written address has no host bits set; the network then starts at that
      address and contains it. */
  lemma CidrAcceptance(a: Address, p: nat)
    ensures ParseNetwork(CidrBlock(a, p)).Success?
        <==> p <= Width(a.Family()) && LowBitsClear(a.Value(), HostBits(a.Family(), p))
    ensures ParseNetwork(CidrBlock(a, p)).Failure? && p <= Width(a.Family())
        ==> ParseNetwork(CidrBlock(a, p)).error == HostBitsSet
    ensures ParseNetwork(CidrBlock(a, p)).Success?
        ==> ParseNetwork(CidrBlock(a, p)).value == Network(a.Family(), a.Value(), p)
            && Contains(ParseNetwork(CidrBlock(a, p)).value, a)
  {
  }

  /** `any(addr in network for network in networks)`. */
  function AnyContains(nets: seq<Network>, a: Address): (r: bool)
    ensures r <==> exists i | 0 <= i < |nets| :: Contains(nets[i], a)
  {
    if |nets| == 0 then false
    else Contains(nets[0], a) || AnyContains(nets[1..], a)
  }

  /** An address never matches a list holding only networks of the other family. */
  lemma OtherFamilyNeverMatches(nets: seq<Network>, a: Address)
    requires forall i | 0 <= i < |nets| :: nets[i].family != a.Family()
    ensures !AnyContains(nets, a)
  {
  }

  /** The order of the network list does not matter. */
  lemma AnyContainsOrderIndependent(nets: seq<Network>, others: seq<Network>, a: Address)
    requires multiset(nets) == multiset(others)
    ensures AnyContains(nets, a) == AnyContains(others, a)
  {
    if AnyContains(nets, a) {
      var i :| 0 <= i < |nets| && Contains(nets[i], a);
      assert nets[i] in multiset(others);
      var j :| 0 <= j < |others| && others[j] == nets[i];
    }
    if AnyContains(others, a) {
      var j :| 0 <= j < |others| && Contains(others[j], a);
      assert others[j] in multiset(nets);
      var i :| 0 <= i < |nets| && nets[i] == others[j];
    }
  }

  /** 10.0.0.0/24 is a valid network. */
  lemma Ipv4ParseExample()
    ensures ParseNetwork(CidrBlock(V4(0x0A00_0000), 24)) == Success(Network(IPv4, 0x0A00_0000, 24))
  {
    // 10.0.0.0 = 655360 * 256
    assert LowBitsClear(655360, 0);
    assert LowBitsClear(1310720, 1);
    assert LowBitsClear(2621440, 2);
    assert LowBitsClear(5242880, 3);
    assert LowBitsClear(10485760, 4);
    assert LowBitsClear(20971520, 5);
    assert LowBitsClear(41943040, 6);
    assert LowBitsClear(83886080, 7);
    assert LowBitsClear(167772160, 8);
  }

  /** 10.0.0.5/24 is refused because its host bits are set. */
  lemma Ipv4HostBitsExample()
    ensures ParseNetwork(CidrBlock(V4(0x0A00_0005), 24)) == Failure(HostBitsSet)
  {
    // 10.0.0.5 = 655360 * 256 + 5
    assert ClearLowBits(655360, 0) == 655360;
    assert ClearLowBits(1310720, 1) == 1310720;
    assert ClearLowBits(2621440, 2) == 2621440;
    assert ClearLowBits(5242880, 3) == 5242880;
    assert ClearLowBits(10485760, 4) == 10485760;
    assert ClearLowBits(20971520, 5) == 20971520;
    assert ClearLowBits(41943041, 6) == 41943040;
    assert ClearLowBits(83886082, 7) == 83886080;
    assert ClearLowBits(167772165, 8) == 167772160;
  }

  /** 10.0.0.0/24 contains 10.0.0.50. */
  lemma Ipv4ContainsExample()
    ensures Contains(Network(IPv4, 0x0A00_0000, 24), V4(0x0A00_0032))
  {
    // 10.0.0.50 = 655360 * 256 + 50
    assert ClearLowBits(655360, 0) == 655360;
    assert ClearLowBits(1310720, 1) == 1310720;
    assert ClearLowBits(2621440, 2) == 2621440;
    assert ClearLowBits(5242881, 3) == 5242880;
    assert ClearLowBits(10485763, 4) == 10485760;
    assert ClearLowBits(20971526, 5) == 20971520;
    assert ClearLowBits(41943052, 6) == 41943040;
    assert ClearLowBits(83886105, 7) == 83886080;
    assert ClearLowBits(167772210, 8) == 167772160;
  }

  /** 10.0.0.0/24 does not contain 10.0.1.1. */
  lemma Ipv4ExcludesExample()
    ensures !Contains(Network(IPv4, 0x0A00_0000, 24), V4(0x0A00_0101))
  {
    // 10.0.1.1 = 655361 * 256 + 1
    assert ClearLowBits(655361, 0) == 655361;
    assert ClearLowBits(1310722, 1) == 1310722;
    assert ClearLowBits(2621444, 2) == 2621444;
    assert ClearLowBits(5242888, 3) == 5242888;
    assert ClearLowBits(10485776, 4) == 10485776;
    assert ClearLowBits(20971552, 5) == 20971552;
    assert ClearLowBits(41943104, 6) == 41943104;
    assert ClearLowBits(83886208, 7) == 83886208;
    assert ClearLowBits(167772417, 8) == 167772416;
  }
}
