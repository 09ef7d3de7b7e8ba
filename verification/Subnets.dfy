/** Subnet creation: the CIDR acceptance test and the gateway address. */
module Subnets {
  import opened Options
  import opened ByteCarry
  import opened Ipv4

  // ---------------------------------------------------------------- sixteen-byte form

  const V4_PREFIX: seq<Byte> := [0, 0, 0, 0, 0, 0, 0, 0, 0, 0, 255, 255]

  /** The IPv4-mapped form in which `net.ParseIP` and `net.ParseCIDR` return an address. */
  function Mapped(a: Addr): (s: seq<Byte>)
    ensures |s| == 16
  {
    V4_PREFIX + ToBytes(a, 4)
  }

  predicate IsMapped(s: seq<Byte>) { |s| == 16 && s[..12] == V4_PREFIX }

  /** The dotted text, when the bytes are still an IPv4 address. */
  function MappedText(s: seq<Byte>): Option<string> {
    if IsMapped(s) then Some(Dotted(s[12..])) else None
  }

  lemma {:induction false} Pow256Sum(m: nat, n: nat)
    ensures Pow256(m + n) == Pow256(m) * Pow256(n)
  {
    if n > 0 {
      Pow256Sum(m, n - 1);
      MulAssoc(Pow256(m), Pow256(n - 1), 256);
    }
  }

  lemma PrefixValue()
    ensures Value(V4_PREFIX) == 0xffff
  {
    var zeros := [0, 0, 0, 0, 0, 0, 0, 0, 0, 0];
    assert V4_PREFIX == zeros + [255, 255];
    ValueConcat(zeros, [255, 255]);
    assert zeros == ToBytes(0, 10) by { ZeroBytes(10); assert |ToBytes(0, 10)| == 10; }
    ValueOfBytes(0, 10);
    assert [255, 255][..1] == [255] && [255][..0] == [];
    assert Value([255]) == 255;
    assert Value([255, 255]) == 0xffff;
  }

  lemma {:induction false} ZeroBytes(n: nat)
    ensures forall i | 0 <= i < n :: ToBytes(0, n)[i] == 0
  {
    if n > 0 { ZeroBytes(n - 1); }
  }

  lemma MappedValue(a: Addr)
    ensures Value(Mapped(a)) == 0xffff * SPACE + a
  {
    PrefixValue();
    Pow256Of4();
    ValueConcat(V4_PREFIX, ToBytes(a, 4));
    ValueOfBytes(a, 4);
  }

  /** Carrying `k` into a mapped address adds `k` to it; the result is an IPv4 address exactly when the sum
      stays below 2^32. The bound on `k` is that of a 64-bit offset. */
  lemma MappedPlus(a: Addr, k: nat)
    requires k < SPACE * SPACE
    ensures a + k < SPACE ==> Plus(Mapped(a), k) == Mapped(a + k)
    ensures IsMapped(Plus(Mapped(a), k)) <==> a + k < SPACE
  {
    var r := Plus(Mapped(a), k);
    PlusValue(Mapped(a), k);
    MappedValue(a);
    Pow256Of4();
    Pow256Sum(4, 4);
    Pow256Sum(8, 8);
    var total := 0xffff * SPACE + a + k;
    DivModUnique(total, Pow256(16), 0, total);
    if a + k < SPACE {
      MappedValue(a + k);
      ValueInjective(r, Mapped(a + k));
    } else if IsMapped(r) {
      assert r == V4_PREFIX + r[12..];
      ValueConcat(V4_PREFIX, r[12..]);
      PrefixValue();
      ValueBound(r[12..]);
    }
  }

  lemma MappedTextOf(a: Addr)
    ensures MappedText(Mapped(a)) == Some(Text(a))
  {
    assert Mapped(a)[12..] == ToBytes(a, 4);
  }

  // ---------------------------------------------------------------- the service

  datatype Subnet = Subnet(block: Cidr, gateway: Option<string>)

  datatype SubnetError = VpcNotFound | InvalidVpcCidr | InvalidSubnetCidr | OutsideVpc | StoreFailed

  function GatewayOf(c: Cidr): Option<string> { MappedText(Plus(Mapped(c.addr), 1)) }

  method CalculateGatewayIP(ip: seq<Byte>) returns (gw: seq<Byte>)
    ensures gw == Plus(ip, 1)
  {
    var bytes := new Byte[|ip|](i requires 0 <= i < |ip| => ip[i]);
    assert bytes[..] == ip;
    Increment(bytes);
    gw := bytes[..];
  }

  class SubnetService {
    var subnets: map<nat, Subnet>

    constructor ()
      ensures subnets == map[]
    {
      subnets := map[];
    }

    /** `vpc` is what the VPC lookup found, with its parsed block; `block` the parsed request; `id` the fresh
        identifier; `stored` whether the insert succeeds. */
    method CreateSubnet(vpc: Option<Option<Cidr>>, block: Option<Cidr>, id: nat, stored: bool)
      returns (r: Result<Subnet, SubnetError>)
      requires vpc.Some? && vpc.value.Some? ==> ValidCidr(vpc.value.value)
      requires block.Some? ==> ValidCidr(block.value)
      requires id !in subnets
      modifies this
      ensures r.Ok? <==>
              && vpc.Some? && vpc.value.Some? && block.Some?
              && Contains(vpc.value.value, block.value.addr) && stored
      ensures r.Ok? ==> r.value == Subnet(block.value, GatewayOf(block.value)) && subnets == old(subnets)[id := r.value]
      ensures r.Err? ==> subnets == old(subnets)
      ensures r == Err(VpcNotFound) <==> vpc.None?
      ensures r == Err(InvalidVpcCidr) <==> vpc.Some? && vpc.value.None?
      ensures r == Err(InvalidSubnetCidr) <==> vpc.Some? && vpc.value.Some? && block.None?
      ensures r == Err(OutsideVpc) <==>
              && vpc.Some? && vpc.value.Some? && block.Some?
              && !Contains(vpc.value.value, block.value.addr)
    {
      if vpc.None? { return Err(VpcNotFound); }
      if vpc.value.None? { return Err(InvalidVpcCidr); }
      if block.None? { return Err(InvalidSubnetCidr); }
      var ip := block.value.addr;
      if !Contains(vpc.value.value, ip) { return Err(OutsideVpc); }
      var gw := CalculateGatewayIP(Mapped(ip));
      var subnet := Subnet(block.value, MappedText(gw));
      if !stored { return Err(StoreFailed); }
      subnets := subnets[id := subnet];
      return Ok(subnet);
    }
  }

  // ---------------------------------------------------------------- what acceptance means

  /** An accepted subnet and its VPC are always nested, and the subnet is the inner block exactly when its
      prefix is at least as long. */
  lemma AcceptedSubnetNests(vpc: Cidr, subnet: Cidr)
    requires ValidCidr(vpc) && ValidCidr(subnet) && Contains(vpc, subnet.addr)
    ensures Within(subnet, vpc) || Within(vpc, subnet)
    ensures Within(subnet, vpc) <==> subnet.prefix >= vpc.prefix
    ensures Within(vpc, subnet) <==> vpc.prefix >= subnet.prefix
  {
    NestedIffLonger(subnet, vpc, subnet.addr);
    NestedIffLonger(vpc, subnet, subnet.addr);
  }

  lemma NestedIffLonger(inner: Cidr, outer: Cidr, common: Addr)
    requires ValidCidr(inner) && ValidCidr(outer) && Contains(inner, common) && Contains(outer, common)
    ensures Within(inner, outer) <==> inner.prefix >= outer.prefix
  {
    if inner.prefix >= outer.prefix {
      CommonAddressNests(outer, inner, common);
    } else {
      Pow2Monotone(32 - outer.prefix, 32 - inner.prefix);
      var first := Network(inner);
      BlockIsInterval(inner, first);
      var last: Addr := first + Size(inner) - 1;
      BlockIsInterval(inner, last);
      BlockIsInterval(outer, first);
      BlockIsInterval(outer, last);
    }
  }

  /** Acceptance does not mean containment: 10.0.0.0/8 is accepted in the VPC 10.0.0.0/16 and sticks out. */
  lemma AcceptedSubnetMayStickOut()
    ensures var vpc, subnet := Cidr(0x0a00_0000, 16), Cidr(0x0a00_0000, 8);
            Contains(vpc, subnet.addr) && !Within(subnet, vpc)
  {
    AcceptedSubnetNests(Cidr(0x0a00_0000, 16), Cidr(0x0a00_0000, 8));
  }

  /** The stored gateway is the address after the one written in the CIDR string: it is the first address
      after the network address exactly when that string is canonical, and it lies in the block exactly when
      the address written is not the last of the block. */
  lemma GatewayPlacement(c: Cidr)
    requires ValidCidr(c)
    ensures c.addr + 1 < SPACE ==> GatewayOf(c) == Some(Text(c.addr + 1))
    ensures c.addr + 1 == SPACE ==> GatewayOf(c) == None
    ensures Network(c) + 1 < SPACE ==> (GatewayOf(c) == Some(Text(Network(c) + 1)) <==> Canonical(c))
    ensures c.addr + 1 < SPACE ==> (Contains(c, c.addr + 1) <==> c.addr + 1 < Network(c) + Size(c))
  {
    MappedPlus(c.addr, 1);
    BlockIsInterval(c, c.addr);
    if c.addr + 1 < SPACE {
      MappedTextOf(c.addr + 1);
      BlockIsInterval(c, c.addr + 1);
      if Network(c) + 1 < SPACE { TextInjective(c.addr + 1, Network(c) + 1); }
    }
  }

  /** For a canonical CIDR with prefix at most 31 the gateway is network address + 1 and lies in the block. */
  lemma CanonicalGateway(c: Cidr)
    requires ValidCidr(c) && Canonical(c) && c.prefix <= 31
    ensures Network(c) + 1 < SPACE
    ensures GatewayOf(c) == Some(Text(Network(c) + 1)) && Contains(c, Network(c) + 1)
  {
    Pow2Monotone(0, 32 - c.prefix);
    BlockIsInterval(c, c.addr);
    GatewayPlacement(c);
  }
}
