/** The libvirt adapter's pool of /24 networks. */
module NetworkPool {
  import opened Options
  import opened ByteCarry
  import opened Ipv4
  import opened Subnets

  const POOL_START: Addr := 0xc0a8_6400  // 192.168.100.0
  const POOL_END: Addr := 0xc0a8_c8ff    // 192.168.200.255

  /** Base address of the n-th network, while it is an IPv4 address at all. */
  function Base(n: nat): nat { POOL_START + 256 * n }

  predicate InSpace(n: nat) { Base(n) + 256 <= SPACE }

  class LibvirtPool {
    const poolStart: seq<Byte>
    var networkCounter: nat

    ghost predicate Valid()
      reads this
    {
      poolStart == Mapped(POOL_START)
    }

    constructor ()
      ensures Valid() && networkCounter == 0
    {
      poolStart := Mapped(POOL_START);
      networkCounter := 0;
    }

    /** The n-th call hands out gateway base+1 and range base+2 .. base+254 for base = start + 256n, through
        the byte-carry loop; no call refers to the end of the pool. */
    method GetNextNetworkRange() returns (gateway: Option<string>, rangeStart: Option<string>, rangeEnd: Option<string>)
      requires Valid()
      requires 256 * networkCounter < SPACE * SPACE
      modifies this
      ensures Valid() && networkCounter == old(networkCounter) + 1
      ensures InSpace(old(networkCounter)) ==>
                var base := Base(old(networkCounter));
                && gateway == Some(Text(base + 1))
                && rangeStart == Some(Text(base + 2))
                && rangeEnd == Some(Text(base + 254))
      ensures !InSpace(old(networkCounter)) ==> gateway.None? && rangeStart.None? && rangeEnd.None?
    {
      var baseIP := new Byte[|poolStart|](i requires 0 <= i < |poolStart| => poolStart[i]);
      assert baseIP[..] == poolStart;
      AddOffset(baseIP, networkCounter * 256);
      ghost var n := networkCounter;
      networkCounter := networkCounter + 1;

      var base := baseIP[..];
      assert |base| == 16;
      var gw := base[15 := 1];
      var start := base[15 := 2];
      var end := base[15 := 254];
      gateway, rangeStart, rangeEnd := MappedText(gw), MappedText(start), MappedText(end);

      NetworkText(n, 1);
      NetworkText(n, 2);
      NetworkText(n, 254);
    }
  }

  /** Overwriting the last byte of an address that ends in zero adds to it. */
  lemma LastByteOf(a: Addr, b: Byte)
    requires a % 256 == 0
    ensures a + b < SPACE
    ensures MappedText(Mapped(a)[15 := b]) == Some(Text(a + b))
  {
    var s := Mapped(a)[15 := b];
    assert (a + b) / 256 == a / 256 && (a + b) % 256 == b;
    assert ToBytes(a, 4)[..3] == ToBytes(a / 256, 3);
    assert ToBytes(a + b, 4) == ToBytes(a / 256, 3) + [b];
    assert s == Mapped(a + b);
    MappedTextOf(a + b);
  }

  /** What replacing the last byte of the n-th base address reads as. */
  lemma NetworkText(n: nat, b: Byte)
    requires 256 * n < SPACE * SPACE
    ensures var s := Plus(Mapped(POOL_START), n * 256)[15 := b];
            MappedText(s) == if InSpace(n) then Some(Text(Base(n) + b)) else None
  {
    var base := Plus(Mapped(POOL_START), n * 256);
    MappedPlus(POOL_START, n * 256);
    assert !InSpace(n) <==> POOL_START + n * 256 >= SPACE;
    assert base[15 := b][..12] == base[..12];
    if InSpace(n) {
      LastByteOf(Base(n), b);
    }
  }

  /** The addresses of the n-th network, as a /24 block. */
  function Network24(n: nat): Cidr
    requires InSpace(n)
  {
    Cidr(Base(n), 24)
  }

  lemma SizeOf24()
    ensures Pow2(8) == 256
  {
    assert Pow2(0) == 1 && Pow2(1) == 2;
    Pow2Sum(1, 1);
    Pow2Sum(2, 2);
    Pow2Sum(4, 4);
  }

  /** Different calls give disjoint /24 blocks; the handed-out gateway and range lie in the call's block. */
  lemma NetworksDisjoint(m: nat, n: nat)
    requires m != n && InSpace(m) && InSpace(n)
    ensures forall a: Addr :: !(Contains(Network24(m), a) && Contains(Network24(n), a))
    ensures forall a: Addr :: Contains(Network24(m), a) <==> Base(m) <= a < Base(m) + 256
  {
    SizeOf24();
    forall a: Addr
      ensures !(Contains(Network24(m), a) && Contains(Network24(n), a))
      ensures Contains(Network24(m), a) <==> Base(m) <= a < Base(m) + 256
    {
      BlockIsInterval(Network24(m), a);
      BlockIsInterval(Network24(n), a);
    }
  }

  /** Exactly the first 101 calls stay inside 192.168.100.0 - 192.168.200.255: the pool end is never checked. */
  lemma PoolHolds101(n: nat)
    ensures (POOL_START <= Base(n) && Base(n) + 255 <= POOL_END) <==> n < 101
    ensures n < 101 ==> InSpace(n)
  {
  }
}
