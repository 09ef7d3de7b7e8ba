/** IPv4 addresses as numbers, their dotted text, and CIDR blocks (section 3.1 of RFC 4632). */
module Ipv4 {
  import opened Strings
  import opened ByteCarry

  const SPACE := 0x1_0000_0000

  type Addr = a: int | 0 <= a < SPACE

  function Pow2(n: nat): (p: nat)
    ensures p > 0
  {
    if n == 0 then 1 else 2 * Pow2(n - 1)
  }

  // ---------------------------------------------------------------- dotted text

  function Decimals(s: seq<Byte>): (r: seq<string>)
    ensures |r| == |s| && forall i | 0 <= i < |s| :: r[i] == Decimal(s[i])
  {
    seq(|s|, i requires 0 <= i < |s| => Decimal(s[i]))
  }

  /** `net.IP.String` on a four-byte address. */
  function Dotted(s: seq<Byte>): string { Join(Decimals(s), '.') }

  function Text(a: Addr): string { Dotted(ToBytes(a, 4)) }

  /** Four decimal numbers with dots between them, the highest byte first. */
  lemma TextIsDotted(a: Addr)
    ensures Text(a) == Decimal(a / 0x100_0000) + "." + Decimal(a / 0x1_0000 % 256) + "."
                       + Decimal(a / 256 % 256) + "." + Decimal(a % 256)
  {
    BytesOfAddress(a);
    hide ToBytes, Decimal;
    var d := Decimals(ToBytes(a, 4));
    assert d[1..][1..] == d[2..] && d[2..][1..] == d[3..];
    assert Join(d[3..], '.') == d[3];
    assert Join(d[2..], '.') == d[2] + "." + d[3];
    assert Join(d[1..], '.') == d[1] + "." + (d[2] + "." + d[3]);
    assert Join(d, '.') == d[0] + "." + (d[1] + "." + (d[2] + "." + d[3]));
  }

  lemma BytesOfAddress(a: Addr)
    ensures ToBytes(a, 4) == [a / 0x100_0000, a / 0x1_0000 % 256, a / 256 % 256, a % 256]
  {
    assert a / 256 / 256 == a / 0x1_0000 && a / 256 / 256 / 256 == a / 0x100_0000;
    assert ToBytes(a / 0x100_0000, 1) == [a / 0x100_0000];
    assert ToBytes(a / 0x1_0000, 2) == [a / 0x100_0000, a / 0x1_0000 % 256];
    assert ToBytes(a / 256, 3) == [a / 0x100_0000, a / 0x1_0000 % 256, a / 256 % 256];
  }

  lemma DottedInjective(s: seq<Byte>, t: seq<Byte>)
    requires s != [] && |s| == |t| && Dotted(s) == Dotted(t)
    ensures s == t
  {
    DecimalsFreeOfMarks(s);
    DecimalsFreeOfMarks(t);
    JoinThenSplit(Decimals(s), '.');
    JoinThenSplit(Decimals(t), '.');
    forall i | 0 <= i < |s| ensures s[i] == t[i] {
      assert Decimals(s)[i] == Decimals(t)[i];
      DecimalRoundTrip(s[i]);
      DecimalRoundTrip(t[i]);
    }
  }

  lemma DecimalsFreeOfMarks(s: seq<Byte>)
    ensures FreeOf(Decimals(s), '.') && FreeOf(Decimals(s), '/')
  {
    forall i | 0 <= i < |s| ensures '.' !in Decimals(s)[i] && '/' !in Decimals(s)[i] {
      assert AllDigits(Decimals(s)[i]);
    }
  }

  lemma TextHasNoSlash(a: Addr)
    ensures '/' !in Text(a)
  {
    DecimalsFreeOfMarks(ToBytes(a, 4));
    JoinFreeOf(Decimals(ToBytes(a, 4)), '.', '/');
  }

  /** Different addresses have different texts, so a set of texts stands for a set of addresses. */
  lemma TextInjective(a: Addr, b: Addr)
    ensures Text(a) == Text(b) <==> a == b
  {
    if Text(a) == Text(b) {
      DottedInjective(ToBytes(a, 4), ToBytes(b, 4));
      Pow256Of4();
      ValueOfBytes(a, 4);
      ValueOfBytes(b, 4);
    }
  }

  lemma TextNonEmpty(a: Addr)
    ensures Text(a) != ""
  {
    var s := ToBytes(a, 4);
    DecimalsFreeOfMarks(s);
    JoinThenSplit(Decimals(s), '.');
    SplitWhole("", '.');
  }

  lemma Pow256Of4()
    ensures Pow256(4) == SPACE
  {
    assert Pow256(1) == 256;
    assert Pow256(2) == 65536;
    assert Pow256(3) == 16777216;
  }

  // ---------------------------------------------------------------- blocks

  lemma RemainderAtMost(a: nat, d: nat)
    requires d > 0
    ensures a % d <= a
  {
    var q, r := DivMod(a, d);
  }

  /** An address with a prefix length, as CIDR notation writes it; `addr` may have host bits set. */
  datatype Cidr = Cidr(addr: Addr, prefix: nat)

  predicate ValidCidr(c: Cidr) { c.prefix <= 32 }

  /** How many addresses share the prefix. */
  function Size(c: Cidr): nat
    requires ValidCidr(c)
  {
    Pow2(32 - c.prefix)
  }

  /** The address with its host bits cleared: the first of the block. */
  function Network(c: Cidr): Addr
    requires ValidCidr(c)
  {
    RemainderAtMost(c.addr, Size(c));
    c.addr - c.addr % Size(c)
  }

  predicate Canonical(c: Cidr)
    requires ValidCidr(c)
  {
    c.addr == Network(c)
  }

  /** Agreement on the prefix bits, which is what `net.IPNet.Contains` compares. */
  predicate Contains(c: Cidr, a: Addr)
    requires ValidCidr(c)
  {
    a / Size(c) == c.addr / Size(c)
  }

  lemma {:induction false} Pow2Monotone(m: nat, n: nat)
    requires m < n
    ensures Pow2(m) < Pow2(n)
  {
    if m + 1 < n { Pow2Monotone(m, n - 1); }
  }

  lemma {:induction false} Pow2Sum(m: nat, n: nat)
    ensures Pow2(m + n) == Pow2(m) * Pow2(n)
  {
    if m > 0 {
      Pow2Sum(m - 1, n);
      MulAssoc(2, Pow2(m - 1), Pow2(n));
    }
  }

  lemma Pow2Of32()
    ensures Pow2(32) == SPACE && Pow2(16) == 0x1_0000
  {
    assert Pow2(0) == 1 && Pow2(1) == 2;
    Pow2Sum(1, 1);
    Pow2Sum(2, 2);
    Pow2Sum(4, 4);
    Pow2Sum(8, 8);
    Pow2Sum(16, 16);
  }

  /** Prefix agreement is membership of the interval of `Size` addresses that starts at the network address. */
  lemma BlockIsInterval(c: Cidr, a: Addr)
    requires ValidCidr(c)
    ensures Contains(c, a) <==> Network(c) <= a < Network(c) + Size(c)
    ensures Network(c) + Size(c) <= SPACE
  {
    var d := Size(c);
    var q, r := DivMod(c.addr, d);
    assert Network(c) == q * d;
    var q', r' := DivMod(a, d);
    MulApart(q, q', d);
    MulApart(q', q, d);
    Pow2Of32();
    Pow2Sum(c.prefix, 32 - c.prefix);
    MulApart(Pow2(c.prefix), q, d);
    MulApart(q, Pow2(c.prefix), d);
  }

  /** Every address of `inner` is an address of `outer`. */
  ghost predicate Within(inner: Cidr, outer: Cidr)
    requires ValidCidr(inner) && ValidCidr(outer)
  {
    forall a: Addr :: Contains(inner, a) ==> Contains(outer, a)
  }

  lemma CoarserQuotient(a: nat, d: nat, k: nat)
    requires d > 0 && k > 0
    ensures d * k > 0 && a / (d * k) == (a / d) / k
  {
    var q, r := DivMod(a, d);
    var q2, r2 := DivMod(q, k);
    assert a == q2 * (d * k) + (r2 * d + r) by {
      assert (q2 * k + r2) * d == q2 * (d * k) + r2 * d;
    }
    MulApart(r2, k, d);
    assert k * d == d * k;
    DivModUnique(a, d * k, q2, r2 * d + r);
  }

  /** Two blocks with an address in common are nested: the longer prefix lies inside the shorter. */
  lemma CommonAddressNests(short: Cidr, long: Cidr, common: Addr)
    requires ValidCidr(short) && ValidCidr(long) && short.prefix <= long.prefix
    requires Contains(short, common) && Contains(long, common)
    ensures Within(long, short)
  {
    var k := Pow2(long.prefix - short.prefix);
    Pow2Sum(32 - long.prefix, long.prefix - short.prefix);
    forall a: Addr | Contains(long, a) ensures Contains(short, a) {
      CoarserQuotient(a, Size(long), k);
      CoarserQuotient(common, Size(long), k);
    }
  }
}
