/** First-free address allocation in a subnet. */
module Allocation {
  import opened Options
  import opened Sets
  import opened ByteCarry
  import opened Ipv4
  import opened Subnets

  /** The least address in `lo .. hi-1` whose text is not used. */
  function FirstFree(lo: nat, hi: nat, used: set<string>): (r: Option<Addr>)
    requires hi <= SPACE
    ensures r.Some? ==> lo <= r.value < hi && Text(r.value) !in used
    ensures r.Some? ==> forall a: Addr | lo <= a < r.value :: Text(a) in used
    ensures r.None? ==> forall a: Addr | lo <= a < hi :: Text(a) in used
    decreases hi - lo
  {
    if lo >= hi then None
    else if Text(lo) !in used then Some(lo)
    else FirstFree(lo + 1, hi, used)
  }

  /** The search starts after the network address; on a /0 block it wraps round to 0.0.0.0 at the end. */
  function Available(c: Cidr, used: set<string>): Option<Addr>
    requires ValidCidr(c)
  {
    BlockIsInterval(c, c.addr);
    var found := FirstFree(Network(c) + 1, Network(c) + Size(c), used);
    if found.None? && c.prefix == 0 && Text(0) !in used then Some(0) else found
  }

  /** The address after `k` increments, carry falling off the front. */
  function Candidate(c: Cidr, k: nat): Addr
    requires ValidCidr(c)
  {
    (Network(c) + k) % SPACE
  }

  lemma CandidateInBlock(c: Cidr, k: nat)
    requires ValidCidr(c) && 1 <= k <= Size(c)
    ensures k < Size(c) ==> Candidate(c, k) == Network(c) + k && Contains(c, Candidate(c, k))
    ensures k == Size(c) ==> (Contains(c, Candidate(c, k)) <==> c.prefix == 0)
    ensures c.prefix == 0 ==> Size(c) == SPACE && Network(c) == 0
  {
    hide Network, Contains;
    BlockIsInterval(c, c.addr);
    BlockIsInterval(c, Candidate(c, k));
    Pow2Of32();
    if c.prefix > 0 { Pow2Monotone(32 - c.prefix, 32); }
    if Network(c) + k < SPACE {
      DivModUnique(Network(c) + k, SPACE, 0, Network(c) + k);
    } else {
      DivModUnique(Network(c) + k, SPACE, 1, Network(c) + k - SPACE);
    }
  }

  /** Whether the search stops at the k-th candidate. */
  ghost predicate Stops(c: Cidr, used: set<string>, k: nat)
    requires ValidCidr(c)
  {
    !Contains(c, Candidate(c, k)) || Text(Candidate(c, k)) !in used
  }

  /** The search terminates exactly when the prefix is not 0 or some address at all is unused. */
  lemma SearchTerminatesIff(c: Cidr, used: set<string>)
    requires ValidCidr(c)
    ensures (exists k: nat :: k >= 1 && Stops(c, used, k))
            <==> c.prefix >= 1 || exists a: Addr :: Text(a) !in used
  {
    if c.prefix >= 1 {
      CandidateInBlock(c, Size(c));
      assert Stops(c, used, Size(c));
    } else {
      CandidateInBlock(c, 1);
      if a: Addr :| Text(a) !in used {
        var k := if a == 0 then SPACE else a;
        CandidateInBlock(c, k);
        assert Candidate(c, k) == a;
        assert Stops(c, used, k);
      } else {
        forall k: nat | k >= 1 ensures !Stops(c, used, k) {
          BlockIsInterval(c, Candidate(c, k));
        }
      }
    }
  }

  /** The first `k` candidates were all in the block and used. */
  ghost predicate Passed(c: Cidr, used: set<string>, k: nat)
    requires ValidCidr(c)
  {
    && k < Size(c)
    && forall a: Addr | Network(c) < a <= Network(c) + k :: Text(a) in used
  }

  method FindAvailableIP(c: Cidr, used: set<string>) returns (r: Option<string>)
    requires ValidCidr(c)
    requires c.prefix >= 1 || exists a: Addr :: Text(a) !in used
    ensures r == match Available(c, used) case Some(a) => Some(Text(a)) case None => None
  {
    hide Value, Plus, ToBytes, Dotted, Text, Available, Candidate, Contains, Network, Size;
    var net := ToBytes(Network(c), 4);
    var ip := new Byte[4](i requires 0 <= i < 4 => net[i]);
    assert ip[..] == net;
    SearchBegins(c, used);
    ghost var k: nat := 0;
    while true
      invariant Passed(c, used, k) && Value(ip[..]) == Candidate(c, k)
      decreases Size(c) - k
    {
      StepValue(c, k, ip[..]);
      Increment(ip);
      SearchStep(c, used, k, ip[..]);
      k := k + 1;
      if !Contains(c, Value(ip[..])) { return None; }
      if Dotted(ip[..]) !in used { return Some(Dotted(ip[..])); }
    }
  }

  lemma SearchBegins(c: Cidr, used: set<string>)
    requires ValidCidr(c)
    ensures Passed(c, used, 0) && Value(ToBytes(Network(c), 4)) == Candidate(c, 0)
  {
    Pow256Of4();
    ValueOfBytes(Network(c), 4);
    DivModUnique(Network(c), SPACE, 0, Network(c));
  }

  lemma WrapsToZero(c: Cidr)
    requires ValidCidr(c) && c.prefix == 0
    ensures Candidate(c, Size(c)) == 0
  {
    CandidateInBlock(c, Size(c));
    DivModUnique(SPACE, SPACE, 1, 0);
  }

  /** One round of the search: leaving the block or finding an unused text ends it with the right answer,
      and otherwise there is one candidate fewer to try. */
  lemma SearchStep(c: Cidr, used: set<string>, k: nat, ip: seq<Byte>)
    requires ValidCidr(c) && Passed(c, used, k)
    requires c.prefix >= 1 || exists a: Addr :: Text(a) !in used
    requires |ip| == 4 && Value(ip) == Candidate(c, k + 1)
    ensures Dotted(ip) == Text(Value(ip))
    ensures !Contains(c, Value(ip)) ==> Available(c, used).None?
    ensures Contains(c, Value(ip)) && Dotted(ip) !in used ==> Available(c, used) == Some(Value(ip))
    ensures Contains(c, Value(ip)) && Dotted(ip) in used ==> Passed(c, used, k + 1)
  {
    BytesOfValue(ip);
    hide Value, ToBytes, Decimals, Dotted, Candidate, Contains, FirstFree, Network, Size;
    CandidateInBlock(c, k + 1);
    BlockIsInterval(c, c.addr);
    var lo, hi := Network(c) + 1, Network(c) + Size(c);
    if k + 1 < Size(c) {
      if Dotted(ip) !in used { FirstFreeIs(lo, hi, used, Some(Network(c) + k + 1)); }
    } else {
      FirstFreeIs(lo, hi, used, None);
      if c.prefix == 0 {
        WrapsToZero(c);
      }
    }
  }

  lemma StepValue(c: Cidr, k: nat, ip: seq<Byte>)
    requires ValidCidr(c) && |ip| == 4 && Value(ip) == Candidate(c, k)
    ensures Value(Plus(ip, 1)) == Candidate(c, k + 1)
  {
    hide Value, Plus, Pow256, Network;
    PlusValue(ip, 1);
    Pow256Of4();
    var q, r := DivMod(Network(c) + k, SPACE);
    if r + 1 < SPACE {
      DivModUnique(Network(c) + k + 1, SPACE, q, r + 1);
      DivModUnique(r + 1, SPACE, 0, r + 1);
    } else {
      DivModUnique(Network(c) + k + 1, SPACE, q + 1, 0);
      DivModUnique(r + 1, SPACE, 1, 0);
    }
  }

  /** The contract of `FirstFree` determines it. */
  lemma FirstFreeIs(lo: nat, hi: nat, used: set<string>, r: Option<Addr>)
    requires hi <= SPACE
    requires r.Some? ==> lo <= r.value < hi && Text(r.value) !in used
    requires forall a: Addr | lo <= a < (if r.Some? then r.value else hi) :: Text(a) in used
    ensures FirstFree(lo, hi, used) == r
  {
  }

  /** The addresses a search can come to: those of the block above the network address, and on a /0 block, where the
      carry wraps, that one too. */
  predicate Offered(c: Cidr, a: Addr)
    requires ValidCidr(c)
  {
    Contains(c, a) && (a > Network(c) || c.prefix == 0)
  }

  /** How many increments a search needs to come to an address. */
  function Turn(c: Cidr, a: Addr): int
    requires ValidCidr(c)
  {
    if a > Network(c) then a - Network(c) else Size(c)
  }

  lemma OfferedIsInterval(c: Cidr, a: Addr)
    requires ValidCidr(c)
    ensures Offered(c, a) <==> Network(c) + (if c.prefix == 0 then 0 else 1) <= a < Network(c) + Size(c)
    ensures Network(c) + Size(c) <= SPACE
    ensures c.prefix == 0 ==> Network(c) == 0 && Size(c) == SPACE
  {
    BlockIsInterval(c, a);
    CandidateInBlock(c, Size(c));
  }

  /** What the allocator hands out, with no reference to the search: of the unused addresses on offer the one whose turn
      comes first, which is the least of those above the network address; nothing exactly when all are used. */
  lemma AvailableIsFirstFree(c: Cidr, used: set<string>)
    requires ValidCidr(c)
    ensures match Available(c, used)
            case Some(a) =>
              && Offered(c, a) && Text(a) !in used
              && forall b: Addr | Offered(c, b) && Text(b) !in used :: Turn(c, a) <= Turn(c, b)
            case None => forall b: Addr | Offered(c, b) :: Text(b) in used
  {
    hide Available, Turn, Offered, Text;
    if Available(c, used).Some? { AvailableIsOffered(c, used); }
    forall b: Addr | Offered(c, b) && Text(b) !in used
      ensures Available(c, used).Some? && Turn(c, Available(c, used).value) <= Turn(c, b)
    {
      AvailableComesFirst(c, used, b);
    }
  }

  lemma AvailableIsOffered(c: Cidr, used: set<string>)
    requires ValidCidr(c) && Available(c, used).Some?
    ensures Offered(c, Available(c, used).value) && Text(Available(c, used).value) !in used
  {
    hide Offered, Text, FirstFree, Network, Size;
    OfferedIsInterval(c, Available(c, used).value);
  }

  lemma AvailableComesFirst(c: Cidr, used: set<string>, b: Addr)
    requires ValidCidr(c) && Offered(c, b) && Text(b) !in used
    ensures Available(c, used).Some? && Turn(c, Available(c, used).value) <= Turn(c, b)
  {
    hide Offered, Text, FirstFree, Network, Size;
    OfferedIsInterval(c, b);
  }

  /** The texts of the first addresses. */
  ghost function TextsBelow(n: nat): set<string>
    requires n <= SPACE
  {
    if n == 0 then {} else TextsBelow(n - 1) + {Text(n - 1)}
  }

  lemma {:induction false} TextsBelowSize(n: nat)
    requires n <= SPACE
    ensures |TextsBelow(n)| == n
    ensures forall text | text in TextsBelow(n) :: exists a: Addr :: a < n && Text(a) == text
  {
    hide Text;
    if n > 0 {
      TextsBelowSize(n - 1);
      if Text(n - 1) in TextsBelow(n - 1) {
        var a: Addr :| a < n - 1 && Text(a) == Text(n - 1);
        TextInjective(a, n - 1);
      }
    }
  }

  /** Fewer used texts than there are addresses: the search ends on every block. */
  lemma FewUsedLeaveOne(used: set<string>)
    requires |used| < SPACE
    ensures exists a: Addr :: Text(a) !in used
  {
    hide Text, TextsBelow;
    if forall a: Addr :: Text(a) in used {
      TextsBelowSize(SPACE);
      SubsetSize(TextsBelow(SPACE), used);
    }
  }

  /** The texts a search has to avoid: the recorded addresses and the gateway. */
  function UsedTexts(gateway: Option<string>, ips: set<string>): set<string> {
    (set ip | ip in ips && ip != "") + (if gateway.Some? then {gateway.value} else {})
  }

  method AllocateIP(block: Cidr, gateway: Option<string>, instances: seq<string>) returns (r: Option<string>)
    requires ValidCidr(block)
    requires block.prefix >= 1 || exists a: Addr :: Text(a) !in UsedTexts(gateway, set ip | ip in instances)
    ensures var used := UsedTexts(gateway, set ip | ip in instances);
            r == match Available(block, used) case Some(a) => Some(Text(a)) case None => None
  {
    var used: set<string> := {};
    for i := 0 to |instances|
      invariant used == set ip | ip in instances[..i] && ip != ""
    {
      if instances[i] != "" {
        used := used + {instances[i]};
      }
    }
    assert instances[..|instances|] == instances;
    if gateway.Some? {
      used := used + {gateway.value};
    }
    assert used == UsedTexts(gateway, set ip | ip in instances);
    r := FindAvailableIP(block, used);
  }
}
