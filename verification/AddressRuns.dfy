/** What every run of launches and terminations keeps about private addresses. */
module AddressRuns {
  import opened Options
  import opened Sets
  import opened Ipv4
  import opened Subnets
  import opened Allocation
  import opened InstanceRecords

  /** The records of a subnet that hold an address. */
  ghost function Holding(s: State, sid: nat): set<nat> {
    set id | id in s.records && s.records[id].subnet == Some(sid) && s.records[id].ip != ""
  }

  /** `ip` is the text of `a`, which is in the block and neither the network address, except of a /0 block, nor the
      gateway. */
  ghost predicate Assignable(subnet: Subnet, ip: string, a: Addr)
    requires ValidCidr(subnet.block)
  {
    ip == Text(a) && Offered(subnet.block, a) && Some(ip) != subnet.gateway
  }

  ghost predicate GoodIp(subnet: Subnet, ip: string)
    requires ValidCidr(subnet.block)
  {
    exists a: Addr :: Assignable(subnet, ip, a)
  }

  ghost predicate Safe(env: Env, s: State)
    requires ValidEnv(env)
  {
    && (forall id | id in s.records :: id < s.n)
    && (forall sid, id | sid in env.subnets && id in Holding(s, sid) :: GoodIp(env.subnets[sid], s.records[id].ip))
    && (forall sid, id, other | sid in env.subnets && id in Holding(s, sid) && other in Holding(s, sid) ::
          id != other ==> s.records[id].ip != s.records[other].ip)
  }

  /** What the allocator avoids, when the store gives texts back unchanged. */
  lemma UsedPlain(env: Env, s: State, sid: nat, text: string)
    requires ValidEnv(env) && env.suffix == "" && sid in env.subnets && text != ""
    ensures text in UsedTexts(GatewayText(env, sid), Listed(env, s.records, sid))
            <==> || Some(text) == env.subnets[sid].gateway
                 || exists id :: id in Holding(s, sid) && s.records[id].ip == text
  {
    hide ValidEnv;
    forall t: string ensures ReadBack(t, "") == t { assert t + "" == t; }
    if id :| id in Holding(s, sid) && s.records[id].ip == text {
      assert ReadBack(s.records[id].ip, env.suffix) in Listed(env, s.records, sid);
    }
  }

  /** A freshly allocated address is good and differs from every held one. */
  lemma AllocatedIsFresh(env: Env, s: State, sid: nat)
    requires ValidEnv(env) && env.suffix == "" && sid in env.subnets
    requires AllocatedIp(env, s.records, sid).Some?
    ensures var ip := AllocatedIp(env, s.records, sid).value;
            GoodIp(env.subnets[sid], ip) && forall id | id in Holding(s, sid) :: s.records[id].ip != ip
  {
    hide Text, Available, UsedTexts;
    var subnet := env.subnets[sid];
    var used := UsedTexts(GatewayText(env, sid), Listed(env, s.records, sid));
    AvailableIsFirstFree(subnet.block, used);
    var a := Available(subnet.block, used).value;
    TextNonEmpty(a);
    UsedPlain(env, s, sid, Text(a));
    assert Assignable(subnet, Text(a), a);
  }

  /** Adding a record whose address, if any, is good and fresh. */
  lemma AddedRecordKeepsSafe(env: Env, s: State, record: Record)
    requires ValidEnv(env) && Safe(env, s)
    requires record.ip != "" && record.subnet.Some? && record.subnet.value in env.subnets ==>
               && GoodIp(env.subnets[record.subnet.value], record.ip)
               && forall id | id in Holding(s, record.subnet.value) :: s.records[id].ip != record.ip
    ensures Safe(env, State(s.records[s.n := record], s.n + 7))
  {
    hide GoodIp, ValidEnv;
    var t := State(s.records[s.n := record], s.n + 7);
    forall sid: nat
      ensures Holding(t, sid) == Holding(s, sid) + (if record.subnet == Some(sid) && record.ip != "" then {s.n} else {})
    {
    }
  }

  lemma LaunchKeepsSafe(env: Env, s: State, portsValid: bool, subnet: Option<nat>)
    requires ValidEnv(env) && env.suffix == "" && Safe(env, s)
    ensures Safe(env, Launched(env, s, portsValid, subnet))
  {
    hide AllocatedIp, GoodIp, Safe, Holding;
    if portsValid && env.ok(s.n) {
      if subnet.Some? && subnet.value in env.subnets && AllocatedIp(env, s.records, subnet.value).Some? {
        AllocatedIsFresh(env, s, subnet.value);
      }
      AddedRecordKeepsSafe(env, s, Launched(env, s, portsValid, subnet).records[s.n]);
    } else {
      LaterKeepsSafe(env, s, s.n + 7);
    }
  }

  lemma LaterKeepsSafe(env: Env, s: State, n: nat)
    requires ValidEnv(env) && Safe(env, s) && s.n <= n
    ensures Safe(env, s.(n := n))
  {
    hide GoodIp, ValidEnv;
    assert forall sid :: Holding(s.(n := n), sid) == Holding(s, sid);
  }

  lemma TerminateKeepsSafe(env: Env, s: State, id: nat)
    requires ValidEnv(env) && Safe(env, s)
    ensures Safe(env, Terminated(env, s, id))
  {
    var t := Terminated(env, s, id);
    assert forall sid :: Holding(t, sid) <= Holding(s, sid);
  }

  /** In every run, with any calls failing: no two records of a subnet share an address, and every held address
      lies in the block, above the network address, and is not the gateway. */
  lemma {:induction false} RunIsSafe(env: Env, steps: seq<Step>)
    requires ValidEnv(env) && env.suffix == ""
    ensures Safe(env, Run(env, steps))
  {
    if steps != [] {
      var before, last := steps[..|steps| - 1], steps[|steps| - 1];
      RunIsSafe(env, before);
      match last
      case Launch(portsValid, subnet) => LaunchKeepsSafe(env, Run(env, before), portsValid, subnet);
      case Terminate(id) => TerminateKeepsSafe(env, Run(env, before), id);
    }
  }

  // ---------------------------------------------------------------- capacity

  /** The addresses from `lo` up to but not including `hi`. */
  ghost function Interval(lo: nat, hi: nat): (r: set<Addr>)
    requires hi <= SPACE
    ensures forall a: Addr :: a in r <==> lo <= a < hi
    ensures |r| == if lo < hi then hi - lo else 0
  {
    if lo >= hi then {} else Interval(lo, hi - 1) + {hi - 1}
  }

  /** The addresses on offer, less the gateway when it falls among them. */
  ghost function Assignables(c: Cidr): (r: set<Addr>)
    requires ValidCidr(c)
    ensures forall a: Addr :: a in r <==> Offered(c, a) && a != c.addr + 1
  {
    assert forall a: Addr :: Offered(c, a) <==> a in Offers(c) by {
      forall a: Addr ensures Offered(c, a) <==> a in Offers(c) { OfferedIsInterval(c, a); }
    }
    if c.addr + 1 < SPACE then Offers(c) - {c.addr + 1} else Offers(c)
  }

  ghost function Offers(c: Cidr): (r: set<Addr>)
    requires ValidCidr(c)
  {
    BlockIsInterval(c, c.addr);
    Interval(Network(c) + (if c.prefix == 0 then 0 else 1), Network(c) + Size(c))
  }

  function Capacity(c: Cidr): int
    requires ValidCidr(c)
  {
    Size(c) - (if c.prefix == 0 then 0 else 1) - (if c.addr + 1 < Network(c) + Size(c) then 1 else 0)
  }

  lemma LessOne(above: set<Addr>, a: Addr)
    ensures |above - {a}| == |above| - (if a in above then 1 else 0)
  {
    if a !in above { assert above - {a} == above; }
  }

  lemma AssignablesSize(c: Cidr)
    requires ValidCidr(c)
    ensures |Assignables(c)| == Capacity(c)
  {
    BlockIsInterval(c, c.addr);
    hide Network, Size, Interval;
    assert |Offers(c)| == Size(c) - (if c.prefix == 0 then 0 else 1);
    if c.addr + 1 < SPACE { LessOne(Offers(c), c.addr + 1); }
  }

  /** The addresses that the records in `ids` hold. */
  ghost function AddressesOf(s: State, ids: set<nat>, among: set<Addr>): set<Addr> {
    set a | a in among && exists id :: id in ids && id in s.records && s.records[id].ip == Text(a)
  }

  /** Records with distinct good addresses hold as many addresses as there are records. */
  lemma {:induction false} OneAddressEach(s: State, ids: set<nat>, among: set<Addr>)
    requires forall id | id in ids :: id in s.records && exists a :: a in among && s.records[id].ip == Text(a)
    requires forall id, other | id in ids && other in ids && id != other :: s.records[id].ip != s.records[other].ip
    ensures |AddressesOf(s, ids, among)| == |ids|
    decreases ids
  {
    hide Text, AddressesOf;
    if ids == {} {
      NoAddresses(s, among);
    } else {
      var id :| id in ids;
      var rest := ids - {id};
      OneAddressEach(s, rest, among);
      var a :| a in among && s.records[id].ip == Text(a);
      AddressesWithOneMore(s, rest, among, id, a);
      assert ids == rest + {id};
    }
  }

  lemma NoAddresses(s: State, among: set<Addr>)
    ensures AddressesOf(s, {}, among) == {}
  {
  }

  lemma AddressesWithOneMore(s: State, rest: set<nat>, among: set<Addr>, id: nat, a: Addr)
    requires id in s.records && s.records[id].ip == Text(a) && a in among
    requires forall other | other in rest :: other in s.records ==> s.records[other].ip != s.records[id].ip
    ensures AddressesOf(s, rest + {id}, among) == AddressesOf(s, rest, among) + {a}
    ensures a !in AddressesOf(s, rest, among)
  {
    hide Text;
    var more := AddressesOf(s, rest + {id}, among);
    forall b: Addr ensures b in more <==> b in AddressesOf(s, rest, among) || b == a {
      TextInjective(a, b);
      assert id in rest + {id};
      if b in AddressesOf(s, rest, among) {
        var other :| other in rest && other in s.records && s.records[other].ip == Text(b);
        assert other in rest + {id};
      }
    }
  }

  lemma GoodIsAssignable(subnet: Subnet, ip: string)
    requires ValidCidr(subnet.block) && subnet.gateway == GatewayOf(subnet.block)
    ensures GoodIp(subnet, ip) <==> exists a :: a in Assignables(subnet.block) && ip == Text(a)
  {
    var c := subnet.block;
    GatewayPlacement(c);
    hide Text, Offered, GatewayOf, Network, Size, Contains;
    forall a: Addr ensures Assignable(subnet, ip, a) <==> a in Assignables(c) && ip == Text(a) {
      if c.addr + 1 < SPACE { TextInjective(a, c.addr + 1); }
    }
  }

  /** In every run, allocation succeeds exactly while fewer addresses are held than the block has to give, when the
      store gives texts back unchanged. */
  lemma PlainAllocationSucceedsIff(env: Env, steps: seq<Step>, sid: nat)
    requires ValidEnv(env) && env.suffix == "" && sid in env.subnets
    ensures var s := Run(env, steps);
            AllocatedIp(env, s.records, sid).Some? <==> |Holding(s, sid)| < Capacity(env.subnets[sid].block)
    ensures |Holding(Run(env, steps), sid)| <= Capacity(env.subnets[sid].block)
  {
    var s := Run(env, steps);
    var subnet := env.subnets[sid];
    var among, ids := Assignables(subnet.block), Holding(s, sid);
    RunIsSafe(env, steps);
    forall id | id in ids ensures exists a :: a in among && s.records[id].ip == Text(a) {
      assert GoodIp(subnet, s.records[id].ip);
      GoodIsAssignable(subnet, s.records[id].ip);
    }
    OneAddressEach(s, ids, among);
    AssignablesSize(subnet.block);
    SubsetSize(AddressesOf(s, ids, among), among);
    ExhaustedIff(env, s, sid);
  }

  /** The allocator has nothing to give exactly when every assignable address is held. */
  lemma ExhaustedIff(env: Env, s: State, sid: nat)
    requires ValidEnv(env) && env.suffix == "" && sid in env.subnets
    ensures AllocatedIp(env, s.records, sid).None?
            <==> var among := Assignables(env.subnets[sid].block);
                 AddressesOf(s, Holding(s, sid), among) == among
  {
    hide Text, Available, UsedTexts, Listed, Offered, AddressesOf, Assignables, Network, Size;
    var c := env.subnets[sid].block;
    var used := UsedTexts(GatewayText(env, sid), Listed(env, s.records, sid));
    AvailableIsFirstFree(c, used);
    forall a: Addr
      ensures a in AddressesOf(s, Holding(s, sid), Assignables(c)) <==> a in Assignables(c) && Text(a) in used
    {
      UsedIffHeld(env, s, sid, a);
    }
    if Available(c, used).Some? {
      GatewayIsUsed(env, s, sid);
      assert Available(c, used).value in Assignables(c);
    }
  }

  lemma GatewayIsUsed(env: Env, s: State, sid: nat)
    requires ValidEnv(env) && env.suffix == "" && sid in env.subnets
    ensures var c := env.subnets[sid].block;
            c.addr + 1 < SPACE ==> Text(c.addr + 1) in UsedTexts(GatewayText(env, sid), Listed(env, s.records, sid))
  {
    hide Text, UsedTexts, Listed;
    var c := env.subnets[sid].block;
    GatewayPlacement(c);
    if c.addr + 1 < SPACE {
      TextNonEmpty(c.addr + 1);
      UsedPlain(env, s, sid, Text(c.addr + 1));
    }
  }

  lemma UsedIffHeld(env: Env, s: State, sid: nat, a: Addr)
    requires ValidEnv(env) && env.suffix == "" && sid in env.subnets
    ensures var c := env.subnets[sid].block;
            a in AddressesOf(s, Holding(s, sid), Assignables(c)) <==>
              a in Assignables(c) && Text(a) in UsedTexts(GatewayText(env, sid), Listed(env, s.records, sid))
  {
    hide Text, UsedTexts, Listed, Holding, Assignables, GatewayOf;
    var c := env.subnets[sid].block;
    TextNonEmpty(a);
    UsedPlain(env, s, sid, Text(a));
    HoldersHaveRecords(s, sid);
    if a in Assignables(c) {
      GatewayPlacement(c);
      if c.addr + 1 < SPACE { TextInjective(a, c.addr + 1); }
    }
  }

  lemma HoldersHaveRecords(s: State, sid: nat)
    ensures forall id | id in Holding(s, sid) :: id in s.records
  {
  }

  /** A canonical block of prefix p, 1 <= p <= 31, has 2^(32-p) - 2 addresses to give. */
  lemma CanonicalCapacity(c: Cidr)
    requires ValidCidr(c) && Canonical(c) && 1 <= c.prefix <= 31
    ensures Capacity(c) == Pow2(32 - c.prefix) - 2
  {
    Pow2Monotone(0, 32 - c.prefix);
  }
}
