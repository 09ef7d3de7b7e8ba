/** Private addresses over whole runs, for a store that gives addresses back as written and for one whose
    network-typed column appends a netmask. */
module AddressReadBack {
  import opened Options
  import opened Ipv4
  import opened Subnets
  import opened Allocation
  import opened InstanceRecords
  import opened AddressRuns

  /** Addresses come back as written, or with a netmask behind them. */
  ghost predicate PlainOrNetmask(suffix: string) { suffix == "" || '/' in suffix }

  /** Nothing on record, the gateway included, is recognised as used once a netmask stands behind it. */
  lemma NothingLooksUsed(env: Env, records: map<nat, Record>, sid: nat, a: Addr)
    requires ValidEnv(env) && '/' in env.suffix && sid in env.subnets
    ensures Text(a) !in UsedTexts(GatewayText(env, sid), Listed(env, records, sid))
  {
    hide Text, ValidEnv;
    TextHasNoSlash(a);
    TextNonEmpty(a);
    assert forall text: string | text != "" :: '/' in ReadBack(text, env.suffix);
  }

  lemma SizeAboveOne(c: Cidr)
    requires ValidCidr(c)
    ensures if c.prefix <= 31 then Size(c) > 1 else Size(c) == 1
  {
    if c.prefix <= 31 { Pow2Monotone(0, 32 - c.prefix); }
  }

  /** Behind a netmask every allocation, whatever is on record, gives out the first address above the network
      address; a one-address block has none. */
  lemma FirstAddressAlways(env: Env, records: map<nat, Record>, sid: nat)
    requires ValidEnv(env) && '/' in env.suffix && sid in env.subnets
    ensures var c := env.subnets[sid].block;
            && (c.prefix <= 31 ==> Network(c) + 1 < SPACE)
            && AllocatedIp(env, records, sid) == if c.prefix <= 31 then Some(Text(Network(c) + 1)) else None
  {
    hide Text, UsedTexts, Listed, Network, Size, FirstFree;
    var c := env.subnets[sid].block;
    var used := UsedTexts(GatewayText(env, sid), Listed(env, records, sid));
    BlockIsInterval(c, c.addr);
    SizeAboveOne(c);
    if c.prefix <= 31 {
      NothingLooksUsed(env, records, sid, Network(c) + 1);
      FirstFreeIs(Network(c) + 1, Network(c) + Size(c), used, Some(Network(c) + 1));
    } else {
      FirstFreeIs(Network(c) + 1, Network(c) + Size(c), used, None);
    }
  }

  // ---------------------------------------------------------------- safety

  /** `ip` is the first address of the block. */
  ghost predicate IsFirst(c: Cidr, ip: string)
    requires ValidCidr(c)
  {
    c.prefix <= 31 && Network(c) + 1 < SPACE && ip == Text(Network(c) + 1)
  }

  /** Every held address is the first one of its block. */
  ghost predicate AllHoldFirst(env: Env, s: State)
    requires ValidEnv(env)
  {
    forall sid, id | sid in env.subnets && id in Holding(s, sid) :: IsFirst(env.subnets[sid].block, s.records[id].ip)
  }

  lemma AllocatedIsFirst(env: Env, records: map<nat, Record>, sid: nat)
    requires ValidEnv(env) && '/' in env.suffix && sid in env.subnets && AllocatedIp(env, records, sid).Some?
    ensures IsFirst(env.subnets[sid].block, AllocatedIp(env, records, sid).value)
  {
    FirstAddressAlways(env, records, sid);
  }

  lemma AddedRecordHoldsFirst(env: Env, s: State, record: Record)
    requires ValidEnv(env) && AllHoldFirst(env, s)
    requires record.ip != "" && record.subnet.Some? && record.subnet.value in env.subnets ==>
               IsFirst(env.subnets[record.subnet.value].block, record.ip)
    ensures AllHoldFirst(env, State(s.records[s.n := record], s.n + 7))
  {
    hide IsFirst;
  }

  lemma LaunchHoldsFirst(env: Env, s: State, portsValid: bool, subnet: Option<nat>)
    requires ValidEnv(env) && '/' in env.suffix && AllHoldFirst(env, s)
    ensures AllHoldFirst(env, Launched(env, s, portsValid, subnet))
  {
    if portsValid && env.ok(s.n) {
      hide AllocatedIp, IsFirst, AllHoldFirst, ValidEnv;
      if subnet.Some? && subnet.value in env.subnets && AllocatedIp(env, s.records, subnet.value).Some? {
        AllocatedIsFirst(env, s.records, subnet.value);
      }
      AddedRecordHoldsFirst(env, s, Launched(env, s, portsValid, subnet).records[s.n]);
    }
  }

  lemma {:induction false} RunHoldsFirst(env: Env, steps: seq<Step>)
    requires ValidEnv(env) && '/' in env.suffix
    ensures AllHoldFirst(env, Run(env, steps))
  {
    if steps != [] {
      var before, last := steps[..|steps| - 1], steps[|steps| - 1];
      RunHoldsFirst(env, before);
      if last.Launch? { LaunchHoldsFirst(env, Run(env, before), last.portsValid, last.subnet); }
    }
  }

  /** How many records can hold the first address of a block without harm. */
  ghost function Harmless(c: Cidr): nat
    requires ValidCidr(c)
  {
    if Canonical(c) then 0 else 1
  }

  lemma FirstIsGoodIff(subnet: Subnet)
    requires var c := subnet.block;
             ValidCidr(c) && c.prefix <= 31 && Network(c) + 1 < SPACE && subnet.gateway == GatewayOf(c)
    ensures GoodIp(subnet, Text(Network(subnet.block) + 1)) <==> !Canonical(subnet.block)
  {
    var c := subnet.block;
    GatewayPlacement(c);
    SizeAboveOne(c);
    OfferedIsInterval(c, Network(c) + 1);
    hide Text, Network, Size, GatewayOf, Offered, Contains;
    if !Canonical(c) { assert Assignable(subnet, Text(Network(c) + 1), Network(c) + 1); }
  }

  lemma AtMostOne(ids: set<nat>)
    ensures |ids| <= 1 <==> forall id, other | id in ids && other in ids :: id == other
  {
    if ids != {} {
      var id :| id in ids;
      assert ids == {id} + (ids - {id});
      if |ids| > 1 {
        var other :| other in ids - {id};
      }
    }
  }

  /** Behind a netmask a state of a run is safe exactly when no canonical block has an address held and no other
      block has two: the first address of a canonical block is the gateway's. */
  lemma NetmaskSafeIff(env: Env, s: State)
    requires ValidEnv(env) && AllHoldFirst(env, s) && forall id | id in s.records :: id < s.n
    ensures Safe(env, s) <==> forall sid | sid in env.subnets :: |Holding(s, sid)| <= Harmless(env.subnets[sid].block)
  {
    hide GoodIp, Text, Network, Canonical;
    forall sid | sid in env.subnets
      ensures SubnetSafe(env, s, sid) <==> |Holding(s, sid)| <= Harmless(env.subnets[sid].block)
    {
      AtMostOne(Holding(s, sid));
      if id :| id in Holding(s, sid) {
        var ip := s.records[id].ip;
        FirstIsGoodIff(env.subnets[sid]);
      }
    }
    SafeBySubnet(env, s);
  }

  ghost predicate SubnetSafe(env: Env, s: State, sid: nat)
    requires ValidEnv(env) && sid in env.subnets
  {
    && (forall id | id in Holding(s, sid) :: GoodIp(env.subnets[sid], s.records[id].ip))
    && (forall id, other | id in Holding(s, sid) && other in Holding(s, sid) ::
          id != other ==> s.records[id].ip != s.records[other].ip)
  }

  lemma SafeBySubnet(env: Env, s: State)
    requires ValidEnv(env) && forall id | id in s.records :: id < s.n
    ensures Safe(env, s) <==> forall sid | sid in env.subnets :: SubnetSafe(env, s, sid)
  {
    hide GoodIp, ValidEnv;
  }

  /** In every run, with any calls failing: a store that gives addresses back as written keeps them unshared, in
      their block and off the gateway; one that appends a netmask does so exactly while no canonical block has an
      address held and no other block has two. */
  lemma SafeIff(env: Env, steps: seq<Step>)
    requires ValidEnv(env) && PlainOrNetmask(env.suffix)
    ensures var s := Run(env, steps);
            Safe(env, s) <==>
              || env.suffix == ""
              || forall sid | sid in env.subnets :: |Holding(s, sid)| <= Harmless(env.subnets[sid].block)
  {
    if env.suffix == "" {
      RunIsSafe(env, steps);
    } else {
      RunHoldsFirst(env, steps);
      RecordIdsAreOld(env, steps);
      NetmaskSafeIff(env, Run(env, steps));
    }
  }

  // ---------------------------------------------------------------- allocation, launch, termination

  lemma AllocatedNonEmpty(env: Env, records: map<nat, Record>, sid: nat)
    requires ValidEnv(env) && sid in env.subnets && AllocatedIp(env, records, sid).Some?
    ensures AllocatedIp(env, records, sid).value != ""
  {
    hide Text;
    var found := Available(env.subnets[sid].block, UsedTexts(GatewayText(env, sid), Listed(env, records, sid)));
    TextNonEmpty(found.value);
  }

  /** The block has an address to give: fewer held than its capacity, or, behind a netmask, any at all. */
  ghost predicate HasRoom(env: Env, s: State, sid: nat)
    requires ValidEnv(env) && sid in env.subnets
  {
    var c := env.subnets[sid].block;
    if env.suffix == "" then |Holding(s, sid)| < Capacity(c) else c.prefix <= 31
  }

  /** In every run, allocation succeeds exactly while the block has room; behind a netmask it never runs out. */
  lemma AllocationSucceedsIff(env: Env, steps: seq<Step>, sid: nat)
    requires ValidEnv(env) && PlainOrNetmask(env.suffix) && sid in env.subnets
    ensures AllocatedIp(env, Run(env, steps).records, sid).Some? <==> HasRoom(env, Run(env, steps), sid)
    ensures env.suffix == "" ==> |Holding(Run(env, steps), sid)| <= Capacity(env.subnets[sid].block)
  {
    hide AllocatedIp, Run, Capacity;
    if env.suffix == "" {
      PlainAllocationSucceedsIff(env, steps, sid);
    } else {
      FirstAddressAlways(env, Run(env, steps).records, sid);
    }
  }

  /** In every run, a launch into a subnet in which no call fails ends with a running instance that holds an
      address exactly while the block has one to give. */
  lemma LaunchSucceedsIff(env: Env, steps: seq<Step>, sid: nat)
    requires ValidEnv(env) && PlainOrNetmask(env.suffix) && env.hasNetwork && sid in env.subnets
    requires forall i: nat :: env.ok(i)
    ensures var s := Run(env, steps);
            var t := Apply(env, s, Launch(true, Some(sid)));
            && s.n in t.records && s.n !in s.records
            && (t.records[s.n].status == Running && s.n in Holding(t, sid) <==> HasRoom(env, s, sid))
  {
    var s := Run(env, steps);
    RecordIdsAreOld(env, steps);
    AllocationSucceedsIff(env, steps, sid);
    hide Run, AllocatedIp, Launched, HasRoom, ValidEnv;
    CleanLaunch(env, s, sid);
    if AllocatedIp(env, s.records, sid).Some? { AllocatedNonEmpty(env, s.records, sid); }
  }

  /** The record a launch leaves when no call fails. */
  lemma CleanLaunch(env: Env, s: State, sid: nat)
    requires ValidEnv(env) && env.hasNetwork && sid in env.subnets && forall i: nat :: env.ok(i)
    ensures var ip := AllocatedIp(env, s.records, sid);
            var record := if ip.Some? then Record(Some(sid), ip.value, Running) else Record(Some(sid), "", Starting);
            Launched(env, s, true, Some(sid)) == State(s.records[s.n := record], s.n + 7)
  {
    hide AllocatedIp;
  }

  /** A launch whose container cannot be created still takes its address: the record keeps it, in status error,
      until it is terminated. */
  lemma FailedLaunchHoldsAddress(env: Env, s: State, sid: nat)
    requires ValidEnv(env) && env.hasNetwork && sid in env.subnets
    requires AllocatedIp(env, s.records, sid).Some?
    requires !env.ok(s.n + 5) && forall i: nat | i != s.n + 5 :: env.ok(i)
    ensures var t := Apply(env, s, Launch(true, Some(sid)));
            && s.n in Holding(t, sid) && t.records[s.n].status == Error
            && Some(t.records[s.n].ip) == AllocatedIp(env, s.records, sid)
  {
    hide AllocatedIp;
    AllocatedNonEmpty(env, s.records, sid);
  }

  /** In every run, a termination that goes through makes the address available again. */
  lemma TerminationFreesAddress(env: Env, steps: seq<Step>, sid: nat, id: nat)
    requires ValidEnv(env) && PlainOrNetmask(env.suffix) && sid in env.subnets
    requires var s := Run(env, steps);
             id in Holding(s, sid) && env.ok(s.n) && env.ok(s.n + 1) && env.ok(s.n + 2)
    ensures var s := Run(env, steps);
            var t := Apply(env, s, Terminate(id));
            id !in t.records && s.records[id].ip !in UsedTexts(GatewayText(env, sid), Listed(env, t.records, sid))
  {
    hide Text, UsedTexts, Listed, Run, Offered, GatewayOf;
    var s := Run(env, steps);
    var ip, t := s.records[id].ip, Terminated(env, s, id);
    if env.suffix == "" {
      RunIsSafe(env, steps);
      assert GoodIp(env.subnets[sid], ip);
      UsedPlain(env, t, sid, ip);
    } else {
      RunHoldsFirst(env, steps);
      NothingLooksUsed(env, t.records, sid, Network(env.subnets[sid].block) + 1);
    }
  }

  // ---------------------------------------------------------------- when the store changes the text

  /** Every run is safe, whatever the subnets and failures, if the store appends `suffix` to addresses it reads back. */
  ghost predicate SafetyGuaranteed(suffix: string) {
    forall env: Env, steps: seq<Step> | ValidEnv(env) && env.suffix == suffix :: Safe(env, Run(env, steps))
  }

  /** One /24 subnet, and calls that never fail. */
  ghost function OneSubnet(suffix: string): Env {
    var c := Cidr(0x0a00_0000, 24);
    Env(_ => true, true, map[0 := Subnet(c, GatewayOf(c))], suffix)
  }

  lemma OneSubnetIsValid(suffix: string)
    ensures var env := OneSubnet(suffix);
            && ValidEnv(env) && Network(env.subnets[0].block) == 0x0a00_0000 && Size(env.subnets[0].block) == 256
            && GatewayText(env, 0) == Some(ReadBack(Text(0x0a00_0001), suffix))
  {
    var c := Cidr(0x0a00_0000, 24);
    assert Pow2(0) == 1 && Pow2(1) == 2;
    Pow2Sum(1, 1);
    Pow2Sum(2, 2);
    Pow2Sum(4, 4);
    assert Size(c) == 256 && Network(c) == c.addr;
    CanonicalGateway(c);
  }

  /** If the only address on record is the first one, read back longer than it was written, the first one is free. */
  lemma FirstLooksFree(suffix: string, records: map<nat, Record>)
    requires suffix != ""
    requires forall id | id in records && records[id].subnet == Some(0) :: records[id].ip == Text(0x0a00_0001)
    ensures ValidEnv(OneSubnet(suffix)) && AllocatedIp(OneSubnet(suffix), records, 0) == Some(Text(0x0a00_0001))
  {
    var env := OneSubnet(suffix);
    OneSubnetIsValid(suffix);
    var first := Text(0x0a00_0001);
    TextNonEmpty(0x0a00_0001);
    assert ReadBack(first, suffix) != first by { assert |first + suffix| > |first|; }
    var used := UsedTexts(GatewayText(env, 0), Listed(env, records, 0));
    assert first !in used;
    FirstFreeIs(0x0a00_0001, 0x0a00_0100, used, Some(0x0a00_0001));
  }

  /** Two launches in a row then get the same address, which is the gateway's. */
  lemma TwoLaunchesShare(suffix: string)
    requires suffix != ""
    ensures var env := OneSubnet(suffix);
            ValidEnv(env) && !Safe(env, Run(env, [Launch(true, Some(0)), Launch(true, Some(0))]))
  {
    hide Launched, ValidEnv, GoodIp, Text;
    var env, step := OneSubnet(suffix), Launch(true, Some(0));
    OneSubnetIsValid(suffix);
    assert [step][..0] == [] && [step, step][..1] == [step];
    var record := Record(Some(0), Text(0x0a00_0001), Running);
    LaunchGetsFirst(suffix, State(map[], 0));
    assert Run(env, [step]) == State(map[0 := record], 7);
    LaunchGetsFirst(suffix, State(map[0 := record], 7));
    var two := Run(env, [step, step]);
    TextNonEmpty(0x0a00_0001);
    assert 0 in Holding(two, 0) && 7 in Holding(two, 0) && two.records[0].ip == two.records[7].ip;
  }

  lemma LaunchGetsFirst(suffix: string, s: State)
    requires suffix != ""
    requires forall id | id in s.records && s.records[id].subnet == Some(0) :: s.records[id].ip == Text(0x0a00_0001)
    ensures ValidEnv(OneSubnet(suffix))
    ensures Launched(OneSubnet(suffix), s, true, Some(0))
         == State(s.records[s.n := Record(Some(0), Text(0x0a00_0001), Running)], s.n + 7)
  {
    hide AllocatedIp, Text;
    FirstLooksFree(suffix, s.records);
  }

  /** Addresses stay unshared in every run if and only if the store gives them back exactly as written. A
      network-typed column cast to text appends "/32", and then they do not. */
  lemma SafeIffReadBackPlain(suffix: string)
    ensures SafetyGuaranteed(suffix) <==> suffix == ""
  {
    if suffix == "" {
      forall env: Env, steps: seq<Step> | ValidEnv(env) && env.suffix == suffix ensures Safe(env, Run(env, steps)) {
        RunIsSafe(env, steps);
      }
    } else {
      TwoLaunchesShare(suffix);
    }
  }
}
