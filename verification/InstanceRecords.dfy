/** Address bookkeeping of instance launches and terminations, over whole runs. */
module InstanceRecords {
  import opened Options
  import opened Sets
  import opened Ipv4
  import opened Subnets
  import opened Allocation

  datatype Status = Starting | Running | Error

  /** A row of the instance table; `ip` is empty until an address has been saved. */
  datatype Record = Record(subnet: Option<nat>, ip: string, status: Status)

  /** The world outside the service: outcome of each external call in call order, whether a network backend is
      configured, the subnets, and what the store appends to an address text when it is read back. */
  datatype Env = Env(ok: nat -> bool, hasNetwork: bool, subnets: map<nat, Subnet>, suffix: string)

  /** `n` counts external calls; it also supplies fresh identifiers. */
  datatype State = State(records: map<nat, Record>, n: nat)

  datatype Step = Launch(portsValid: bool, subnet: Option<nat>) | Terminate(id: nat)

  function ReadBack(text: string, suffix: string): string { if text == "" then "" else text + suffix }

  /** The address texts listed for a subnet. */
  function Listed(env: Env, records: map<nat, Record>, sid: nat): set<string> {
    set id | id in records && records[id].subnet == Some(sid) :: ReadBack(records[id].ip, env.suffix)
  }

  function GatewayText(env: Env, sid: nat): Option<string>
    requires sid in env.subnets
  {
    match env.subnets[sid].gateway
    case Some(g) => Some(ReadBack(g, env.suffix))
    case None => None
  }

  /** Every subnet went through subnet creation. */
  ghost predicate ValidEnv(env: Env) {
    forall sid | sid in env.subnets ::
      var s := env.subnets[sid];
      ValidCidr(s.block) && s.gateway == GatewayOf(s.block)
  }

  /** The address for a launch; `None` is one of the error returns before the record is saved again. */
  function ResolvedIp(env: Env, s: State, subnet: Option<nat>): Option<string>
    requires ValidEnv(env)
  {
    if !env.ok(s.n + 1) then None
    else if subnet.None? || !env.hasNetwork then Some("")
    else if subnet.value !in env.subnets || !env.ok(s.n + 2) || !env.ok(s.n + 3) then None
    else AllocatedIp(env, s.records, subnet.value)
  }

  function AllocatedIp(env: Env, records: map<nat, Record>, sid: nat): Option<string>
    requires ValidEnv(env) && sid in env.subnets
  {
    match Available(env.subnets[sid].block, UsedTexts(GatewayText(env, sid), Listed(env, records, sid)))
    case Some(a) => Some(Text(a))
    case None => None
  }

  /** The address search of a launch into this subnet comes to an end: not so only on a /0 block with every address of
      the address space used. */
  ghost predicate SearchEnds(env: Env, records: map<nat, Record>, subnet: Option<nat>)
    requires ValidEnv(env)
  {
    subnet.Some? && subnet.value in env.subnets ==>
      || env.subnets[subnet.value].block.prefix >= 1
      || exists a: Addr :: Text(a) !in UsedTexts(GatewayText(env, subnet.value), Listed(env, records, subnet.value))
  }

  /** A launch whose search does not end leaves its record as one that found no address. */
  function Launched(env: Env, s: State, portsValid: bool, subnet: Option<nat>): State
    requires ValidEnv(env)
  {
    if !portsValid then s
    else if !env.ok(s.n) then s.(n := s.n + 7)
    else
      var ip := ResolvedIp(env, s, subnet);
      var record :=
        if ip.None? || !env.ok(s.n + 4) || !env.ok(s.n + 6) then Record(subnet, "", Starting)
        else Record(subnet, ip.value, if env.ok(s.n + 5) then Running else Error);
      State(s.records[s.n := record], s.n + 7)
  }

  function Terminated(env: Env, s: State, id: nat): State {
    if id in s.records && env.ok(s.n) && env.ok(s.n + 1) && env.ok(s.n + 2)
    then State(s.records - {id}, s.n + 3)
    else s.(n := s.n + 3)
  }

  function Apply(env: Env, s: State, step: Step): State
    requires ValidEnv(env)
  {
    match step
    case Launch(portsValid, subnet) => Launched(env, s, portsValid, subnet)
    case Terminate(id) => Terminated(env, s, id)
  }

  function Run(env: Env, steps: seq<Step>): State
    requires ValidEnv(env)
  {
    if steps == [] then State(map[], 0)
    else Apply(env, Run(env, steps[..|steps| - 1]), steps[|steps| - 1])
  }

  // ---------------------------------------------------------------- the service, step by step

  class InstanceService {
    const env: Env
    var records: map<nat, Record>
    var n: nat

    ghost predicate Valid()
      reads this
    {
      ValidEnv(env) && forall id | id in records :: id < n
    }

    ghost function View(): State
      reads this
    {
      State(records, n)
    }

    constructor (env: Env)
      requires ValidEnv(env)
      ensures Valid() && this.env == env && View() == State(map[], 0)
    {
      this.env := env;
      records := map[];
      n := 0;
    }

    method ListBySubnet(sid: nat) returns (ips: seq<string>)
      ensures (set ip | ip in ips) == Listed(env, records, sid)
    {
      ips := [];
      var todo := records.Keys;
      ghost var seen: map<nat, Record> := map[];
      while todo != {}
        invariant todo <= records.Keys
        invariant seen == records - todo
        invariant (set ip | ip in ips) == Listed(env, seen, sid)
        decreases todo
      {
        var id :| id in todo;
        todo := todo - {id};
        ListedWithOneMore(env, seen, id, records[id], sid);
        seen := seen[id := records[id]];
        if records[id].subnet == Some(sid) {
          ips := ips + [ReadBack(records[id].ip, env.suffix)];
        }
      }
      assert records - todo == records;
    }

    method ResolveNetworkConfig(base: nat, subnet: Option<nat>) returns (ip: Option<string>)
      requires ValidEnv(env) && SearchEnds(env, records, subnet)
      ensures ip == ResolvedIp(env, State(records, base), subnet)
    {
      if !env.ok(base + 1) { return None; }
      if subnet.Some? && env.hasNetwork {
        if subnet.value !in env.subnets || !env.ok(base + 2) { return None; }
        if !env.ok(base + 3) { return None; }
        var ips := ListBySubnet(subnet.value);
        ip := AllocateIP(env.subnets[subnet.value].block, GatewayText(env, subnet.value), ips);
      } else {
        ip := Some("");
      }
    }

    /** Persist an empty record, resolve the network, and save address and status at the end. */
    method LaunchInstance(portsValid: bool, subnet: Option<nat>) returns (ok: bool)
      requires Valid() && SearchEnds(env, records, subnet)
      modifies this
      ensures Valid() && View() == Launched(env, old(View()), portsValid, subnet)
      ensures ok <==> old(n) in records && records[old(n)].status == Running
      ensures records == old(records) || (old(n) in records && records == old(records)[old(n) := records[old(n)]])
    {
      hide ResolvedIp, SearchEnds, ValidEnv;
      if !portsValid { return false; }
      var id := n;
      n := n + 7;
      if !env.ok(id) { return false; }
      ghost var before := records;
      records := records[id := Record(subnet, "", Starting)];
      NewRecordListsNothing(env, before, id, subnet);
      var ip := ResolveNetworkConfig(id, subnet);
      if ip.None? { return false; }
      if !env.ok(id + 4) { return false; }
      if !env.ok(id + 5) {
        if env.ok(id + 6) {
          records := records[id := Record(subnet, ip.value, Error)];
          assert records == before[id := Record(subnet, ip.value, Error)];
        }
        return false;
      }
      if !env.ok(id + 6) { return false; }
      records := records[id := Record(subnet, ip.value, Running)];
      assert records == before[id := Record(subnet, ip.value, Running)];
      return true;
    }

    method TerminateInstance(id: nat) returns (ok: bool)
      requires Valid()
      modifies this
      ensures Valid() && View() == Terminated(env, old(View()), id)
      ensures ok <==> id in old(records) && env.ok(old(n)) && env.ok(old(n) + 1) && env.ok(old(n) + 2)
      ensures records == if ok then old(records) - {id} else old(records)
    {
      var base := n;
      n := n + 3;
      if id !in records || !env.ok(base) { return false; }
      if !env.ok(base + 1) { return false; }
      if !env.ok(base + 2) { return false; }
      records := records - {id};
      return true;
    }
  }

  // ---------------------------------------------------------------- what a step changes

  /** The address of a launch was found, or none was wanted. */
  ghost predicate Located(env: Env, s: State, subnet: Option<nat>)
    requires ValidEnv(env)
  {
    && env.ok(s.n + 1)
    && (subnet.Some? && env.hasNetwork ==>
          && subnet.value in env.subnets && env.ok(s.n + 2) && env.ok(s.n + 3)
          && AllocatedIp(env, s.records, subnet.value).Some?)
  }

  /** A launch adds at most its own record, exactly when the ports are valid and the first save succeeds. It runs
      exactly when every call succeeds, holds an error exactly when only the container could not be created, and holds
      an address exactly when it got one and the second save succeeded; a launch without a subnet needs none. */
  lemma LaunchOutcome(env: Env, s: State, portsValid: bool, subnet: Option<nat>)
    requires ValidEnv(env)
    ensures var t := Apply(env, s, Launch(portsValid, subnet));
            && (forall id | id in s.records && id != s.n :: id in t.records && t.records[id] == s.records[id])
            && (forall id | id in t.records && id !in s.records :: id == s.n)
            && if !portsValid || !env.ok(s.n) then t.records == s.records
               else
                 var saved := Located(env, s, subnet) && env.ok(s.n + 4) && env.ok(s.n + 6);
                 && s.n in t.records && t.records[s.n].subnet == subnet
                 && (t.records[s.n].status == Running <==> saved && env.ok(s.n + 5))
                 && (t.records[s.n].status == Error <==> saved && !env.ok(s.n + 5))
                 && t.records[s.n].ip ==
                      if saved && subnet.Some? && env.hasNetwork
                      then AllocatedIp(env, s.records, subnet.value).value else ""
  {
    hide AllocatedIp, ValidEnv;
  }

  /** A termination removes its own record, exactly when all three of its calls succeed, and no other. */
  lemma TerminationOutcome(env: Env, s: State, id: nat)
    requires ValidEnv(env)
    ensures var t := Apply(env, s, Terminate(id));
            && (id in t.records <==> id in s.records && !(env.ok(s.n) && env.ok(s.n + 1) && env.ok(s.n + 2)))
            && (forall other | other != id :: other in t.records <==> other in s.records)
            && (forall other | other in t.records :: t.records[other] == s.records[other])
  {
  }

  lemma {:induction false} RecordIdsAreOld(env: Env, steps: seq<Step>)
    requires ValidEnv(env)
    ensures forall id | id in Run(env, steps).records :: id < Run(env, steps).n
  {
    hide ResolvedIp, ValidEnv;
    if steps != [] { RecordIdsAreOld(env, steps[..|steps| - 1]); }
  }

  /** Whatever follows in a run, a record stays as it is until a termination of that very instance. */
  lemma {:induction false} RecordStays(env: Env, steps: seq<Step>, more: seq<Step>, id: nat)
    requires ValidEnv(env) && id in Run(env, steps).records && Terminate(id) !in more
    ensures id in Run(env, steps + more).records && Run(env, steps + more).records[id] == Run(env, steps).records[id]
  {
    if more == [] {
      assert steps + more == steps;
    } else {
      var init, last := more[..|more| - 1], more[|more| - 1];
      assert (steps + more)[..|steps + more| - 1] == steps + init;
      RecordStays(env, steps, init, id);
      RecordIdsAreOld(env, steps + init);
      hide Apply, ValidEnv;
      match last
      case Launch(portsValid, subnet) => LaunchOutcome(env, Run(env, steps + init), portsValid, subnet);
      case Terminate(other) => TerminationOutcome(env, Run(env, steps + init), other);
    }
  }

  lemma ListedWithOneMore(env: Env, records: map<nat, Record>, id: nat, r: Record, sid: nat)
    requires id !in records
    ensures Listed(env, records[id := r], sid)
         == Listed(env, records, sid) + (if r.subnet == Some(sid) then {ReadBack(r.ip, env.suffix)} else {})
  {
    var more := records[id := r];
    forall ip | ip in Listed(env, records, sid) ensures ip in Listed(env, more, sid) {
      var other :| && other in records && records[other].subnet == Some(sid)
                   && ReadBack(records[other].ip, env.suffix) == ip;
      assert other in more && more[other] == records[other];
    }
    if r.subnet == Some(sid) { assert id in more && more[id] == r; }
  }

  lemma {:induction false} ListedSize(env: Env, records: map<nat, Record>, sid: nat)
    ensures |Listed(env, records, sid)| <= |records|
    decreases |records|
  {
    if |records| == 0 {
      assert Listed(env, records, sid) == {};
    } else {
      var id :| id in records;
      var rest := records - {id};
      assert rest[id := records[id]] == records;
      ListedSize(env, rest, sid);
      ListedWithOneMore(env, rest, id, records[id], sid);
    }
  }

  /** With fewer records than addresses to give, every launch comes to an end, into a /0 block too. */
  lemma SearchEndsWhileFew(env: Env, records: map<nat, Record>, subnet: Option<nat>)
    requires ValidEnv(env) && |records| + 1 < SPACE
    ensures SearchEnds(env, records, subnet)
  {
    if subnet.Some? && subnet.value in env.subnets {
      var ips, gateway := Listed(env, records, subnet.value), GatewayText(env, subnet.value);
      hide Listed, GatewayText;
      ListedSize(env, records, subnet.value);
      var saved := set ip | ip in ips && ip != "";
      SubsetSize(saved, ips);
      UnionSize(saved, if gateway.Some? then {gateway.value} else {});
      FewUsedLeaveOne(UsedTexts(gateway, ips));
    }
  }

  /** A record with no address yet is invisible to the allocator. */
  lemma NewRecordListsNothing(env: Env, records: map<nat, Record>, id: nat, subnet: Option<nat>)
    requires ValidEnv(env) && id !in records
    ensures var more := records[id := Record(subnet, "", Starting)];
            && ResolvedIp(env, State(more, id), subnet) == ResolvedIp(env, State(records, id), subnet)
            && (SearchEnds(env, more, subnet) <==> SearchEnds(env, records, subnet))
  {
    var more := records[id := Record(subnet, "", Starting)];
    if subnet.Some? && subnet.value in env.subnets {
      var sid := subnet.value;
      var g := GatewayText(env, sid);
      ListedWithOneMore(env, records, id, Record(subnet, "", Starting), sid);
      assert UsedTexts(g, Listed(env, more, sid)) == UsedTexts(g, Listed(env, records, sid));
    }
  }
}
