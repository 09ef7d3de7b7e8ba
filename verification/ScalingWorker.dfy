/** The auto-scaling worker and service as objects: loops and field updates, proved against `Scaling`. */
module ScalingWorker {
  import opened Options
  import opened Links
  import opened Scaling
  import opened ScalingSafety

  /** One tick over one group: `mem` is the copy of the group that the worker mutates, `row` the repository. */
  class Worker {
    const env: Env
    var row: Row
    var mem: Group
    var n: nat

    ghost function View(): Tick
      reads this
    {
      Tick(row, mem, n)
    }

    constructor (env: Env, row: Row, n: nat)
      ensures this.env == env && View() == Tick(row, row.group, n)
    {
      this.env, this.row, this.mem, this.n := env, row, row.group, n;
    }

    method UpdateGroup()
      modifies this
      ensures View() == Update(env, old(View()))
    {
      if env.update(n) { row := row.(group := Stored(env, row.group, mem)); }
      n := n + 1;
    }

    method NoteFailure(startedAt: Time)
      modifies this
      ensures View() == RecordFailure(env, old(View()), startedAt)
    {
      mem := mem.(failures := mem.failures + 1);
      var now := env.clock(n);
      n := n + 1;
      mem := mem.(lastFailure := Some(now));
      row := row.(attempts := row.attempts + [Attempt(startedAt, false, now)]);
      UpdateGroup();
    }

    method ResetFailures(startedAt: Time)
      modifies this
      ensures View() == RecordSuccess(env, old(View()), startedAt)
    {
      row := row.(attempts := row.attempts + [Attempt(startedAt, true, startedAt)]);
      if mem.failures > 0 {
        mem := mem.(failures := 0, lastFailure := None);
        UpdateGroup();
      }
    }

    method LaunchOne() returns (ok: bool)
      modifies this
      ensures (View(), ok) == ScaleOut(env, old(View()))
    {
      var id := n;
      n := n + 3;
      if !env.launch(id + 1) { return false; }
      if !env.link(id + 2) { return false; }
      row := row.(links := row.links + [id]);
      return true;
    }

    method RemoveOne(id: Id) returns (ok: bool)
      modifies this
      ensures (View(), ok) == ScaleIn(env, old(View()), id)
    {
      ok := env.unlink(n);
      n := n + 1;
      if ok {
        var links := RemoveLink(row.links, id);
        row := row.(links := links);
      }
    }

    method LaunchUpTo(needed: nat)
      modifies this
      ensures View() == ScaleOutBy(env, old(View()), needed)
    {
      hide ScaleOut, RecordFailure, RecordSuccess;
      ghost var s := View();
      for i := 0 to needed
        invariant ScaleOutBy(env, View(), needed - i) == ScaleOutBy(env, s, needed)
      {
        var startedAt := env.clock(n);
        var ok := LaunchOne();
        if !ok {
          NoteFailure(startedAt);
          return;
        }
        ResetFailures(startedAt);
      }
    }

    /** The index from the end stays in range because no more is removed than there is. */
    method RemoveExcess(instanceIDs: seq<Id>, excess: nat)
      requires excess <= |instanceIDs|
      modifies this
      ensures View() == ScaleInBy(env, old(View()), instanceIDs, excess)
    {
      ghost var s := View();
      assert instanceIDs[..|instanceIDs|] == instanceIDs;
      for i := 0 to excess
        invariant ScaleInBy(env, View(), instanceIDs[..|instanceIDs| - i], excess - i)
               == ScaleInBy(env, s, instanceIDs, excess)
      {
        assert instanceIDs[..|instanceIDs| - i][..|instanceIDs| - 1 - i] == instanceIDs[..|instanceIDs| - 1 - i];
        var ok := RemoveOne(instanceIDs[|instanceIDs| - 1 - i]);
        if !ok { return; }
      }
    }

    method ClampDesired()
      modifies this
      ensures View() == ForceBounds(env, old(View()))
    {
      if mem.desired < mem.min {
        mem := mem.(desired := mem.min);
        UpdateGroup();
      }
      if mem.desired > mem.max {
        mem := mem.(desired := mem.max);
        UpdateGroup();
      }
    }

    method ReconcileInstances(instanceIDs: seq<Id>)
      requires 0 <= mem.min <= mem.max && instanceIDs == row.links
      modifies this
      ensures View() == Approach(env, ForceBounds(env, old(View())))
    {
      var current := |instanceIDs|;
      ClampDesired();
      if current < mem.desired {
        var skip := BacksOff(mem, env.clock(n));
        n := n + 1;
        if skip { return; }
        LaunchUpTo(mem.desired - current);
      } else if current > mem.desired {
        RemoveExcess(instanceIDs, current - mem.desired);
      }
    }

    method FirePolicy(p: Policy, desired: int)
      modifies this
      ensures View() == Fire(env, old(View()), p, desired)
    {
      mem := mem.(desired := desired);
      UpdateGroup();
      var now := env.clock(n);
      if env.touch(n) { row := row.(policies := Touched(row.policies, p.id, now)); }
      row := row.(firings := row.firings + [Firing(p.id, now, env.touch(n))]);
      n := n + 1;
    }

    method EvaluateScalingPolicies()
      modifies this
      ensures View() == EvaluatePolicies(env, old(View()))
    {
      hide Wish, Cooling, Fire;
      var policies := row.policies;
      if |policies| == 0 { return; }
      var average := env.cpu(n);
      n := n + 1;
      if average.None? { return; }
      ghost var s := View();
      for i := 0 to |policies|
        invariant FirePolicies(env, View(), policies[i..], average.value)
               == FirePolicies(env, s, policies, average.value)
      {
        assert policies[i..][1..] == policies[i + 1..];
        var now := env.clock(n);
        n := n + 1;
        if !Cooling(policies[i], now) {
          var desired := AskPolicy(policies[i], average.value);
          if desired.Some? {
            FirePolicy(policies[i], desired.value);
            return;
          }
        }
      }
    }

    /** Above the target scale out, ten points below it scale in, within the group's bounds. */
    method AskPolicy(policy: Policy, average: real) returns (desired: Option<int>)
      ensures desired == Wish(mem, policy, average)
    {
      if policy.cpu {
        if average > policy.target {
          if mem.current < mem.max {
            var newDesired := mem.current + policy.outStep;
            if newDesired > mem.max { newDesired := mem.max; }
            return Some(newDesired);
          }
        } else if average < policy.target - 10.0 {
          if mem.current > mem.min {
            var newDesired := mem.current - policy.inStep;
            if newDesired < mem.min { newDesired := mem.min; }
            return Some(newDesired);
          }
        }
      }
      return None;
    }

    method CleanupGroup() returns (removed: bool)
      modifies this
      ensures removed <==> old(row.links) == [] && env.remove(old(n))
      ensures View() == if old(row.links) == [] then old(View()).(n := old(n) + 1)
                        else ScaleInAll(env, old(View()), old(row.links))
    {
      var ids := row.links;
      if |ids| == 0 {
        removed := env.remove(n);
        n := n + 1;
        return;
      }
      ghost var s := View();
      for i := 0 to |ids|
        invariant ScaleInAll(env, View(), ids[i..]) == ScaleInAll(env, s, ids)
      {
        assert ids[i..][1..] == ids[i + 1..];
        mem := mem.(desired := 0);
        var _ := RemoveOne(ids[i]);
      }
      removed := false;
    }

    /** One group's turn in an evaluation. */
    method EvaluateGroup() returns (removed: bool)
      requires mem == row.group && ValidBounds(mem)
      modifies this
      ensures (if removed then None else Some(row), n) == TickRow(env, old(row), old(n))
    {
      hide Approach, ForceBounds, EvaluatePolicies, ScaleInAll;
      if mem.status.Deleting? {
        removed := CleanupGroup();
        return;
      }
      removed := false;
      var instances := row.links;
      if |instances| != mem.current {
        mem := mem.(current := |instances|);
        UpdateGroup();
      }
      ReconcileInstances(instances);
      EvaluateScalingPolicies();
    }
  }

  /** What a service call reports. */
  datatype Outcome = Done | NotFound | InvalidInput | WriteFailed

  /** The repository as the service and the worker share it. */
  class AutoScaling {
    const env: Env
    var rows: map<Id, Row>
    var n: nat

    ghost function View(): Fleet
      reads this
    {
      Fleet(rows, n)
    }

    constructor (env: Env)
      ensures this.env == env && View() == EMPTY
    {
      this.env, rows, n := env, map[], 0;
    }

    /** `existing` is the group an idempotency key finds: it is returned, whatever the parameters, and nothing is
        created. */
    method CreateGroup(params: Params, existing: Option<Id>) returns (created: Option<Id>)
      requires FleetValid(View())
      modifies this
      ensures FleetValid(View())
      ensures existing.Some? ==> created == existing && View() == old(View())
      ensures existing.None? ==>
                && View() == Apply(env, old(View()), Create(params))
                && (created.Some? <==>
                      && 0 <= params.min <= params.desired <= params.max <= MAX_INSTANCES_HARD_LIMIT
                      && env.service(old(n)))
                && (created.Some? ==>
                      && created.value == old(n) && rows == old(rows)[old(n) := rows[old(n)]]
                      && rows[old(n)].group == Group(params.min, params.max, params.desired, 0, Active, 0, None)
                      && rows[old(n)].links == [] && rows[old(n)].policies == [])
                && (created.None? ==> rows == old(rows))
    {
      if existing.Some? { return existing; }
      var id := n;
      n := n + 1;
      if params.max > MAX_INSTANCES_HARD_LIMIT { return None; }
      if params.min < 0 { return None; }
      if params.min > params.max { return None; }
      if params.desired < params.min || params.desired > params.max { return None; }
      if !env.service(id) { return None; }
      rows := rows[id := NewRow(params)];
      return Some(id);
    }

    method SetDesiredCapacityOf(g: Id, desired: int) returns (r: Outcome)
      requires FleetValid(View())
      modifies this
      ensures View() == Apply(env, old(View()), SetCapacity(g, desired)) && FleetValid(View())
      ensures r.NotFound? <==> g !in old(rows) || !env.service(old(n))
      ensures r.InvalidInput? <==>
              !r.NotFound? && !(old(rows)[g].group.min <= desired <= old(rows)[g].group.max)
      ensures r.Done? <==> !r.NotFound? && !r.InvalidInput? && env.update(old(n) + 1)
      ensures r.Done? ==>
                var was := old(rows)[g];
                rows == old(rows)[g := was.(group := was.group.(desired := desired))]
      ensures !r.Done? ==> rows == old(rows)
    {
      var call := n;
      if g !in rows {
        n := n + 1;
        return NotFound;
      }
      n := n + 2;
      var row := rows[g];
      if !env.service(call) { return NotFound; }
      if desired < row.group.min || desired > row.group.max { return InvalidInput; }
      if !env.update(call + 1) { return WriteFailed; }
      rows := rows[g := row.(group := Stored(env, row.group, row.group.(desired := desired)))];
      return Done;
    }

    method DeleteGroup(g: Id) returns (r: Outcome)
      requires FleetValid(View())
      modifies this
      ensures View() == Apply(env, old(View()), Delete(g)) && FleetValid(View())
      ensures r.NotFound? <==> g !in old(rows) || !env.service(old(n))
      ensures r.Done? <==> !r.NotFound? && env.update(old(n) + 1)
      ensures r.Done? ==>
                var was := old(rows)[g];
                rows == old(rows)[g := was.(group := was.group.(status := Deleting, min := 0, desired := 0))]
      ensures !r.Done? ==> rows == old(rows)
    {
      var call := n;
      if g !in rows {
        n := n + 1;
        return NotFound;
      }
      n := n + 2;
      var row := rows[g];
      if !env.service(call) { return NotFound; }
      if !env.update(call + 1) { return WriteFailed; }
      var marked := row.group.(status := Deleting, min := 0, desired := 0);
      rows := rows[g := row.(group := Stored(env, row.group, marked))];
      return Done;
    }

    method CreatePolicyFor(g: Id, p: Policy) returns (r: Outcome)
      requires FleetValid(View())
      modifies this
      ensures View() == Apply(env, old(View()), CreatePolicy(g, p)) && FleetValid(View())
      ensures r.NotFound? <==> g !in old(rows) || !env.service(old(n))
      ensures r.InvalidInput? <==> !r.NotFound? && p.cooldown < MIN_COOLDOWN_SECONDS
      ensures r.Done? <==> !r.NotFound? && !r.InvalidInput? && env.service(old(n) + 1)
      ensures r.Done? ==>
                var was := old(rows)[g];
                rows == old(rows)[g := was.(policies := was.policies + [p.(id := old(n), lastScaled := None)])]
      ensures !r.Done? ==> rows == old(rows)
    {
      var call := n;
      if g !in rows {
        n := n + 1;
        return NotFound;
      }
      n := n + 2;
      if !env.service(call) { return NotFound; }
      if p.cooldown < MIN_COOLDOWN_SECONDS { return InvalidInput; }
      if !env.service(call + 1) { return WriteFailed; }
      rows := rows[g := rows[g].(policies := rows[g].policies + [p.(id := call, lastScaled := None)])];
      return Done;
    }

    /** The worker's turn. Three list calls fetch groups, links and policies up front, and any of them failing ends it
        there; then each group is worked on from the fetched copy. Every group is listed once, so its copy is still
        what the repository holds when its turn comes. */
    method EvaluateAll(listed: seq<Id>)
      requires FleetSafe(View()) && Distinct(listed) && forall g :: g in listed <==> g in rows
      modifies this
      ensures FleetSafe(View())
      ensures var ready := old(View()).(n := old(n) + 3);
              View() == if env.service(old(n)) && env.service(old(n) + 1) && env.service(old(n) + 2)
                        then RunFrom(env, ready, Evaluations(listed)) else ready
    {
      hide TickRow, RowSafe, Apply;
      var call := n;
      LaterFleetSafe(View(), n + 3);
      n := n + 3;
      if !env.service(call) || !env.service(call + 1) || !env.service(call + 2) { return; }
      var fetched := rows;
      ghost var f := View();
      assert Evaluations(listed)[..|listed|] == Evaluations(listed);
      for i := 0 to |listed|
        invariant FleetSafe(View()) && View() == RunFrom(env, f, Evaluations(listed)[..i])
        invariant forall j | i <= j < |listed| :: listed[j] in rows && listed[j] in fetched
        invariant forall j | i <= j < |listed| :: rows[listed[j]] == fetched[listed[j]]
      {
        assert Evaluations(listed)[..i + 1][..i] == Evaluations(listed)[..i];
        assert rows[listed[i]] == fetched[listed[i]];
        EvaluateListed(listed[i], fetched[listed[i]]);
      }
    }

    /** The turn of one group, worked on from its fetched copy; no other row changes. */
    method EvaluateListed(g: Id, fetched: Row)
      requires FleetSafe(View()) && g in rows && rows[g] == fetched
      modifies this
      ensures FleetSafe(View()) && View() == Apply(env, old(View()), Evaluate(g))
      ensures forall h | h in old(rows) && h != g :: h in rows && rows[h] == old(rows)[h]
    {
      hide TickRow, RowSafe;
      ApplySafe(env, View(), Evaluate(g));
      BoundsFromSafe(View());
      var worker := new Worker(env, fetched, n);
      var removed := worker.EvaluateGroup();
      rows := if removed then rows - {g} else rows[g := worker.row];
      n := worker.n;
    }
  }

  lemma LaterFleetSafe(f: Fleet, n: nat)
    requires FleetSafe(f) && f.n <= n
    ensures FleetSafe(f.(n := n))
  {
  }

  /** One tick per listed group. */
  ghost function Evaluations(listed: seq<Id>): seq<Step> {
    seq(|listed|, i requires 0 <= i < |listed| => Evaluate(listed[i]))
  }

  /** The steps of a run, taken from `f` on. */
  ghost function RunFrom(env: Env, f: Fleet, steps: seq<Step>): (h: Fleet)
    requires FleetSafe(f)
    ensures FleetSafe(h)
  {
    if steps == [] then f
    else
      var before := RunFrom(env, f, steps[..|steps| - 1]);
      BoundsFromSafe(before);
      ApplySafe(env, before, steps[|steps| - 1]);
      Apply(env, before, steps[|steps| - 1])
  }

  /** An evaluation in the middle of a run is part of that run. */
  lemma {:induction false} RunContinues(env: Env, steps: seq<Step>, more: seq<Step>)
    ensures Run(env, steps + more) == RunFrom(env, Run(env, steps), more)
  {
    hide Apply;
    if more == [] {
      assert steps + more == steps;
    } else {
      assert (steps + more)[..|steps + more| - 1] == steps + more[..|more| - 1];
      RunContinues(env, steps, more[..|more| - 1]);
    }
  }
}
