/** Policy cooldowns: how often desired counts can be rewritten. */
module ScalingCooldown {
  import opened Options
  import opened Links
  import opened Scaling
  import opened ScalingSafety
  import opened ScalingFailures

  /** A minute, in nanoseconds. */
  const COOLDOWN := 60_000_000_000

  /** The times of a policy's firings that were stored. */
  function StampsOf(firings: seq<Firing>, id: Id): seq<Time> {
    if firings == [] then []
    else
      var last := firings[|firings| - 1];
      StampsOf(firings[..|firings| - 1], id) + (if last.policy == id && last.stored then [last.at] else [])
  }

  function LastOf(times: seq<Time>): Option<Time> { if times == [] then None else Some(times[|times| - 1]) }

  ghost predicate SpacedBy(times: seq<Time>, gap: int) {
    forall i, j | 0 <= i < j < |times| :: times[i] + gap <= times[j]
  }

  ghost predicate Spaced(times: seq<Time>) { SpacedBy(times, COOLDOWN) }

  /** After a stored firing of the policy, `gap` passes before its next firing of any kind. */
  ghost predicate Rested(firings: seq<Firing>, id: Id, gap: int) {
    forall i, j | 0 <= i < j < |firings| && firings[i].policy == id && firings[j].policy == id && firings[i].stored ::
      firings[i].at + gap <= firings[j].at
  }

  /** A policy remembers its last stored firing, and rests for its cooldown, of at least a minute, after each. */
  ghost predicate PolicyInv(p: Policy, firings: seq<Firing>, n: nat) {
    && p.cooldown >= MIN_COOLDOWN_SECONDS && p.id < n
    && p.lastScaled == LastOf(StampsOf(firings, p.id))
    && Rested(firings, p.id, p.cooldown * SECOND)
  }

  ghost predicate DistinctPolicies(policies: seq<Policy>) {
    forall i, j | 0 <= i < j < |policies| :: policies[i].id != policies[j].id
  }

  ghost predicate CooldownInv(row: Row, n: nat) {
    && (forall i | 0 <= i < |row.policies| :: PolicyInv(row.policies[i], row.firings, n))
    && DistinctPolicies(row.policies)
    && (forall i | 0 <= i < |row.firings| :: row.firings[i].policy < n)
    && (forall id: Id :: Rested(row.firings, id, COOLDOWN))
  }

  lemma StampsAppend(firings: seq<Firing>, f: Firing, id: Id)
    ensures StampsOf(firings + [f], id) == StampsOf(firings, id) + (if f.policy == id && f.stored then [f.at] else [])
  {
    assert (firings + [f])[..|firings|] == firings;
  }

  /** No stored firing is later than the last. */
  lemma {:induction false} LastStampIsLatest(firings: seq<Firing>, id: Id, gap: nat, i: nat)
    requires Rested(firings, id, gap) && i < |firings| && firings[i].policy == id && firings[i].stored
    ensures var stamps := StampsOf(firings, id);
            stamps != [] && firings[i].at <= stamps[|stamps| - 1]
  {
    var init, last := firings[..|firings| - 1], firings[|firings| - 1];
    if !(last.policy == id && last.stored) { LastStampIsLatest(init, id, gap, i); }
  }

  lemma RestedAppend(firings: seq<Firing>, f: Firing, id: Id, gap: nat)
    requires Rested(firings, id, gap)
    requires var stamps := StampsOf(firings, id);
             f.policy == id && stamps != [] ==> stamps[|stamps| - 1] + gap <= f.at
    ensures Rested(firings + [f], id, gap)
  {
    forall i | 0 <= i < |firings| && firings[i].policy == id && firings[i].stored && f.policy == id
      ensures firings[i].at + gap <= f.at
    {
      LastStampIsLatest(firings, id, gap, i);
    }
  }

  /** A policy that is not cooling down may fire without cutting a rest short. */
  lemma FireKeepsInv(env: Env, s: Tick, p: Policy, desired: int, checked: nat)
    requires ClockRuns(env) && CooldownInv(s.row, s.n)
    requires p in s.row.policies && checked <= s.n && !Cooling(p, env.clock(checked))
    ensures CooldownInv(Fire(env, s, p, desired).row, Fire(env, s, p, desired).n)
  {
    SetDesiredShape(env, s, desired);
    hide SetDesired, PolicyInv, Rested;
    var v := SetDesired(env, s, desired);
    var t := Fire(env, s, p, desired);
    var f := Firing(p.id, env.clock(v.n), env.touch(v.n));
    assert env.clock(checked) <= env.clock(v.n);
    LateEnough(p, s.row.firings, s.n, f.at);
    forall id: Id ensures Rested(t.row.firings, id, COOLDOWN) { RestedAppend(s.row.firings, f, id, COOLDOWN); }
    forall i | 0 <= i < |t.row.policies| ensures PolicyInv(t.row.policies[i], t.row.firings, t.n) {
      assert s.row.policies[i].id == p.id ==> s.row.policies[i] == p;
      PolicyAfterFiring(s.row.policies[i], p, s.row.firings, f, s.n, t.n);
    }
    assert DistinctPolicies(t.row.policies);
    assert forall i | 0 <= i < |t.row.firings| :: t.row.firings[i].policy < t.n;
  }

  /** What a firing of `p` leaves of a policy `q`, which is `p` itself or another one. */
  lemma PolicyAfterFiring(q: Policy, p: Policy, firings: seq<Firing>, f: Firing, n: nat, m: nat)
    requires PolicyInv(q, firings, n) && n <= m && f.policy == p.id && (q.id == p.id ==> q == p)
    requires var stamps := StampsOf(firings, p.id);
             stamps != [] ==> stamps[|stamps| - 1] + p.cooldown * SECOND <= f.at
    ensures PolicyInv(if q.id == p.id && f.stored then q.(lastScaled := Some(f.at)) else q, firings + [f], m)
  {
    hide Rested;
    StampsAppend(firings, f, q.id);
    RestedAppend(firings, f, q.id, q.cooldown * SECOND);
    assert StampsOf(firings, q.id) + [] == StampsOf(firings, q.id);
  }

  lemma LateEnough(p: Policy, firings: seq<Firing>, n: nat, now: Time)
    requires PolicyInv(p, firings, n) && !Cooling(p, now)
    ensures p.cooldown * SECOND >= COOLDOWN && p.id < n
    ensures var stamps := StampsOf(firings, p.id);
            stamps != [] ==> stamps[|stamps| - 1] + p.cooldown * SECOND <= now
  {
  }

  lemma {:induction false} FirePoliciesKeepsCooldown(env: Env, s: Tick, policies: seq<Policy>, average: real)
    requires ClockRuns(env) && CooldownInv(s.row, s.n)
    requires forall i | 0 <= i < |policies| :: policies[i] in s.row.policies
    ensures CooldownInv(FirePolicies(env, s, policies, average).row, FirePolicies(env, s, policies, average).n)
    decreases policies
  {
    hide Fire, Wish, Cooling, PolicyInv, Rested;
    if policies != [] {
      var p, v := policies[0], s.(n := s.n + 1);
      CooldownLater(s.row, s.n, v.n);
      if !Cooling(p, env.clock(s.n)) && Wish(s.mem, p, average).Some? {
        FireKeepsInv(env, v, p, Wish(s.mem, p, average).value, s.n);
      } else {
        FirePoliciesKeepsCooldown(env, v, policies[1..], average);
      }
    }
  }

  lemma PoliciesLater(policies: seq<Policy>, firings: seq<Firing>, n: nat, m: nat)
    requires n <= m && forall i | 0 <= i < |policies| :: PolicyInv(policies[i], firings, n)
    ensures forall i | 0 <= i < |policies| :: PolicyInv(policies[i], firings, m)
  {
  }

  lemma CooldownLater(row: Row, n: nat, m: nat)
    requires CooldownInv(row, n) && n <= m
    ensures CooldownInv(row, m)
  {
    PoliciesLater(row.policies, row.firings, n, m);
  }

  /** Only the policies and their firings matter. */
  lemma CooldownFrame(row: Row, other: Row, n: nat, m: nat)
    requires CooldownInv(row, n) && n <= m && other.policies == row.policies && other.firings == row.firings
    ensures CooldownInv(other, m)
  {
    CooldownLater(row, n, m);
  }

  lemma TickKeepsCooldown(env: Env, row: Row, n: nat)
    requires ClockRuns(env) && RowSafe(row, n) && CooldownInv(row, n)
    ensures var (after, m) := TickRow(env, row, n);
            after.Some? ==> CooldownInv(after.value, m)
  {
    hide CountLinks, ForceBounds, Approach, FirePolicies, ScaleInAll, CooldownInv;
    var s := Tick(row, row.group, n);
    if row.group.status.Deleting? {
      DeletingTickEffect(env, row, n);
      var (after, m) := TickRow(env, row, n);
      if after.Some? { CooldownFrame(row, after.value, n, m); }
    } else {
      CountLinksEffect(env, s);
      var s1 := CountLinks(env, s);
      ForceBoundsEffect(env, s1);
      var s2 := ForceBounds(env, s1);
      ApproachEffect(env, s2);
      var s3 := Approach(env, s2);
      CooldownFrame(row, s3.row, n, s3.n);
      CooldownFrame(row, s3.row, n, s3.n + 1);
      if s3.row.policies != [] && env.cpu(s3.n).Some? {
        FirePoliciesKeepsCooldown(env, s3.(n := s3.n + 1), s3.row.policies, env.cpu(s3.n).value);
      }
    }
  }

  /** A policy that has never fired has nothing to rest from. */
  lemma {:induction false} NeverFired(firings: seq<Firing>, id: Id, gap: int)
    requires forall i | 0 <= i < |firings| :: firings[i].policy < id
    ensures StampsOf(firings, id) == [] && Rested(firings, id, gap)
  {
    if firings != [] { NeverFired(firings[..|firings| - 1], id, gap); }
  }

  lemma {:induction false} DropPolicySubset(policies: seq<Policy>, id: Id)
    ensures forall p | p in DropPolicy(policies, id) :: p in policies
  {
    if policies != [] { DropPolicySubset(policies[1..], id); }
  }

  lemma {:induction false} DropPolicyDistinct(policies: seq<Policy>, id: Id)
    requires DistinctPolicies(policies)
    ensures DistinctPolicies(DropPolicy(policies, id))
  {
    if policies != [] {
      var tail := policies[1..];
      forall i, j | 0 <= i < j < |tail| ensures tail[i].id != tail[j].id {
        assert policies[i + 1].id != policies[j + 1].id;
      }
      DropPolicyDistinct(tail, id);
      DropPolicySubset(tail, id);
      forall p | p in tail ensures p.id != policies[0].id {
        var k :| 0 <= k < |tail| && tail[k] == p;
        assert policies[0].id != policies[k + 1].id;
      }
      var rest := DropPolicy(tail, id);
      forall i | 0 <= i < |rest| ensures rest[i].id != policies[0].id { assert rest[i] in rest; }
    }
  }

  lemma DropPolicyKeeps(policies: seq<Policy>, id: Id, firings: seq<Firing>, n: nat)
    requires DistinctPolicies(policies) && forall i | 0 <= i < |policies| :: PolicyInv(policies[i], firings, n)
    ensures DistinctPolicies(DropPolicy(policies, id))
    ensures forall i | 0 <= i < |DropPolicy(policies, id)| :: PolicyInv(DropPolicy(policies, id)[i], firings, n)
  {
    hide PolicyInv;
    DropPolicySubset(policies, id);
    DropPolicyDistinct(policies, id);
    var rest := DropPolicy(policies, id);
    forall i | 0 <= i < |rest| ensures PolicyInv(rest[i], firings, n) { assert rest[i] in rest; }
  }

  lemma StepKeepsCooldown(env: Env, row: Row, n: nat, step: Step)
    requires ClockRuns(env) && RowSafe(row, n) && CooldownInv(row, n)
    ensures var (after, m) := StepRow(env, row, n, step);
            after.Some? ==> CooldownInv(after.value, m)
  {
    hide TickRow;
    CooldownLater(row, n, n + 2);
    match step
    case Evaluate(_) => TickKeepsCooldown(env, row, n);
    case CreatePolicy(_, p) => NeverFired(row.firings, n, p.cooldown * SECOND);
    case DeletePolicy(_, id) => DropPolicyKeeps(row.policies, id, row.firings, n + 2);
    case _ =>
  }

  lemma {:induction false} RunKeepsCooldown(env: Env, steps: seq<Step>)
    requires ClockRuns(env)
    ensures forall g | g in Run(env, steps).rows :: CooldownInv(Run(env, steps).rows[g], Run(env, steps).n)
  {
    hide StepRow, CooldownInv;
    if steps != [] {
      var before, step := Run(env, steps[..|steps| - 1]), steps[|steps| - 1];
      RunKeepsCooldown(env, steps[..|steps| - 1]);
      ApplySafe(env, before, step);
      var after := Run(env, steps);
      if step.Create? {
        NewRowCools(step.params, after.n);
      } else if step.group in before.rows {
        StepKeepsCooldown(env, before.rows[step.group], before.n, step);
      }
      forall g | g in after.rows ensures CooldownInv(after.rows[g], after.n) {
        if g in before.rows && after.rows[g] == before.rows[g] { CooldownLater(before.rows[g], before.n, after.n); }
      }
    }
  }

  lemma NewRowCools(p: Params, n: nat)
    ensures CooldownInv(NewRow(p), n)
  {
  }

  /** In every run, whatever fails, a policy does not fire again within its cooldown of a firing whose time was
      stored. */
  lemma FiringsHonourCooldown(env: Env, steps: seq<Step>, g: Id, p: Policy)
    requires ClockRuns(env) && g in Run(env, steps).rows && p in Run(env, steps).rows[g].policies
    ensures p.cooldown >= MIN_COOLDOWN_SECONDS
    ensures Rested(Run(env, steps).rows[g].firings, p.id, p.cooldown * SECOND)
  {
    RunKeepsCooldown(env, steps);
    assert CooldownInv(Run(env, steps).rows[g], Run(env, steps).n);
  }

  /** Nor, within a minute, does a policy since deleted. */
  lemma FiringsAreSpaced(env: Env, steps: seq<Step>, g: Id, policy: Id)
    requires ClockRuns(env) && g in Run(env, steps).rows
    ensures Rested(Run(env, steps).rows[g].firings, policy, COOLDOWN)
  {
    RunKeepsCooldown(env, steps);
    assert CooldownInv(Run(env, steps).rows[g], Run(env, steps).n);
  }

  /** A stopped clock, a busy group, and a repository that takes no updates of groups or policies. */
  ghost function Unstamping(): Env {
    Env(_ => 0, _ => true, _ => true, _ => true, _ => false, _ => false, _ => true, _ => Some(100.0), _ => true, true)
  }

  const EAGER := Policy(0, true, 50.0, 1, 1, 60, None)

  ghost function Eager(k: nat): Row {
    NewRow(Params(0, 1, 0)).(policies := [EAGER.(id := 1)], firings := seq(k, _ => Firing(1, 0, false)))
  }

  lemma EagerTick(k: nat, n: nat)
    ensures TickRow(Unstamping(), Eager(k), n) == (Some(Eager(k + 1)), n + 4)
  {
    var env, row := Unstamping(), Eager(k);
    var s := Tick(row, row.group, n);
    assert CountLinks(env, s) == s && ForceBounds(env, s) == s && Approach(env, s) == s;
    assert Eager(k).firings + [Firing(1, 0, false)] == Eager(k + 1).firings;
    var v := s.(n := n + 1);
    assert Wish(v.mem, row.policies[0], 100.0) == Some(1);
    assert FirePolicies(env, v, row.policies, 100.0).row == Eager(k + 1);
  }

  ghost function EagerSteps(k: nat): seq<Step> {
    [Create(Params(0, 1, 0)), CreatePolicy(0, EAGER)] + seq(k, _ => Evaluate(0))
  }

  lemma EagerStart()
    ensures Run(Unstamping(), EagerSteps(0)) == Fleet(map[0 := Eager(0)], 3)
  {
    var env, steps, row := Unstamping(), EagerSteps(0), NewRow(Params(0, 1, 0));
    var one := [Create(Params(0, 1, 0))];
    assert steps[..1] == one && one[..0] == [];
    assert Run(env, one) == Fleet(map[0 := row], 1);
    assert [] + [EAGER.(id := 1)] == [EAGER.(id := 1)];
    assert AddPolicy(env, row, 1, EAGER) == Eager(0) by { assert Eager(0).firings == []; }
    RunOneMore(env, steps, 0, row, 1);
  }

  /** The last step of a run of one group. */
  lemma RunOneMore(env: Env, steps: seq<Step>, g: Id, row: Row, n: nat)
    requires steps != [] && Run(env, steps[..|steps| - 1]) == Fleet(map[g := row], n) && ValidBounds(row.group)
    requires var last := steps[|steps| - 1];
             !last.Create? && last.group == g && StepRow(env, row, n, last).0.Some?
    ensures var (after, m) := StepRow(env, row, n, steps[|steps| - 1]);
            Run(env, steps) == Fleet(map[g := after.value], m)
  {
    hide StepRow;
  }

  /** The rest does depend on the stored time: when it is lost, the policy fires again in the very next tick. */
  lemma {:induction false} UnstoredFiresAgain(k: nat)
    ensures Run(Unstamping(), EagerSteps(k)) == Fleet(map[0 := Eager(k)], 3 + 4 * k)
  {
    if k == 0 {
      EagerStart();
    } else {
      EagerBounds(k - 1);
      hide TickRow, Eager, Run, Unstamping, ValidBounds;
      UnstoredFiresAgain(k - 1);
      EagerTick(k - 1, 3 + 4 * (k - 1));
      assert EagerSteps(k)[..|EagerSteps(k)| - 1] == EagerSteps(k - 1);
      RunOneMore(Unstamping(), EagerSteps(k), 0, Eager(k - 1), 3 + 4 * (k - 1));
    }
  }

  lemma EagerBounds(k: nat)
    ensures ValidBounds(Eager(k).group)
  {
  }

  // ---------------------------------------------------------------- windows

  function CountIn(times: seq<Time>, lo: Time, hi: Time): nat {
    if times == [] then 0
    else CountIn(times[..|times| - 1], lo, hi) + (if lo <= times[|times| - 1] <= hi then 1 else 0)
  }

  lemma {:induction false} NoneIn(times: seq<Time>, lo: Time, hi: Time)
    requires forall i | 0 <= i < |times| :: times[i] > hi || times[i] < lo
    ensures CountIn(times, lo, hi) == 0
  {
    if times != [] { NoneIn(times[..|times| - 1], lo, hi); }
  }

  lemma {:induction false} CountSmaller(times: seq<Time>, lo: Time, hi: Time, cut: Time)
    requires forall i | 0 <= i < |times| :: times[i] <= cut
    ensures CountIn(times, lo, hi) == CountIn(times, lo, if cut < hi then cut else hi)
  {
    if times != [] { CountSmaller(times[..|times| - 1], lo, hi, cut); }
  }

  /** Times a minute apart: a window of length T holds at most T / 60s + 1 of them. */
  lemma {:induction false} SpacedCount(times: seq<Time>, lo: Time, hi: Time)
    requires Spaced(times) && lo <= hi
    ensures CountIn(times, lo, hi) <= (hi - lo) / COOLDOWN + 1
  {
    if times != [] {
      var init, last := times[..|times| - 1], times[|times| - 1];
      if last < lo || hi < last {
        SpacedCount(init, lo, hi);
      } else {
        var cut := last - COOLDOWN;
        forall i | 0 <= i < |init| ensures init[i] <= cut { assert times[i] + COOLDOWN <= times[|times| - 1]; }
        CountSmaller(init, lo, hi, cut);
        if cut < lo {
          NoneIn(init, lo, cut);
        } else {
          SpacedCount(init, lo, cut);
          OneCooldownLess(hi - lo, cut - lo);
        }
      }
    }
  }

  lemma OneCooldownLess(a: int, b: int)
    requires 0 <= b && b + COOLDOWN <= a
    ensures b / COOLDOWN + 1 <= a / COOLDOWN
  {
  }

  /** How many firings, of any policy, fall into the window. */
  function CountFirings(firings: seq<Firing>, lo: Time, hi: Time): nat {
    if firings == [] then 0
    else CountFirings(firings[..|firings| - 1], lo, hi) + (if lo <= firings[|firings| - 1].at <= hi then 1 else 0)
  }

  /** How many of them were not stored. */
  function CountUnstored(firings: seq<Firing>, lo: Time, hi: Time): nat {
    if firings == [] then 0
    else
      var last := firings[|firings| - 1];
      CountUnstored(firings[..|firings| - 1], lo, hi) + (if lo <= last.at <= hi && !last.stored then 1 else 0)
  }

  /** The stored firings of some policies. */
  function StoredOf(firings: seq<Firing>, policies: set<Id>): seq<Firing> {
    if firings == [] then []
    else
      var last := firings[|firings| - 1];
      StoredOf(firings[..|firings| - 1], policies) + (if last.policy in policies && last.stored then [last] else [])
  }

  lemma CountFiringsAppend(firings: seq<Firing>, f: Firing, lo: Time, hi: Time)
    ensures CountFirings(firings + [f], lo, hi) == CountFirings(firings, lo, hi) + (if lo <= f.at <= hi then 1 else 0)
  {
    assert (firings + [f])[..|firings|] == firings;
  }

  lemma CountInAppend(times: seq<Time>, at: Time, lo: Time, hi: Time)
    ensures CountIn(times + [at], lo, hi) == CountIn(times, lo, hi) + (if lo <= at <= hi then 1 else 0)
  {
    assert (times + [at])[..|times|] == times;
  }

  /** Taking one policy out of a set takes its own firings out of the count. */
  lemma {:induction false} CountWithout(firings: seq<Firing>, policies: set<Id>, id: Id, lo: Time, hi: Time)
    requires id in policies
    ensures CountFirings(StoredOf(firings, policies), lo, hi)
         == CountFirings(StoredOf(firings, policies - {id}), lo, hi) + CountIn(StampsOf(firings, id), lo, hi)
  {
    if firings != [] {
      var init, last := firings[..|firings| - 1], firings[|firings| - 1];
      CountWithout(init, policies, id, lo, hi);
      assert StoredOf(init, policies) + [] == StoredOf(init, policies);
      assert StoredOf(init, policies - {id}) + [] == StoredOf(init, policies - {id});
      assert StampsOf(init, id) + [] == StampsOf(init, id);
      CountFiringsAppend(StoredOf(init, policies), last, lo, hi);
      CountFiringsAppend(StoredOf(init, policies - {id}), last, lo, hi);
      CountInAppend(StampsOf(init, id), last.at, lo, hi);
    }
  }

  lemma {:induction false} StoredOfNone(firings: seq<Firing>)
    ensures StoredOf(firings, {}) == []
  {
    if firings != [] { StoredOfNone(firings[..|firings| - 1]); }
  }

  lemma {:induction false} StoredOrNot(firings: seq<Firing>, policies: set<Id>, lo: Time, hi: Time)
    requires forall i | 0 <= i < |firings| :: firings[i].policy in policies
    ensures CountFirings(firings, lo, hi)
         == CountFirings(StoredOf(firings, policies), lo, hi) + CountUnstored(firings, lo, hi)
  {
    if firings != [] {
      var init, last := firings[..|firings| - 1], firings[|firings| - 1];
      StoredOrNot(init, policies, lo, hi);
      assert StoredOf(init, policies) + [] == StoredOf(init, policies);
      CountFiringsAppend(StoredOf(init, policies), last, lo, hi);
    }
  }

  /** Stored firings of a policy that rests are spaced. */
  lemma {:induction false} StampsAreSpaced(firings: seq<Firing>, id: Id)
    requires Rested(firings, id, COOLDOWN)
    ensures Spaced(StampsOf(firings, id))
  {
    if firings != [] {
      var init, last := firings[..|firings| - 1], firings[|firings| - 1];
      StampsAreSpaced(init, id);
      var stamps := StampsOf(init, id);
      if last.policy == id {
        forall k | 0 <= k < |stamps| ensures stamps[k] + COOLDOWN <= last.at {
          var i := StampFrom(init, id, k);
          assert init[i] == firings[i];
        }
      }
    }
  }

  lemma {:induction false} StampFrom(firings: seq<Firing>, id: Id, k: nat) returns (i: nat)
    requires k < |StampsOf(firings, id)|
    ensures i < |firings| && firings[i].policy == id && firings[i].stored && firings[i].at == StampsOf(firings, id)[k]
  {
    var init := firings[..|firings| - 1];
    if k < |StampsOf(init, id)| { i := StampFrom(init, id, k); } else { i := |firings| - 1; }
  }

  lemma {:induction false} CountBound(firings: seq<Firing>, policies: set<Id>, lo: Time, hi: Time)
    requires lo <= hi && forall id: Id :: Rested(firings, id, COOLDOWN)
    ensures CountFirings(StoredOf(firings, policies), lo, hi) <= |policies| * ((hi - lo) / COOLDOWN + 1)
    decreases policies
  {
    var bound := (hi - lo) / COOLDOWN + 1;
    if policies == {} {
      StoredOfNone(firings);
    } else {
      var id :| id in policies;
      var rest := policies - {id};
      CountBound(firings, rest, lo, hi);
      CountWithout(firings, policies, id, lo, hi);
      StampsAreSpaced(firings, id);
      SpacedCount(StampsOf(firings, id), lo, hi);
      assert |policies| == |rest| + 1;
      assert (|rest| + 1) * bound == |rest| * bound + bound;
    }
  }

  /** P policies rewrite a group's desired count at most P * (T / 60s + 1) times in any window of length T, not counting
      the rewrites in it whose time could not be stored. */
  lemma RewritesAreBounded(env: Env, steps: seq<Step>, g: Id, policies: set<Id>, lo: Time, hi: Time)
    requires ClockRuns(env) && g in Run(env, steps).rows && lo <= hi
    requires var firings := Run(env, steps).rows[g].firings;
             forall i | 0 <= i < |firings| :: firings[i].policy in policies
    ensures var firings := Run(env, steps).rows[g].firings;
            CountFirings(firings, lo, hi) <= |policies| * ((hi - lo) / COOLDOWN + 1) + CountUnstored(firings, lo, hi)
  {
    var firings := Run(env, steps).rows[g].firings;
    forall id: Id ensures Rested(firings, id, COOLDOWN) { FiringsAreSpaced(env, steps, g, id); }
    StoredOrNot(firings, policies, lo, hi);
    CountBound(firings, policies, lo, hi);
  }

  // ---------------------------------------------------------------- what firing means

  /** The average calls for a move of the group that its bounds leave room for. */
  predicate CallsForMove(g: Group, p: Policy, average: real) {
    p.cpu && ((average > p.target && g.current < g.max) || (average < p.target - 10.0 && g.current > g.min))
  }

  function Least(a: int, b: int): int { if a < b then a else b }

  /** One step up, at most to the maximum, above the target; one step down, at least to the minimum, below it. */
  function MovedCount(g: Group, p: Policy, average: real): int {
    if average > p.target then Least(g.current + p.outStep, g.max) else -Least(p.inStep - g.current, -g.min)
  }

  /** A policy asks for something exactly when the average is above its target and the group has room, or more than ten
      below and the group is above its minimum, and then for a move by its step within the bounds. With positive steps
      that is a move in the right direction. */
  lemma WishMeaning(g: Group, p: Policy, average: real)
    ensures Wish(g, p, average) == if CallsForMove(g, p, average) then Some(MovedCount(g, p, average)) else None
    ensures g.min <= g.max && p.outStep > 0 && p.inStep > 0 && CallsForMove(g, p, average) ==>
              var d := MovedCount(g, p, average);
              if average > p.target then g.current < d <= g.max && d <= g.current + p.outStep
              else g.min <= d < g.current && d >= g.current - p.inStep
  {
  }

  /** Policy `i` of the list is willing when its turn comes: it never fired, or its cooldown is over, and the average
      calls for a move. */
  ghost predicate Willing(env: Env, s: Tick, policies: seq<Policy>, average: real, i: nat)
    requires i < |policies|
  {
    var p := policies[i];
    && (p.lastScaled.Some? ==> p.lastScaled.value + p.cooldown * 1_000_000_000 <= env.clock(s.n + i))
    && CallsForMove(s.mem, p, average)
  }

  ghost predicate FirstWilling(env: Env, s: Tick, policies: seq<Policy>, average: real, first: nat) {
    && first <= |policies|
    && (forall i: nat | i < first :: !Willing(env, s, policies, average, i))
    && (first < |policies| ==> Willing(env, s, policies, average, first))
  }

  /** The first willing policy fires, at the clock reading of its own call; the count it calls for becomes the worker's
      desired count, and the stored one if that update succeeds. If none is willing nothing changes. */
  lemma {:induction false} FirstWillingFires(env: Env, s: Tick, policies: seq<Policy>, average: real, first: nat)
    requires FirstWilling(env, s, policies, average, first)
    ensures var t := FirePolicies(env, s, policies, average);
            if first == |policies| then t.row == s.row && t.mem == s.mem
            else
              var count := MovedCount(s.mem, policies[first], average);
              var call := s.n + first + 2;
              && t.row.firings == s.row.firings + [Firing(policies[first].id, env.clock(call), env.touch(call))]
              && t.mem == s.mem.(desired := count)
              && t.row.group.desired == (if env.update(s.n + first + 1) then count else s.row.group.desired)
    decreases policies
  {
    if policies != [] {
      WishMeaning(s.mem, policies[0], average);
      assert Willing(env, s, policies, average, 0) <==>
             !Cooling(policies[0], env.clock(s.n)) && Wish(s.mem, policies[0], average).Some?;
      hide Wish, Cooling, CallsForMove;
      if first > 0 {
        assert !Willing(env, s, policies, average, 0);
        var v := s.(n := s.n + 1);
        forall i: nat | i < |policies| - 1
          ensures Willing(env, v, policies[1..], average, i) == Willing(env, s, policies, average, i + 1)
        {
        }
        FirstWillingFires(env, v, policies[1..], average, first - 1);
      }
    }
  }

  /** The state of a live group's tick when its policies have their turn. */
  function PoliciesTurn(env: Env, row: Row, n: nat): Tick
    requires ValidBounds(row.group)
  {
    Approach(env, ForceBounds(env, CountLinks(env, Tick(row, row.group, n))))
  }

  /** By then the worker has the exact count of the links the tick began with, the clamped desired count, and the
      policies untouched. */
  lemma TurnState(env: Env, row: Row, n: nat)
    requires RowSafe(row, n) && row.group.status.Active?
    ensures var s := PoliciesTurn(env, row, n);
            && s.mem.current == |row.links| && s.mem.desired == Clamp(row.group)
            && s.mem.min == row.group.min && s.mem.max == row.group.max
            && s.row.policies == row.policies && s.row.firings == row.firings
  {
    hide CountLinks, ForceBounds, Approach;
    var s := Tick(row, row.group, n);
    CountLinksEffect(env, s);
    ForceBoundsEffect(env, CountLinks(env, s));
    ApproachEffect(env, ForceBounds(env, CountLinks(env, s)));
  }

  /** A tick of a live group consults its policies whenever the metric call succeeds, with or without instances: the
      first willing one, judged by the number of links the tick began with, fires, and the count it calls for becomes
      the stored desired count if that update succeeds. If none is willing, if there are no policies, or if the metric
      call fails, the tick ends with what it had. */
  lemma TickFiresFirstWilling(env: Env, row: Row, n: nat, first: nat)
    requires RowSafe(row, n) && row.group.status.Active?
    requires var s := PoliciesTurn(env, row, n);
             row.policies != [] && env.cpu(s.n).Some? ==>
               FirstWilling(env, s.(n := s.n + 1), row.policies, env.cpu(s.n).value, first)
    ensures var s, after := PoliciesTurn(env, row, n), TickRow(env, row, n).0;
            && after.Some?
            && if row.policies == [] || env.cpu(s.n).None? || first == |row.policies| then after.value == s.row
               else
                 var group, call := row.group.(current := |row.links|), s.n + first + 3;
                 var count := MovedCount(group, row.policies[first], env.cpu(s.n).value);
                 && after.value.links == s.row.links
                 && after.value.firings
                    == row.firings + [Firing(row.policies[first].id, env.clock(call), env.touch(call))]
                 && (env.update(s.n + first + 2) ==> after.value.group.desired == count)
  {
    TurnState(env, row, n);
    var s := PoliciesTurn(env, row, n);
    hide CountLinks, ForceBounds, Approach, FirePolicies, FirstWilling;
    if row.policies != [] && env.cpu(s.n).Some? {
      FirstWillingFires(env, s.(n := s.n + 1), row.policies, env.cpu(s.n).value, first);
      FirePoliciesEffect(env, s.(n := s.n + 1), row.policies, env.cpu(s.n).value);
    }
  }
}
