/** The auto-scaling control loop: what one tick of the worker and each service call do to a scaling group. */
module Scaling {
  import opened Options
  import opened Links

  const MAX_INSTANCES_HARD_LIMIT := 20
  const MIN_COOLDOWN_SECONDS := 60
  const MAX_FAILURE_COUNT := 5
  const SECOND := 1_000_000_000
  const FAILURE_BACKOFF := 5 * 60 * SECOND

  /** Nanoseconds. */
  type Time = int

  datatype Status = Active | Deleting

  datatype Group = Group(
    min: int, max: int, desired: int, current: nat, status: Status, failures: nat, lastFailure: Option<Time>)

  datatype Policy = Policy(
    id: Id, cpu: bool, target: real, outStep: int, inStep: int, cooldown: int, lastScaled: Option<Time>)

  /** A scale-out attempt: when it began and, if it failed, when the failure was noted. */
  datatype Attempt = Attempt(startedAt: Time, linked: bool, failedAt: Time)

  /** A policy that rewrote the desired count, when, and whether that time was stored as its last scaling. */
  datatype Firing = Firing(policy: Id, at: Time, stored: bool)

  /** What the repository holds for a group, with the history of its attempts and firings. */
  datatype Row = Row(group: Group, links: seq<Id>, policies: seq<Policy>, attempts: seq<Attempt>, firings: seq<Firing>)

  /** The world outside: clock reading and outcome of each external call, by call number; and whether the
      repository stores the counter columns (current count, failure count, last failure) of a group update. */
  datatype Env = Env(
    clock: nat -> Time, launch: nat -> bool, link: nat -> bool, unlink: nat -> bool, update: nat -> bool,
    touch: nat -> bool, remove: nat -> bool, cpu: nat -> Option<real>, service: nat -> bool, storesCounters: bool)

  /** A tick under way: the stored row, the worker's own copy of the group, and the calls made so far. */
  datatype Tick = Tick(row: Row, mem: Group, n: nat)

  // ---------------------------------------------------------------- repository writes

  /** What an accepted group update leaves in the repository. */
  function Stored(env: Env, was: Group, mem: Group): Group {
    if env.storesCounters then mem
    else mem.(current := was.current, failures := was.failures, lastFailure := was.lastFailure)
  }

  /** `UpdateGroup` with its error ignored. */
  function Update(env: Env, s: Tick): Tick {
    s.(n := s.n + 1,
       row := if env.update(s.n) then s.row.(group := Stored(env, s.row.group, s.mem)) else s.row)
  }

  function SetDesired(env: Env, s: Tick, desired: int): Tick { Update(env, s.(mem := s.mem.(desired := desired))) }

  // ---------------------------------------------------------------- failures

  /** The group has failed often enough, and recently enough, to sit this tick out. */
  predicate BacksOff(g: Group, now: Time) {
    g.failures >= MAX_FAILURE_COUNT && g.lastFailure.Some? && now < g.lastFailure.value + FAILURE_BACKOFF
  }

  function RecordFailure(env: Env, s: Tick, startedAt: Time): Tick {
    var now := env.clock(s.n);
    Update(env, s.(n := s.n + 1,
                   mem := s.mem.(failures := s.mem.failures + 1, lastFailure := Some(now)),
                   row := s.row.(attempts := s.row.attempts + [Attempt(startedAt, false, now)])))
  }

  /** A success wipes the failure count, if there is one. */
  function RecordSuccess(env: Env, s: Tick, startedAt: Time): Tick {
    var t := s.(row := s.row.(attempts := s.row.attempts + [Attempt(startedAt, true, startedAt)]));
    if s.mem.failures > 0 then Update(env, t.(mem := t.mem.(failures := 0, lastFailure := None))) else t
  }

  // ---------------------------------------------------------------- scaling

  /** Launch an instance and link it; a failed link leaves the instance outside the group. */
  function ScaleOut(env: Env, s: Tick): (Tick, bool) {
    if env.launch(s.n + 1) && env.link(s.n + 2)
    then (s.(n := s.n + 3, row := s.row.(links := s.row.links + [s.n])), true)
    else (s.(n := s.n + 3), false)
  }

  function ScaleOutBy(env: Env, s: Tick, needed: nat): Tick
    decreases needed
  {
    if needed == 0 then s
    else
      var startedAt := env.clock(s.n);
      var (t, ok) := ScaleOut(env, s);
      if ok then ScaleOutBy(env, RecordSuccess(env, t, startedAt), needed - 1)
      else RecordFailure(env, t, startedAt)
  }

  /** Unlink an instance and terminate it; the outcome of the termination is ignored. */
  function ScaleIn(env: Env, s: Tick, id: Id): (Tick, bool) {
    if env.unlink(s.n) then (s.(n := s.n + 1, row := s.row.(links := Unlinked(s.row.links, id))), true)
    else (s.(n := s.n + 1), false)
  }

  /** Scale in `excess` instances from the end of `ids`, stopping at the first error. */
  function ScaleInBy(env: Env, s: Tick, ids: seq<Id>, excess: nat): Tick
    requires excess <= |ids|
    decreases excess
  {
    if excess == 0 then s
    else
      var (t, ok) := ScaleIn(env, s, ids[|ids| - 1]);
      if ok then ScaleInBy(env, t, ids[..|ids| - 1], excess - 1) else t
  }

  function Clamp(g: Group): int {
    var atLeast := if g.desired < g.min then g.min else g.desired;
    if atLeast > g.max then g.max else atLeast
  }

  function ForceBounds(env: Env, s: Tick): Tick {
    var t := if s.mem.desired < s.mem.min then SetDesired(env, s, s.mem.min) else s;
    if t.mem.desired > t.mem.max then SetDesired(env, t, t.mem.max) else t
  }

  /** Launch or remove instances until there are as many as desired. */
  function Approach(env: Env, s: Tick): Tick
    requires s.mem.desired >= 0
  {
    var current := |s.row.links|;
    if current < s.mem.desired then
      if BacksOff(s.mem, env.clock(s.n)) then s.(n := s.n + 1)
      else ScaleOutBy(env, s.(n := s.n + 1), s.mem.desired - current)
    else ScaleInBy(env, s, s.row.links, current - s.mem.desired)
  }

  // ---------------------------------------------------------------- policies

  function Touched(policies: seq<Policy>, id: Id, now: Time): seq<Policy> {
    seq(|policies|, i requires 0 <= i < |policies| =>
      if policies[i].id == id then policies[i].(lastScaled := Some(now)) else policies[i])
  }

  /** The desired count a policy asks for, if it asks for one. */
  function Wish(g: Group, p: Policy, average: real): Option<int> {
    if !p.cpu then None
    else if average > p.target then
      if g.current < g.max then Some(if g.current + p.outStep > g.max then g.max else g.current + p.outStep) else None
    else if average < p.target - 10.0 then
      if g.current > g.min then Some(if g.current - p.inStep < g.min then g.min else g.current - p.inStep) else None
    else None
  }

  predicate Cooling(p: Policy, now: Time) { p.lastScaled.Some? && now - p.lastScaled.value < p.cooldown * SECOND }

  function Fire(env: Env, s: Tick, p: Policy, desired: int): Tick {
    var t := SetDesired(env, s, desired);
    var now := env.clock(t.n);
    t.(n := t.n + 1,
       row := t.row.(policies := if env.touch(t.n) then Touched(t.row.policies, p.id, now) else t.row.policies,
                     firings := t.row.firings + [Firing(p.id, now, env.touch(t.n))]))
  }

  /** The first policy that is not cooling down and asks for a count fires; no other does. */
  function FirePolicies(env: Env, s: Tick, policies: seq<Policy>, average: real): Tick
    decreases policies
  {
    if policies == [] then s
    else
      var p, t := policies[0], s.(n := s.n + 1);
      if !Cooling(p, env.clock(s.n)) && Wish(s.mem, p, average).Some?
      then Fire(env, t, p, Wish(s.mem, p, average).value)
      else FirePolicies(env, t, policies[1..], average)
  }

  function EvaluatePolicies(env: Env, s: Tick): Tick {
    if s.row.policies == [] then s
    else
      var average := env.cpu(s.n);
      if average.None? then s.(n := s.n + 1)
      else FirePolicies(env, s.(n := s.n + 1), s.row.policies, average.value)
  }

  // ---------------------------------------------------------------- a tick of one group

  function CountLinks(env: Env, s: Tick): Tick {
    if |s.row.links| != s.mem.current then Update(env, s.(mem := s.mem.(current := |s.row.links|))) else s
  }

  function TickActive(env: Env, s: Tick): Tick
    requires 0 <= s.mem.min <= s.mem.max
  {
    EvaluatePolicies(env, Approach(env, ForceBounds(env, CountLinks(env, s))))
  }

  function ScaleInAll(env: Env, s: Tick, ids: seq<Id>): Tick
    decreases ids
  {
    if ids == [] then s
    else ScaleInAll(env, ScaleIn(env, s.(mem := s.mem.(desired := 0)), ids[0]).0, ids[1..])
  }

  predicate ValidBounds(g: Group) { 0 <= g.min <= g.max <= MAX_INSTANCES_HARD_LIMIT }

  /** The row after a tick, or `None` once the group record is removed; and the calls made so far. */
  function TickRow(env: Env, row: Row, n: nat): (Option<Row>, nat)
    requires ValidBounds(row.group)
  {
    var s := Tick(row, row.group, n);
    if row.group.status.Deleting? then
      if row.links == [] then (if env.remove(n) then None else Some(row), n + 1)
      else var t := ScaleInAll(env, s, row.links); (Some(t.row), t.n)
    else var t := TickActive(env, s); (Some(t.row), t.n)
  }

  // ---------------------------------------------------------------- service calls

  /** A service call reads the group, changes its copy and updates it. */
  function Rewrite(env: Env, row: Row, n: nat, mem: Group): Row {
    if env.service(n) && env.update(n + 1) then row.(group := Stored(env, row.group, mem)) else row
  }

  /** `DeleteGroup`: marked for the worker, allowed to shrink to nothing. */
  function MarkDeleting(env: Env, row: Row, n: nat): Row {
    Rewrite(env, row, n, row.group.(status := Deleting, min := 0, desired := 0))
  }

  function SetDesiredCapacity(env: Env, row: Row, n: nat, desired: int): Row {
    if desired < row.group.min || desired > row.group.max then row
    else Rewrite(env, row, n, row.group.(desired := desired))
  }

  function AddPolicy(env: Env, row: Row, n: nat, p: Policy): Row {
    if p.cooldown < MIN_COOLDOWN_SECONDS || !env.service(n) || !env.service(n + 1) then row
    else row.(policies := row.policies + [p.(id := n, lastScaled := None)])
  }

  function DropPolicy(policies: seq<Policy>, id: Id): seq<Policy> {
    if policies == [] then []
    else if policies[0].id == id then DropPolicy(policies[1..], id)
    else [policies[0]] + DropPolicy(policies[1..], id)
  }

  datatype Params = Params(min: int, max: int, desired: int)

  predicate ValidParams(p: Params) {
    p.max <= MAX_INSTANCES_HARD_LIMIT && 0 <= p.min <= p.max && p.min <= p.desired <= p.max
  }

  function NewRow(p: Params): Row { Row(Group(p.min, p.max, p.desired, 0, Active, 0, None), [], [], [], []) }

  // ---------------------------------------------------------------- runs of the whole fleet

  datatype Fleet = Fleet(rows: map<Id, Row>, n: nat)

  /** Ticks of single groups and service calls, in any order; `Vanish` is an instance terminated behind the
      group's back, whose link goes with it. */
  datatype Step =
    | Create(params: Params)
    | Evaluate(group: Id)
    | SetCapacity(group: Id, desired: int)
    | Delete(group: Id)
    | CreatePolicy(group: Id, policy: Policy)
    | DeletePolicy(group: Id, policyId: Id)
    | Vanish(group: Id, instance: Id)

  ghost predicate FleetValid(f: Fleet) { forall g | g in f.rows :: ValidBounds(f.rows[g].group) }

  /** One step on the row it names. */
  function StepRow(env: Env, row: Row, n: nat, step: Step): (Option<Row>, nat)
    requires ValidBounds(row.group)
  {
    match step
    case Create(_) => (Some(row), n)
    case Evaluate(_) => TickRow(env, row, n)
    case SetCapacity(_, desired) => (Some(SetDesiredCapacity(env, row, n, desired)), n + 2)
    case Delete(_) => (Some(MarkDeleting(env, row, n)), n + 2)
    case CreatePolicy(_, p) => (Some(AddPolicy(env, row, n, p)), n + 2)
    case DeletePolicy(_, id) =>
      (Some(if env.service(n) then row.(policies := DropPolicy(row.policies, id)) else row), n + 2)
    case Vanish(_, id) => (Some(row.(links := Unlinked(row.links, id))), n + 1)
  }

  function Apply(env: Env, f: Fleet, step: Step): Fleet
    requires FleetValid(f)
  {
    if step.Create? then
      if ValidParams(step.params) && env.service(f.n)
      then Fleet(f.rows[f.n := NewRow(step.params)], f.n + 1)
      else f.(n := f.n + 1)
    else if step.group !in f.rows then f.(n := f.n + 1)
    else
      var (row, n) := StepRow(env, f.rows[step.group], f.n, step);
      if row.Some? then Fleet(f.rows[step.group := row.value], n) else Fleet(f.rows - {step.group}, n)
  }

  const EMPTY := Fleet(map[], 0)
}
