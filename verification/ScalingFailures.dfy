/** The failure back-off: what the stored failure count means, and when launches pause. */
module ScalingFailures {
  import opened Options
  import opened Links
  import opened Scaling
  import opened ScalingSafety

  /** Failed attempts since the last successful one. */
  function Trailing(attempts: seq<Attempt>): nat {
    if attempts == [] || attempts[|attempts| - 1].linked then 0
    else Trailing(attempts[..|attempts| - 1]) + 1
  }

  /** From the fifth consecutive failure on, the next attempt begins at least five minutes after the last failure. */
  ghost predicate BackoffHonoured(attempts: seq<Attempt>) {
    forall k | 0 < k < |attempts| && Trailing(attempts[..k]) >= 5 ::
      attempts[k - 1].failedAt + 300_000_000_000 <= attempts[k].startedAt
  }

  /** The count is the number of failures since the last success, and the failure time is set exactly when it is
      positive, to the time of the last failure. */
  ghost predicate CountExact(g: Group, attempts: seq<Attempt>) {
    && g.failures == Trailing(attempts)
    && (g.lastFailure.Some? <==> g.failures > 0)
    && (g.failures > 0 ==> attempts != [] && g.lastFailure.value == attempts[|attempts| - 1].failedAt)
  }

  ghost predicate FailureInv(g: Group, attempts: seq<Attempt>) { CountExact(g, attempts) && BackoffHonoured(attempts) }

  ghost predicate ClockRuns(env: Env) { forall i: nat, j: nat | i <= j :: env.clock(i) <= env.clock(j) }

  ghost predicate UpdatesSucceed(env: Env) { forall i: nat :: env.update(i) }

  /** Repository writes go through, and keep the counter columns. */
  ghost predicate Durable(env: Env) { env.storesCounters && UpdatesSucceed(env) }

  /** An attempt may be added if there was no long run of failures or if it begins late enough. */
  ghost predicate MayAttempt(attempts: seq<Attempt>, startedAt: Time) {
    Trailing(attempts) >= MAX_FAILURE_COUNT ==>
      attempts != [] && attempts[|attempts| - 1].failedAt + FAILURE_BACKOFF <= startedAt
  }

  lemma HonouredAppend(attempts: seq<Attempt>, a: Attempt)
    requires BackoffHonoured(attempts) && MayAttempt(attempts, a.startedAt)
    ensures BackoffHonoured(attempts + [a])
    ensures Trailing(attempts + [a]) == if a.linked then 0 else Trailing(attempts) + 1
  {
    var more := attempts + [a];
    assert more[..|attempts|] == attempts;
    forall k | 0 < k < |more| && Trailing(more[..k]) >= MAX_FAILURE_COUNT
      ensures more[k - 1].failedAt + FAILURE_BACKOFF <= more[k].startedAt
    {
      if k < |attempts| { assert more[..k] == attempts[..k]; }
    }
  }

  lemma RecordKeepsInv(env: Env, s: Tick, startedAt: Time)
    requires Durable(env) && s.mem == s.row.group
    requires FailureInv(s.mem, s.row.attempts) && MayAttempt(s.row.attempts, startedAt)
    ensures var t := RecordFailure(env, s, startedAt);
            t.mem == t.row.group && FailureInv(t.mem, t.row.attempts) && s.n <= t.n
    ensures var t := RecordSuccess(env, s, startedAt);
            t.mem == t.row.group && FailureInv(t.mem, t.row.attempts) && s.n <= t.n && Trailing(t.row.attempts) == 0
  {
    HonouredAppend(s.row.attempts, Attempt(startedAt, false, env.clock(s.n)));
    HonouredAppend(s.row.attempts, Attempt(startedAt, true, startedAt));
  }

  lemma {:induction false} ScaleOutByKeepsInv(env: Env, s: Tick, needed: nat)
    requires Durable(env) && s.mem == s.row.group && FailureInv(s.mem, s.row.attempts)
    requires MayAttempt(s.row.attempts, env.clock(s.n))
    ensures var t := ScaleOutBy(env, s, needed);
            t.mem == t.row.group && FailureInv(t.mem, t.row.attempts)
    decreases needed
  {
    hide RecordFailure, RecordSuccess;
    if needed > 0 {
      var startedAt := env.clock(s.n);
      var (v, ok) := ScaleOut(env, s);
      RecordKeepsInv(env, v, startedAt);
      if ok { ScaleOutByKeepsInv(env, RecordSuccess(env, v, startedAt), needed - 1); }
    }
  }

  lemma ApproachKeepsInv(env: Env, s: Tick)
    requires Durable(env) && ClockRuns(env) && 0 <= s.mem.desired && Distinct(s.row.links)
    requires s.mem == s.row.group && FailureInv(s.mem, s.row.attempts)
    ensures var t := Approach(env, s);
            t.mem == t.row.group && FailureInv(t.mem, t.row.attempts)
  {
    hide ScaleOutBy, ScaleInBy;
    var current := |s.row.links|;
    if current < s.mem.desired {
      var v := s.(n := s.n + 1);
      if !BacksOff(s.mem, env.clock(s.n)) {
        assert env.clock(s.n) <= env.clock(v.n);
        ScaleOutByKeepsInv(env, v, s.mem.desired - current);
      }
    } else {
      ScaleInByEffect(env, s, current - s.mem.desired);
    }
  }

  lemma ForceBoundsInSync(env: Env, s: Tick)
    requires Durable(env) && s.mem == s.row.group && s.mem.min <= s.mem.max
    ensures var t := ForceBounds(env, s);
            t.mem == t.row.group && t.mem == s.mem.(desired := Clamp(s.mem)) && t.row == s.row.(group := t.mem)
  {
    ForceBoundsEffect(env, s);
  }

  lemma CountLinksInSync(env: Env, s: Tick)
    requires Durable(env) && s.mem == s.row.group
    ensures var t := CountLinks(env, s);
            t.mem == t.row.group && t.mem == s.mem.(current := |s.row.links|) && t.row == s.row.(group := t.mem)
  {
  }

  /** Firing policies rewrites the desired count only. */
  lemma {:induction false} FirePoliciesKeepsInv(env: Env, s: Tick, policies: seq<Policy>, average: real)
    requires Durable(env) && s.mem == s.row.group
    ensures var t := FirePolicies(env, s, policies, average);
            t.row.group == s.row.group.(desired := t.row.group.desired) && t.row.attempts == s.row.attempts
    decreases policies
  {
    hide Wish, Cooling;
    if policies != [] { FirePoliciesKeepsInv(env, s.(n := s.n + 1), policies[1..], average); }
  }

  lemma TickKeepsInv(env: Env, row: Row, n: nat)
    requires Durable(env) && ClockRuns(env) && RowSafe(row, n) && FailureInv(row.group, row.attempts)
    ensures var after := TickRow(env, row, n).0;
            after.Some? ==> FailureInv(after.value.group, after.value.attempts)
  {
    hide CountLinks, ForceBounds, Approach, FirePolicies, ScaleInAll;
    var s := Tick(row, row.group, n);
    if row.group.status.Deleting? {
      DeletingTickEffect(env, row, n);
    } else {
      CountLinksInSync(env, s);
      var s1 := CountLinks(env, s);
      ForceBoundsInSync(env, s1);
      var s2 := ForceBounds(env, s1);
      ApproachKeepsInv(env, s2);
      var s3 := Approach(env, s2);
      if s3.row.policies != [] && env.cpu(s3.n).Some? {
        FirePoliciesKeepsInv(env, s3.(n := s3.n + 1), s3.row.policies, env.cpu(s3.n).value);
      }
    }
  }

  lemma StepKeepsInv(env: Env, row: Row, n: nat, step: Step)
    requires Durable(env) && ClockRuns(env) && RowSafe(row, n) && FailureInv(row.group, row.attempts)
    ensures var after := StepRow(env, row, n, step).0;
            after.Some? ==> FailureInv(after.value.group, after.value.attempts)
  {
    hide TickRow;
    if step.Evaluate? { TickKeepsInv(env, row, n); }
  }

  lemma {:induction false} RunKeepsInv(env: Env, steps: seq<Step>)
    requires Durable(env) && ClockRuns(env)
    ensures forall g | g in Run(env, steps).rows ::
              FailureInv(Run(env, steps).rows[g].group, Run(env, steps).rows[g].attempts)
  {
    hide StepRow, FailureInv;
    if steps != [] {
      var before, step := Run(env, steps[..|steps| - 1]), steps[|steps| - 1];
      RunKeepsInv(env, steps[..|steps| - 1]);
      if step.Create? {
        NewRowInv(step.params);
      } else if step.group in before.rows {
        StepKeepsInv(env, before.rows[step.group], before.n, step);
      }
    }
  }

  lemma NewRowInv(p: Params)
    ensures FailureInv(NewRow(p).group, NewRow(p).attempts)
  {
  }

  // ---------------------------------------------------------------- without the counter columns

  ghost predicate NothingOnRecord(g: Group) { g.failures == 0 && g.lastFailure.None? }

  /** The stored failure columns are the same in both. */
  ghost predicate SameRecord(s: Tick, t: Tick) {
    t.row.group.failures == s.row.group.failures && t.row.group.lastFailure == s.row.group.lastFailure
  }

  lemma {:induction false} ScaleOutByKeepsRecord(env: Env, s: Tick, needed: nat)
    requires !env.storesCounters
    ensures SameRecord(s, ScaleOutBy(env, s, needed))
    decreases needed
  {
    if needed > 0 {
      var (v, ok) := ScaleOut(env, s);
      if ok { ScaleOutByKeepsRecord(env, RecordSuccess(env, v, env.clock(s.n)), needed - 1); }
    }
  }

  lemma {:induction false} FirePoliciesKeepsRecord(env: Env, s: Tick, policies: seq<Policy>, average: real)
    requires !env.storesCounters
    ensures SameRecord(s, FirePolicies(env, s, policies, average))
    decreases policies
  {
    hide Wish, Cooling;
    if policies != [] { FirePoliciesKeepsRecord(env, s.(n := s.n + 1), policies[1..], average); }
  }

  lemma TickKeepsRecord(env: Env, row: Row, n: nat)
    requires !env.storesCounters && RowSafe(row, n)
    ensures var after := TickRow(env, row, n).0;
            after.Some? ==> SameRecord(Tick(row, row.group, n), Tick(after.value, row.group, n))
  {
    hide ScaleOutBy, ScaleInBy, FirePolicies, ScaleInAll;
    var s := Tick(row, row.group, n);
    if row.group.status.Deleting? {
      DeletingTickEffect(env, row, n);
    } else {
      CountLinksEffect(env, s);
      var s1 := CountLinks(env, s);
      ForceBoundsEffect(env, s1);
      var s2 := ForceBounds(env, s1);
      assert SameRecord(s, s2);
      var current := |s2.row.links|;
      if current < s2.mem.desired {
        ScaleOutByKeepsRecord(env, s2.(n := s2.n + 1), s2.mem.desired - current);
      } else {
        ScaleInByEffect(env, s2, current - s2.mem.desired);
      }
      var s3 := Approach(env, s2);
      if s3.row.policies != [] && env.cpu(s3.n).Some? {
        FirePoliciesKeepsRecord(env, s3.(n := s3.n + 1), s3.row.policies, env.cpu(s3.n).value);
      }
    }
  }

  /** A repository that drops the counter columns has no failure on record, for any group in any run, whatever fails. */
  lemma {:induction false} NoFailureOnRecord(env: Env, steps: seq<Step>)
    requires !env.storesCounters
    ensures forall g | g in Run(env, steps).rows :: NothingOnRecord(Run(env, steps).rows[g].group)
  {
    hide TickRow, RowSafe;
    if steps != [] {
      var before, step := Run(env, steps[..|steps| - 1]), steps[|steps| - 1];
      NoFailureOnRecord(env, steps[..|steps| - 1]);
      if step.Evaluate? && step.group in before.rows {
        TickKeepsRecord(env, before.rows[step.group], before.n);
      }
    }
  }

  /** A live group with fewer than five failures on record and links below its target attempts a launch in every
      tick. */
  lemma TickAttempts(env: Env, row: Row, n: nat)
    requires RowSafe(row, n) && row.group.status.Active? && row.group.failures < 5
    requires |row.links| < Clamp(row.group)
    ensures var after := TickRow(env, row, n).0;
            after.Some? && |after.value.attempts| > |row.attempts|
  {
    hide CountLinks, ForceBounds, EvaluatePolicies, ScaleOutBy;
    var s := Tick(row, row.group, n);
    CountLinksEffect(env, s);
    var s1 := CountLinks(env, s);
    ForceBoundsEffect(env, s1);
    var s2 := ForceBounds(env, s1);
    ScaleOutByAttempts(env, s2.(n := s2.n + 1), s2.mem.desired - |s2.row.links|);
    EvaluatePoliciesEffect(env, Approach(env, s2));
  }

  lemma {:induction false} ScaleOutByAttempts(env: Env, s: Tick, needed: nat)
    ensures |ScaleOutBy(env, s, needed).row.attempts| >= |s.row.attempts| + (if needed > 0 then 1 else 0)
    decreases needed
  {
    if needed > 0 {
      var (v, ok) := ScaleOut(env, s);
      if ok { ScaleOutByAttempts(env, RecordSuccess(env, v, env.clock(s.n)), needed - 1); }
    }
  }

  /** So without the columns nothing ever pauses: in every run, every tick of a live group below its target attempts a
      launch, however many have just failed. */
  lemma NothingEverPauses(env: Env, steps: seq<Step>, g: Id)
    requires !env.storesCounters && g in Run(env, steps).rows
    requires var row := Run(env, steps).rows[g]; row.group.status.Active? && |row.links| < Clamp(row.group)
    ensures var row := Run(env, steps).rows[g];
            && ValidBounds(row.group)
            && var after := TickRow(env, row, Run(env, steps).n).0;
               after.Some? && |after.value.attempts| > |row.attempts|
  {
    NoFailureOnRecord(env, steps);
    assert RowSafe(Run(env, steps).rows[g], Run(env, steps).n);
    TickAttempts(env, Run(env, steps).rows[g], Run(env, steps).n);
  }

  // ---------------------------------------------------------------- what the failure columns mean

  /** With a clock that never runs backwards, in every run. If the repository stores the counter columns and its writes
      go through: the failure count of each group is the number of failed scale-outs since the last success, the
      failure time is set exactly when it is positive, and after five failures in a row launches pause for five
      minutes. If it does not store them: both are always blank. */
  lemma FailureCountIsExact(env: Env, steps: seq<Step>, g: Id)
    requires ClockRuns(env) && (env.storesCounters ==> UpdatesSucceed(env)) && g in Run(env, steps).rows
    ensures var row := Run(env, steps).rows[g];
            if env.storesCounters then CountExact(row.group, row.attempts) && BackoffHonoured(row.attempts)
            else NothingOnRecord(row.group)
  {
    if env.storesCounters { RunKeepsInv(env, steps); } else { NoFailureOnRecord(env, steps); }
  }

  /** The back-off is honoured in every run of every environment that stores, or drops, the counter columns. */
  ghost predicate BackoffGuaranteed(storesCounters: bool) {
    forall env: Env, steps: seq<Step>, g: Id
      | env.storesCounters == storesCounters && ClockRuns(env) && UpdatesSucceed(env) && g in Run(env, steps).rows ::
      BackoffHonoured(Run(env, steps).rows[g].attempts)
  }

  /** A stopped clock, launches that always fail, and a repository that drops the counter columns. */
  ghost function Forgetful(): Env {
    Env(_ => 0, _ => false, _ => true, _ => true, _ => true, _ => true, _ => true, _ => None, _ => true, false)
  }

  ghost function Ticks(k: nat): seq<Step> { [Create(Params(1, 1, 1))] + seq(k, _ => Evaluate(0)) }

  ghost function Failures(k: nat): seq<Attempt> { seq(k, _ => Attempt(0, false, 0)) }

  lemma ForgetfulTick(k: nat, n: nat)
    ensures var row := NewRow(Params(1, 1, 1)).(attempts := Failures(k));
            TickRow(Forgetful(), row, n) == (Some(row.(attempts := Failures(k + 1))), n + 6)
  {
    var env, row := Forgetful(), NewRow(Params(1, 1, 1)).(attempts := Failures(k));
    assert Failures(k) + [Attempt(0, false, 0)] == Failures(k + 1);
    var s := Tick(row, row.group, n);
    assert CountLinks(env, s) == s && ForceBounds(env, s) == s;
    var v := s.(n := n + 1);
    assert ScaleOut(env, v) == (v.(n := n + 4), false);
    assert RecordFailure(env, v.(n := n + 4), 0).row == row.(attempts := Failures(k + 1));
    assert ScaleOutBy(env, v, 1) == RecordFailure(env, v.(n := n + 4), 0);
    assert Approach(env, s) == ScaleOutBy(env, v, 1);
  }

  lemma {:induction false} ForgetfulRun(k: nat)
    ensures Run(Forgetful(), Ticks(k)) == Fleet(map[0 := NewRow(Params(1, 1, 1)).(attempts := Failures(k))], 1 + 6 * k)
  {
    hide TickRow;
    var steps := Ticks(k);
    if k == 0 {
      assert steps == [Create(Params(1, 1, 1))] && steps[..0] == [];
      assert Failures(0) == [];
    } else {
      assert steps[..|steps| - 1] == Ticks(k - 1);
      ForgetfulRun(k - 1);
      ForgetfulTick(k - 1, 1 + 6 * (k - 1));
    }
  }

  lemma {:induction false} TrailingFailures(k: nat)
    ensures Trailing(Failures(k)) == k
  {
    if k > 0 {
      TrailingFailures(k - 1);
      assert Failures(k)[..k - 1] == Failures(k - 1);
    }
  }

  /** Five failures in a row at one moment, and the sixth attempt follows at once. */
  lemma SixthAttemptAtOnce()
    ensures 0 in Run(Forgetful(), Ticks(6)).rows && !BackoffHonoured(Run(Forgetful(), Ticks(6)).rows[0].attempts)
  {
    ForgetfulRun(6);
    var attempts := Failures(6);
    TrailingFailures(5);
    assert attempts[..5] == Failures(5);
    assert attempts[5 - 1].failedAt + FAILURE_BACKOFF > attempts[5].startedAt;
  }

  /** The documented pause after five consecutive failures holds in every run if and only if the repository stores
      the counter columns; one whose group update writes only name, bounds, desired count and status does not. */
  lemma BackoffIffCountersStored(storesCounters: bool)
    ensures BackoffGuaranteed(storesCounters) <==> storesCounters
  {
    if storesCounters {
      forall env: Env, steps: seq<Step>, g: Id
        | env.storesCounters && ClockRuns(env) && UpdatesSucceed(env) && g in Run(env, steps).rows
        ensures BackoffHonoured(Run(env, steps).rows[g].attempts)
      {
        FailureCountIsExact(env, steps, g);
      }
    } else {
      SixthAttemptAtOnce();
      assert ClockRuns(Forgetful()) && UpdatesSucceed(Forgetful());
    }
  }
}
