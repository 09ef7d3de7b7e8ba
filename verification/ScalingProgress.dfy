/** Where ticks lead: convergence of a live group and the end of a deleted one. */
module ScalingProgress {
  import opened Options
  import opened Links
  import opened Scaling
  import opened ScalingSafety
  import opened ScalingFailures
  import opened ScalingCooldown

  // ---------------------------------------------------------------- convergence

  /** Launching, linking and unlinking work. Nothing is said of group updates or of what the repository stores. */
  ghost predicate InstancesMove(env: Env) {
    forall i: nat :: env.launch(i) && env.link(i) && env.unlink(i)
  }

  /** Fewer than five failures on record, or five minutes since the last. */
  predicate NoActiveBackoff(g: Group, now: Time) {
    g.failures < 5 || g.lastFailure.None? || g.lastFailure.value + 300 * SECOND <= now
  }

  /** `target` is the count within the bounds that is nearest to the desired one. */
  ghost predicate Nearest(g: Group, target: int) {
    && g.min <= target <= g.max
    && forall x | g.min <= x <= g.max :: Distance(g.desired, target) <= Distance(g.desired, x)
  }

  /** With no active back-off and no failing launch, link or unlink, one tick brings the number of links to the
      in-bounds count nearest to the desired one: new links are appended, and scale-in leaves exactly the leading
      prefix. It does not matter which group updates fail, what the repository stores of them, or what policies do. */
  lemma TickConverges(env: Env, row: Row, n: nat)
    requires InstancesMove(env) && ClockRuns(env) && RowSafe(row, n) && row.group.status.Active?
    requires NoActiveBackoff(row.group, env.clock(n))
    ensures var after := TickRow(env, row, n).0;
            var target := Clamp(row.group);
            && after.Some? && Nearest(row.group, target)
            && |after.value.links| == target
            && (if |row.links| <= target then row.links <= after.value.links
                else after.value.links == row.links[..target])
  {
    hide CountLinks, ForceBounds, ScaleOutBy, ScaleInBy, EvaluatePolicies;
    var s := Tick(row, row.group, n);
    CountLinksEffect(env, s);
    var s1 := CountLinks(env, s);
    ForceBoundsEffect(env, s1);
    var s2 := ForceBounds(env, s1);
    var current := |s2.row.links|;
    if current < s2.mem.desired {
      assert env.clock(n) <= env.clock(s2.n);
      ScaleOutByEffect(env, s2.(n := s2.n + 1), s2.mem.desired - current);
    } else {
      ScaleInByEffect(env, s2, current - s2.mem.desired);
    }
    EvaluatePoliciesEffect(env, Approach(env, s2));
  }

  /** The repository holds what storing the worker's copy would leave there. */
  ghost predicate InStep(env: Env, s: Tick) { s.row.group == Stored(env, s.row.group, s.mem) }

  lemma {:induction false} ScaleOutByInStep(env: Env, s: Tick, needed: nat)
    requires UpdatesSucceed(env) && InstancesMove(env) && InStep(env, s)
    ensures InStep(env, ScaleOutBy(env, s, needed)) && ScaleOutBy(env, s, needed).mem.desired == s.mem.desired
    decreases needed
  {
    if needed > 0 {
      ScaleOutByInStep(env, RecordSuccess(env, ScaleOut(env, s).0, env.clock(s.n)), needed - 1);
    }
  }

  /** With updates succeeding and no policy to overwrite it, the clamped desired count is what gets stored. */
  lemma TickStoresTarget(env: Env, row: Row, n: nat)
    requires InstancesMove(env) && UpdatesSucceed(env) && ClockRuns(env)
    requires RowSafe(row, n) && row.group.status.Active? && row.policies == []
    requires NoActiveBackoff(row.group, env.clock(n))
    ensures var after := TickRow(env, row, n).0;
            after.Some? && after.value.policies == [] && after.value.group.desired == Clamp(row.group)
  {
    hide CountLinks, ForceBounds, ScaleOutBy, ScaleInBy;
    var s := Tick(row, row.group, n);
    CountLinksEffect(env, s);
    var s1 := CountLinks(env, s);
    assert InStep(env, s1) by { CountLinksInStep(env, s); }
    ForceBoundsEffect(env, s1);
    var s2 := ForceBounds(env, s1);
    assert InStep(env, s2) by { ForceBoundsInStep(env, s1); }
    var current := |s2.row.links|;
    if current < s2.mem.desired {
      assert env.clock(n) <= env.clock(s2.n);
      ScaleOutByEffect(env, s2.(n := s2.n + 1), s2.mem.desired - current);
      ScaleOutByInStep(env, s2.(n := s2.n + 1), s2.mem.desired - current);
    } else {
      ScaleInByEffect(env, s2, current - s2.mem.desired);
    }
  }

  lemma CountLinksInStep(env: Env, s: Tick)
    requires UpdatesSucceed(env) && s.mem == s.row.group
    ensures InStep(env, CountLinks(env, s))
    ensures CountLinks(env, s).row.group == Stored(env, s.mem, s.mem.(current := |s.row.links|))
  {
  }

  lemma ForceBoundsInStep(env: Env, s: Tick)
    requires UpdatesSucceed(env) && InStep(env, s)
    ensures InStep(env, ForceBounds(env, s))
    ensures s.mem.min <= s.mem.desired <= s.mem.max ==> ForceBounds(env, s) == s
  {
  }

  /** A group already at its desired count only has its recorded count corrected by a tick, as far as the repository
      stores one. */
  lemma SettledTick(env: Env, row: Row, n: nat)
    requires UpdatesSucceed(env) && RowSafe(row, n) && row.group.status.Active? && row.policies == []
    requires |row.links| == row.group.desired && row.group.min <= row.group.desired
    ensures TickRow(env, row, n).0
         == Some(row.(group := Stored(env, row.group, row.group.(current := |row.links|))))
  {
    hide CountLinks, ForceBounds;
    var s := Tick(row, row.group, n);
    CountLinksEffect(env, s);
    CountLinksInStep(env, s);
    ForceBoundsInStep(env, CountLinks(env, s));
  }

  /** After the tick that converges, the next one changes nothing but the recorded count: to the exact number of links
      if the repository stores it, and not at all otherwise. */
  lemma SecondTickOnlyCounts(env: Env, row: Row, n: nat)
    requires InstancesMove(env) && UpdatesSucceed(env) && ClockRuns(env)
    requires RowSafe(row, n) && row.group.status.Active? && row.policies == []
    requires NoActiveBackoff(row.group, env.clock(n))
    ensures var (after, m) := TickRow(env, row, n);
            && after.Some? && ValidBounds(after.value.group)
            && var counted := after.value.(group := after.value.group.(current := |after.value.links|));
               TickRow(env, after.value, m).0 == Some(if env.storesCounters then counted else after.value)
  {
    TickConverges(env, row, n);
    TickStoresTarget(env, row, n);
    ActiveTickEffect(env, row, n);
    hide TickRow;
    var (after, m) := TickRow(env, row, n);
    SettledTick(env, after.value, m);
  }

  /** A capacity within the bounds, once accepted and written, is reached by the next tick whose launch, link and
      unlink calls succeed. */
  lemma CapacityIsReached(env: Env, row: Row, n: nat, desired: int)
    requires InstancesMove(env) && ClockRuns(env) && env.service(n) && env.update(n + 1)
    requires RowSafe(row, n) && row.group.status.Active?
    requires row.group.min <= desired <= row.group.max && NoActiveBackoff(row.group, env.clock(n))
    ensures var (resized, m) := StepRow(env, row, n, SetCapacity(0, desired));
            && resized == Some(row.(group := row.group.(desired := desired)))
            && var after := TickRow(env, resized.value, m).0;
               after.Some? && |after.value.links| == desired
  {
    hide TickRow;
    var (resized, m) := StepRow(env, row, n, SetCapacity(0, desired));
    assert env.clock(n) <= env.clock(m);
    TickConverges(env, resized.value, m);
  }

  /** The first such tick fills a new group. */
  lemma NewGroupIsFilled(env: Env, params: Params, n: nat)
    requires InstancesMove(env) && ClockRuns(env) && ValidParams(params)
    ensures var after := TickRow(env, NewRow(params), n).0;
            after.Some? && |after.value.links| == params.desired
  {
    hide TickRow;
    NewRowSafe(params, n);
    TickConverges(env, NewRow(params), n);
  }

  // ---------------------------------------------------------------- a policy's wish comes true

  /** The failure columns are as they were, or cleared. */
  ghost predicate NoWorse(was: Group, g: Group) {
    (g.failures == was.failures && g.lastFailure == was.lastFailure) || g.failures == 0
  }

  ghost predicate TickNoWorse(was: Group, s: Tick) { NoWorse(was, s.mem) && NoWorse(was, s.row.group) }

  lemma {:induction false} ScaleOutByNoWorse(env: Env, was: Group, s: Tick, needed: nat)
    requires InstancesMove(env) && TickNoWorse(was, s)
    ensures TickNoWorse(was, ScaleOutBy(env, s, needed))
    decreases needed
  {
    if needed > 0 {
      ScaleOutByNoWorse(env, was, RecordSuccess(env, ScaleOut(env, s).0, env.clock(s.n)), needed - 1);
    }
  }

  lemma {:induction false} FirePoliciesNoWorse(env: Env, was: Group, s: Tick, policies: seq<Policy>, average: real)
    requires TickNoWorse(was, s)
    ensures TickNoWorse(was, FirePolicies(env, s, policies, average))
    decreases policies
  {
    if policies != [] { FirePoliciesNoWorse(env, was, s.(n := s.n + 1), policies[1..], average); }
  }

  lemma TurnNoWorse(env: Env, row: Row, n: nat)
    requires InstancesMove(env) && RowSafe(row, n)
    ensures TickNoWorse(row.group, PoliciesTurn(env, row, n))
  {
    hide ScaleOutBy, ScaleInBy;
    var s := ForceBounds(env, CountLinks(env, Tick(row, row.group, n)));
    assert TickNoWorse(row.group, s);
    ForceBoundsEffect(env, CountLinks(env, Tick(row, row.group, n)));
    CountLinksEffect(env, Tick(row, row.group, n));
    if |s.row.links| < s.mem.desired {
      ScaleOutByNoWorse(env, row.group, s.(n := s.n + 1), s.mem.desired - |s.row.links|);
    } else {
      ScaleInByEffect(env, s, |s.row.links| - s.mem.desired);
    }
  }

  lemma TickBacksOffNoMore(env: Env, row: Row, n: nat)
    requires InstancesMove(env) && RowSafe(row, n) && row.group.status.Active?
    ensures TickRow(env, row, n).0.Some? && NoWorse(row.group, TickRow(env, row, n).0.value.group)
  {
    TurnNoWorse(env, row, n);
    hide CountLinks, ForceBounds, Approach, FirePolicies;
    var s := PoliciesTurn(env, row, n);
    if s.row.policies != [] && env.cpu(s.n).Some? {
      FirePoliciesNoWorse(env, row.group, s.(n := s.n + 1), s.row.policies, env.cpu(s.n).value);
    }
  }

  /** When the metric shows that a policy with positive steps should move the group, and it is the first that may, the
      tick after the one in which it fires has brought the group to the count it calls for, or to the minimum if that
      is more. */
  lemma WishIsReached(env: Env, row: Row, n: nat, first: nat)
    requires InstancesMove(env) && ClockRuns(env) && RowSafe(row, n) && row.group.status.Active?
    requires NoActiveBackoff(row.group, env.clock(n))
    requires first < |row.policies| && row.policies[first].outStep > 0 && row.policies[first].inStep > 0
    requires var s := PoliciesTurn(env, row, n);
             && env.cpu(s.n).Some? && env.update(s.n + first + 2)
             && FirstWilling(env, s.(n := s.n + 1), row.policies, env.cpu(s.n).value, first)
    ensures var s := PoliciesTurn(env, row, n);
            var (after, m) := TickRow(env, row, n);
            && after.Some? && ValidBounds(after.value.group)
            && var next := TickRow(env, after.value, m).0;
               && next.Some?
               && var count := MovedCount(row.group.(current := |row.links|), row.policies[first], env.cpu(s.n).value);
                  |next.value.links| == if count < row.group.min then row.group.min else count
  {
    var s := PoliciesTurn(env, row, n);
    var g, p, average := row.group.(current := |row.links|), row.policies[first], env.cpu(s.n).value;
    TickFiresFirstWilling(env, row, n, first);
    ActiveTickEffect(env, row, n);
    TickBacksOffNoMore(env, row, n);
    TurnState(env, row, n);
    hide TickRow, PoliciesTurn;
    assert Willing(env, s.(n := s.n + 1), row.policies, average, first);
    assert CallsForMove(g, p, average);
    WishMeaning(g, p, average);
    var (after, m) := TickRow(env, row, n);
    assert after.value.group.desired == MovedCount(g, p, average) <= g.max;
    assert env.clock(n) <= env.clock(m);
    TickConverges(env, after.value, m);
  }

  // ---------------------------------------------------------------- deletion

  /** Nothing brings a group back from deletion: a step removes it, or leaves it deleting with no new attempts and no
      new links. It is removed only when it has no links. */
  lemma StepKeepsDeleting(env: Env, row: Row, n: nat, step: Step)
    requires RowSafe(row, n) && row.group.status.Deleting?
    ensures var after := StepRow(env, row, n, step).0;
            && (after.None? ==> row.links == [])
            && (after.Some? ==>
                  && after.value.group.status.Deleting?
                  && after.value.attempts == row.attempts
                  && |after.value.links| <= |row.links|
                  && forall x | x in after.value.links :: x in row.links)
  {
    hide TickRow;
    match step
    case Evaluate(_) => DeletingTickEffect(env, row, n);
    case Vanish(_, id) => UnlinkedContents(row.links, id);
    case _ =>
  }

  lemma GroupIdsAreOld(env: Env, steps: seq<Step>, g: Id)
    requires g in Run(env, steps).rows
    ensures g < Run(env, steps).n
  {
    assert FleetSafe(Run(env, steps));
  }

  lemma {:induction false} CallsOnlyGrow(env: Env, steps: seq<Step>, more: seq<Step>)
    ensures Run(env, steps).n <= Run(env, steps + more).n
  {
    if more == [] {
      assert steps + more == steps;
    } else {
      var init := more[..|more| - 1];
      assert (steps + more)[..|steps + more| - 1] == steps + init;
      CallsOnlyGrow(env, steps, init);
      ApplySafe(env, Run(env, steps + init), more[|more| - 1]);
    }
  }

  /** Whatever follows in a run, a group marked for deletion never launches again, never leaves that status, and its
      links only shrink, until its record is gone. */
  lemma {:induction false} DeletionIsFinal(env: Env, steps: seq<Step>, more: seq<Step>, g: Id)
    requires g in Run(env, steps).rows && Run(env, steps).rows[g].group.status.Deleting?
    ensures g in Run(env, steps + more).rows ==>
              var before, after := Run(env, steps).rows[g], Run(env, steps + more).rows[g];
              && after.group.status.Deleting?
              && after.attempts == before.attempts
              && |after.links| <= |before.links|
              && forall x | x in after.links :: x in before.links
  {
    hide StepRow;
    if more == [] {
      assert steps + more == steps;
    } else {
      var init, last := more[..|more| - 1], more[|more| - 1];
      assert (steps + more)[..|steps + more| - 1] == steps + init;
      DeletionIsFinal(env, steps, init, g);
      CallsOnlyGrow(env, steps, init);
      GroupIdsAreOld(env, steps, g);
      var f := Run(env, steps + init);
      if g in f.rows && !last.Create? && last.group == g {
        assert RowSafe(f.rows[g], f.n);
        StepKeepsDeleting(env, f.rows[g], f.n, last);
      }
    }
  }

  /** A removed group never comes back. */
  lemma {:induction false} RemovedStaysRemoved(env: Env, steps: seq<Step>, more: seq<Step>, g: Id)
    requires g !in Run(env, steps).rows && g < Run(env, steps).n
    ensures g !in Run(env, steps + more).rows
  {
    hide StepRow;
    if more == [] {
      assert steps + more == steps;
    } else {
      var init := more[..|more| - 1];
      assert (steps + more)[..|steps + more| - 1] == steps + init;
      RemovedStaysRemoved(env, steps, init, g);
      CallsOnlyGrow(env, steps, init);
    }
  }

  lemma FirstIsIn(links: seq<Id>)
    ensures links == [] || links[0] in links
  {
  }

  /** When unlink and record-delete calls succeed, two ticks finish a deletion, whatever becomes of the terminate
      calls: the first unlinks everything, the second removes the record. */
  lemma TwoTicksDelete(env: Env, row: Row, n: nat)
    requires RowSafe(row, n) && row.group.status.Deleting?
    requires (forall i: nat :: env.unlink(i) && env.remove(i))
    ensures var (after, m) := TickRow(env, row, n);
            after.Some? ==>
              && after.value.links == [] && ValidBounds(after.value.group)
              && TickRow(env, after.value, m).0.None?
  {
    DeletingTickEffect(env, row, n);
    if row.links != [] {
      ScaleInAllEffect(env, Tick(row, row.group, n), row.links);
      FirstIsIn(ScaleInAll(env, Tick(row, row.group, n), row.links).row.links);
    }
  }

  /** From the service call on: a group marked for deletion is gone after two ticks whose unlink and record-delete
      calls succeed. */
  lemma DeletedGroupIsGone(env: Env, row: Row, n: nat)
    requires RowSafe(row, n) && env.service(n) && env.update(n + 1)
    requires (forall i: nat :: env.unlink(i) && env.remove(i))
    ensures var (marked, m) := StepRow(env, row, n, Delete(0));
            && marked.Some? && marked.value.group.status.Deleting? && marked.value.links == row.links
            && ValidBounds(marked.value.group)
            && var (after, k) := TickRow(env, marked.value, m);
               after.Some? ==>
                 && after.value.links == [] && ValidBounds(after.value.group)
                 && TickRow(env, after.value, k).0.None?
  {
    hide TickRow;
    StepRowSafe(env, row, n, Delete(0));
    var (marked, m) := StepRow(env, row, n, Delete(0));
    TwoTicksDelete(env, marked.value, m);
  }
}
