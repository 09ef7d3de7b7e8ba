/** What each service call and each loop of a tick stores, exactly, and what it leaves alone. */
module ScalingSteps {
  import opened Options
  import opened Links
  import opened Scaling
  import opened ScalingSafety

  // ---------------------------------------------------------------- service calls

  /** No step touches any group but the one it names; only creation adds one, under a new identifier. */
  lemma OnlyNamedGroupChanges(env: Env, f: Fleet, step: Step)
    requires FleetSafe(f) && FleetValid(f)
    ensures var h := Apply(env, f, step);
            && (forall g | g in f.rows && (step.Create? || g != step.group) :: g in h.rows && h.rows[g] == f.rows[g])
            && (forall g | g in h.rows && g !in f.rows :: step.Create? && g == f.n)
  {
    hide StepRow, RowSafe, NewRow;
  }

  /** A group is created exactly for 0 <= min <= desired <= max <= 20, if the calls succeed, and then with just those
      numbers, nothing linked and no policy. */
  lemma CreationStoresRequest(env: Env, f: Fleet, params: Params)
    requires FleetSafe(f) && FleetValid(f)
    ensures var h := Apply(env, f, Create(params));
            && (f.n in h.rows <==>
                  0 <= params.min <= params.desired <= params.max <= 20 && env.service(f.n))
            && (f.n in h.rows ==>
                  && h.rows[f.n].group == Group(params.min, params.max, params.desired, 0, Active, 0, None)
                  && h.rows[f.n].links == [] && h.rows[f.n].policies == []
                  && h.rows[f.n].attempts == [] && h.rows[f.n].firings == [])
  {
    hide RowSafe;
    assert f.n !in f.rows;
  }

  /** What each service call writes: nothing unless its calls succeed, and then only the field it is about. */
  lemma ServiceCallsStore(env: Env, row: Row, n: nat, step: Step)
    requires ValidBounds(row.group) && !step.Create? && !step.Evaluate?
    ensures var after := StepRow(env, row, n, step).0;
            && after.Some?
            && match step
               case SetCapacity(_, desired) =>
                 var accepted := row.group.min <= desired <= row.group.max && env.service(n) && env.update(n + 1);
                 after.value == if accepted then row.(group := row.group.(desired := desired)) else row
               case Delete(_) =>
                 var marked := row.group.(status := Deleting, min := 0, desired := 0);
                 after.value == if env.service(n) && env.update(n + 1) then row.(group := marked) else row
               case CreatePolicy(_, p) =>
                 var accepted := p.cooldown >= 60 && env.service(n) && env.service(n + 1);
                 after.value ==
                   if accepted then row.(policies := row.policies + [p.(id := n, lastScaled := None)]) else row
               case DeletePolicy(_, id) =>
                 && after.value == row.(policies := after.value.policies)
                 && forall p :: p in after.value.policies <==> p in row.policies && (p.id != id || !env.service(n))
               case Vanish(_, id) =>
                 && after.value == row.(links := after.value.links)
                 && forall x :: x in after.value.links <==> x in row.links && x != id
               case _ => true
  {
    match step
    case DeletePolicy(_, id) => DropPolicyMembers(row.policies, id);
    case Vanish(_, id) => UnlinkedMembers(row.links, id);
    case _ =>
  }

  lemma {:induction false} DropPolicyMembers(policies: seq<Policy>, id: Id)
    ensures forall p :: p in DropPolicy(policies, id) <==> p in policies && p.id != id
  {
    if policies != [] {
      DropPolicyMembers(policies[1..], id);
      assert forall p :: p in policies <==> p == policies[0] || p in policies[1..];
    }
  }

  // ---------------------------------------------------------------- what a tick does to policies

  /** The same policies in the same order, up to the time each last fired. */
  ghost predicate SamePolicies(before: seq<Policy>, after: seq<Policy>) {
    && |after| == |before|
    && forall i | 0 <= i < |before| :: after[i].(lastScaled := before[i].lastScaled) == before[i]
  }

  lemma {:induction false} FirePoliciesKeep(env: Env, s: Tick, policies: seq<Policy>, average: real)
    ensures SamePolicies(s.row.policies, FirePolicies(env, s, policies, average).row.policies)
    decreases policies
  {
    if policies != [] { FirePoliciesKeep(env, s.(n := s.n + 1), policies[1..], average); }
  }

  lemma TickKeepsPolicies(env: Env, row: Row, n: nat)
    requires RowSafe(row, n)
    ensures var after := TickRow(env, row, n).0;
            after.Some? ==> SamePolicies(row.policies, after.value.policies)
  {
    hide CountLinks, ForceBounds, Approach, FirePolicies, ScaleInAll;
    if row.group.status.Deleting? {
      DeletingTickEffect(env, row, n);
    } else {
      var s := Tick(row, row.group, n);
      CountLinksEffect(env, s);
      ForceBoundsEffect(env, CountLinks(env, s));
      ApproachEffect(env, ForceBounds(env, CountLinks(env, s)));
      var t := Approach(env, ForceBounds(env, CountLinks(env, s)));
      if t.row.policies != [] && env.cpu(t.n).Some? {
        FirePoliciesKeep(env, t.(n := t.n + 1), t.row.policies, env.cpu(t.n).value);
      }
    }
  }

  // ---------------------------------------------------------------- groups and policies are as they were created

  /** A live group has the bounds it was created with; one being deleted keeps its maximum, and its minimum is 0. */
  ghost predicate BoundsOf(g: Group, params: Params) {
    g.max == params.max && g.min == (if g.status.Active? then params.min else 0)
  }

  lemma StepKeepsBounds(env: Env, row: Row, n: nat, step: Step, params: Params)
    requires RowSafe(row, n) && BoundsOf(row.group, params)
    ensures var after := StepRow(env, row, n, step).0;
            after.Some? ==> BoundsOf(after.value.group, params)
  {
    hide TickRow;
    if step.Evaluate? {
      if row.group.status.Active? { ActiveTickEffect(env, row, n); } else { DeletingTickEffect(env, row, n); }
    }
  }

  /** In every run every group was created by some request, with bounds 0 <= min <= desired <= max <= 20, and keeps
      them; so its links never exceed the maximum that was asked for. */
  lemma {:induction false} GroupAsCreated(env: Env, steps: seq<Step>, g: Id) returns (k: nat)
    requires g in Run(env, steps).rows
    ensures k < |steps| && steps[k].Create? && Run(env, steps[..k]).n == g
    ensures 0 <= steps[k].params.min <= steps[k].params.desired <= steps[k].params.max <= 20
    ensures BoundsOf(Run(env, steps).rows[g].group, steps[k].params)
    ensures |Run(env, steps).rows[g].links| <= steps[k].params.max
  {
    hide StepRow;
    var init, last := steps[..|steps| - 1], steps[|steps| - 1];
    var f := Run(env, init);
    LinksNeverExceedMax(env, steps, g);
    BoundsFromSafe(f);
    OnlyNamedGroupChanges(env, f, last);
    if g in f.rows {
      k := GroupAsCreated(env, init, g);
      assert init[..k] == steps[..k];
      if !last.Create? && last.group == g { StepKeepsBounds(env, f.rows[g], f.n, last, steps[k].params); }
    } else {
      k := |steps| - 1;
    }
  }

  /** In every run every policy of a group is one that was asked for, with a cooldown of at least a minute; only the
      time it last fired has changed. */
  lemma {:induction false} PolicyAsCreated(env: Env, steps: seq<Step>, g: Id, p: Policy) returns (k: nat)
    requires g in Run(env, steps).rows && p in Run(env, steps).rows[g].policies
    ensures k < |steps| && steps[k].CreatePolicy? && steps[k].group == g && steps[k].policy.cooldown >= 60
    ensures p == steps[k].policy.(id := Run(env, steps[..k]).n, lastScaled := p.lastScaled)
  {
    hide StepRow, TickRow, RowSafe;
    var init, last := steps[..|steps| - 1], steps[|steps| - 1];
    var f := Run(env, init);
    BoundsFromSafe(f);
    OnlyNamedGroupChanges(env, f, last);
    if last.Create? && g == f.n {
      CreationStoresRequest(env, f, last.params);
    } else {
      var earlier := p;
      if !last.Create? && last.group == g {
        if last.CreatePolicy? { ServiceCallsStore(env, f.rows[g], f.n, last); }
        if last.CreatePolicy? && p !in f.rows[g].policies {
          k := |steps| - 1;
          return;
        }
        earlier := EarlierPolicy(env, f.rows[g], f.n, last, p);
      }
      k := PolicyAsCreated(env, init, g, earlier);
      assert init[..k] == steps[..k];
    }
  }

  lemma EarlierPolicy(env: Env, row: Row, n: nat, step: Step, p: Policy) returns (q: Policy)
    requires RowSafe(row, n) && ValidBounds(row.group) && !step.Create?
    requires StepRow(env, row, n, step).0.Some? && p in StepRow(env, row, n, step).0.value.policies
    requires step.CreatePolicy? ==> p in row.policies
    ensures q in row.policies && p == q.(lastScaled := p.lastScaled)
  {
    hide RowSafe, TickRow;
    q := p;
    if step.Evaluate? {
      TickKeepsPolicies(env, row, n);
      var after := StepRow(env, row, n, step).0.value.policies;
      var i :| 0 <= i < |after| && after[i] == p;
      q := row.policies[i];
    } else {
      ServiceCallsStore(env, row, n, step);
    }
  }

  /** And none is lost: any step but its deletion, or the removal of its group, leaves a policy in place. */
  lemma PolicyStays(env: Env, row: Row, n: nat, step: Step, p: Policy) returns (q: Policy)
    requires RowSafe(row, n) && ValidBounds(row.group) && !step.Create? && StepRow(env, row, n, step).0.Some?
    requires p in row.policies && !(step.DeletePolicy? && step.policyId == p.id)
    ensures q in StepRow(env, row, n, step).0.value.policies && q == p.(lastScaled := q.lastScaled)
  {
    hide RowSafe, TickRow;
    q := p;
    if step.Evaluate? {
      TickKeepsPolicies(env, row, n);
      var after := StepRow(env, row, n, step).0.value.policies;
      var i :| 0 <= i < |row.policies| && row.policies[i] == p;
      q := after[i];
    } else {
      ServiceCallsStore(env, row, n, step);
    }
  }

  // ---------------------------------------------------------------- how far a tick gets when calls fail

  /** Number of the first call of the i-th scale-out attempt: three calls each, and one update after the first
      success if there were failures to clear. */
  function AttemptCall(s: Tick, i: nat): nat { s.n + 3 * i + (if i > 0 && s.mem.failures > 0 then 1 else 0) }

  function AttemptCalls(s: Tick, k: nat): seq<Id> { seq(k, i requires 0 <= i < k => AttemptCall(s, i)) }

  predicate Goes(env: Env, call: nat) { env.launch(call + 1) && env.link(call + 2) }

  /** The first `k` attempts go through, and the next, if one is still needed, does not. */
  ghost predicate StopsAfter(env: Env, s: Tick, needed: nat, k: nat) {
    && k <= needed && (forall i | 0 <= i < k :: Goes(env, AttemptCall(s, i)))
    && (k < needed ==> !Goes(env, AttemptCall(s, k)))
  }

  lemma StopsAfterFirst(env: Env, s: Tick, w: Tick, needed: nat, k: nat)
    requires StopsAfter(env, s, needed, k) && k > 0 && w.n == AttemptCall(s, 1) && w.mem.failures == 0
    ensures Goes(env, s.n) && StopsAfter(env, w, needed - 1, k - 1)
  {
    hide Goes;
    assert AttemptCall(s, 0) == s.n;
    forall i | 0 <= i < k - 1 ensures Goes(env, AttemptCall(w, i)) {
      assert AttemptCall(w, i) == AttemptCall(s, i + 1);
    }
    assert AttemptCall(w, k - 1) == AttemptCall(s, k);
  }

  /** A scale-out stops at the first attempt whose launch or link fails: it links exactly the instances launched before
      it. */
  lemma {:induction false} ScaleOutByExact(env: Env, s: Tick, needed: nat, k: nat)
    requires StopsAfter(env, s, needed, k)
    ensures ScaleOutBy(env, s, needed).row.links == s.row.links + AttemptCalls(s, k)
    decreases needed
  {
    hide ScaleOutBy, AttemptCalls;
    if k > 0 {
      var w := FirstAttempt(env, s, needed, k);
      ScaleOutByExact(env, w, needed - 1, k - 1);
      CallsShift(s, w, k);
      assert s.row.links + [s.n] + AttemptCalls(w, k - 1) == s.row.links + ([s.n] + AttemptCalls(w, k - 1));
    } else {
      NoAttempt(env, s, needed);
    }
  }

  /** Every attempt is on record with its outcome: the linked ones, and then the one that failed. */
  lemma {:induction false} AttemptsOnRecord(env: Env, s: Tick, needed: nat, k: nat)
    requires StopsAfter(env, s, needed, k)
    ensures var was, now := s.row.attempts, ScaleOutBy(env, s, needed).row.attempts;
            && was <= now && |now| == |was| + k + (if k < needed then 1 else 0)
            && forall j | |was| <= j < |now| :: now[j].linked <==> j < |was| + k
    decreases needed
  {
    hide ScaleOutBy, AttemptCalls;
    if k > 0 {
      var w := FirstAttempt(env, s, needed, k);
      AttemptsOnRecord(env, w, needed - 1, k - 1);
    } else {
      NoAttempt(env, s, needed);
    }
  }

  /** The state after a first attempt that goes through; the rest of the scale-out starts from there. */
  lemma FirstAttempt(env: Env, s: Tick, needed: nat, k: nat) returns (w: Tick)
    requires StopsAfter(env, s, needed, k) && k > 0
    ensures ScaleOutBy(env, s, needed) == ScaleOutBy(env, w, needed - 1) && StopsAfter(env, w, needed - 1, k - 1)
    ensures w.n == AttemptCall(s, 1) && w.mem.failures == 0 && w.row.links == s.row.links + [s.n]
    ensures |w.row.attempts| == |s.row.attempts| + 1 && s.row.attempts <= w.row.attempts
    ensures w.row.attempts[|s.row.attempts|].linked
  {
    w := RecordSuccess(env, ScaleOut(env, s).0, env.clock(s.n));
    assert AttemptCall(s, 0) == s.n && Goes(env, AttemptCall(s, 0));
    AttemptGoes(env, s);
    hide ScaleOut, RecordSuccess, RecordFailure, Goes, StopsAfter;
    StopsAfterFirst(env, s, w, needed, k);
  }

  lemma NoAttempt(env: Env, s: Tick, needed: nat)
    requires StopsAfter(env, s, needed, 0)
    ensures var was, now := s.row.attempts, ScaleOutBy(env, s, needed).row.attempts;
            && ScaleOutBy(env, s, needed).row.links == s.row.links && AttemptCalls(s, 0) == []
            && was <= now && |now| == |was| + (if needed > 0 then 1 else 0)
            && (needed > 0 ==> !now[|was|].linked)
  {
    if needed > 0 {
      assert AttemptCall(s, 0) == s.n;
      AttemptStops(env, s);
      hide ScaleOut, RecordFailure;
    }
  }

  lemma CallsShift(s: Tick, w: Tick, k: nat)
    requires k > 0 && w.n == AttemptCall(s, 1) && w.mem.failures == 0
    ensures AttemptCalls(s, k) == [s.n] + AttemptCalls(w, k - 1)
  {
  }

  lemma AttemptGoes(env: Env, s: Tick)
    requires Goes(env, s.n)
    ensures var (v, ok) := ScaleOut(env, s);
            var w := RecordSuccess(env, v, env.clock(s.n));
            && ok && w.n == AttemptCall(s, 1) && w.mem.failures == 0
            && w.row.links == s.row.links + [s.n]
            && |w.row.attempts| == |s.row.attempts| + 1 && s.row.attempts <= w.row.attempts
            && w.row.attempts[|s.row.attempts|].linked
  {
  }

  lemma AttemptStops(env: Env, s: Tick)
    requires !Goes(env, s.n)
    ensures var (v, ok) := ScaleOut(env, s);
            var w := RecordFailure(env, v, env.clock(s.n));
            && !ok && w.row.links == s.row.links
            && |w.row.attempts| == |s.row.attempts| + 1 && s.row.attempts <= w.row.attempts
            && !w.row.attempts[|s.row.attempts|].linked
  {
  }

  /** A scale-in stops at the first unlink that fails, with exactly the earlier ones done. */
  lemma {:induction false} ScaleInByExact(env: Env, s: Tick, excess: nat, k: nat)
    requires Distinct(s.row.links) && k <= excess <= |s.row.links|
    requires (forall call | s.n <= call < s.n + k :: env.unlink(call)) && (k < excess ==> !env.unlink(s.n + k))
    ensures ScaleInBy(env, s, s.row.links, excess).row.links == s.row.links[..|s.row.links| - k]
    decreases excess
  {
    if excess > 0 {
      var v := FirstRemoval(env, s, excess);
      hide ScaleInBy, Distinct;
      if k > 0 {
        assert env.unlink(s.n);
        ScaleInByExact(env, v, excess - 1, k - 1);
        assert v.row.links[..|v.row.links| - (k - 1)] == s.row.links[..|s.row.links| - k];
      } else {
        assert s.row.links[..|s.row.links|] == s.row.links;
      }
    }
  }

  /** The state after the first unlink call of a scale-in. */
  lemma FirstRemoval(env: Env, s: Tick, excess: nat) returns (v: Tick)
    requires Distinct(s.row.links) && 0 < excess <= |s.row.links|
    ensures v.n == s.n + 1 && Distinct(v.row.links)
    ensures v.row.links == if env.unlink(s.n) then s.row.links[..|s.row.links| - 1] else s.row.links
    ensures ScaleInBy(env, s, s.row.links, excess)
         == if env.unlink(s.n) then ScaleInBy(env, v, v.row.links, excess - 1) else v
  {
    v := ScaleIn(env, s, s.row.links[|s.row.links| - 1]).0;
    ScaleInLast(env, s);
    hide ScaleIn, Distinct;
  }

  lemma ScaleInLast(env: Env, s: Tick)
    requires Distinct(s.row.links) && s.row.links != []
    ensures var links := s.row.links;
            var (v, ok) := ScaleIn(env, s, links[|links| - 1]);
            && ok == env.unlink(s.n) && v.n == s.n + 1
            && v.row.links == (if ok then links[..|links| - 1] else links) && Distinct(v.row.links)
  {
    UnlinkedLast(s.row.links);
    hide Unlinked;
  }

  /** A cleanup goes on after a failed unlink: the i-th link stays exactly when its own call fails. */
  lemma {:induction false} ScaleInAllExact(env: Env, s: Tick, ids: seq<Id>, i: nat)
    requires Distinct(s.row.links) && Distinct(ids) && i < |ids| && ids[i] in s.row.links
    ensures ids[i] in ScaleInAll(env, s, ids).row.links <==> !env.unlink(s.n + i)
    decreases ids
  {
    var v := ScaleIn(env, s.(mem := s.mem.(desired := 0)), ids[0]).0;
    UnlinkedContents(s.row.links, ids[0]);
    DistinctTail(ids);
    if i == 0 {
      ScaleInAllEffect(env, v, ids[1..]);
    } else {
      ScaleInAllExact(env, v, ids[1..], i - 1);
    }
  }

  /** A tick of a group under deletion: with links, each goes exactly when its unlink succeeds; without, the record goes
      exactly when its removal succeeds. */
  lemma CleanupTickExact(env: Env, row: Row, n: nat)
    requires RowSafe(row, n) && row.group.status.Deleting?
    ensures var after := TickRow(env, row, n).0;
            && (after.None? <==> row.links == [] && env.remove(n))
            && (after.Some? ==>
                  && after.value == row.(links := after.value.links)
                  && forall i | 0 <= i < |row.links| :: row.links[i] in after.value.links <==> !env.unlink(n + i))
  {
    DeletingTickEffect(env, row, n);
    hide ScaleInAll;
    forall i | 0 <= i < |row.links|
      ensures row.links[i] in ScaleInAll(env, Tick(row, row.group, n), row.links).row.links <==> !env.unlink(n + i)
    {
      ScaleInAllExact(env, Tick(row, row.group, n), row.links, i);
    }
  }
}
