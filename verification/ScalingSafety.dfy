/** Bounds on a group's links over every run, and what one tick does to them. */
module ScalingSafety {
  import opened Links
  import opened Scaling

  /** Bounds in order, no more links than allowed, and each link made once, before call `n`. */
  ghost predicate RowSafe(row: Row, n: nat) {
    && ValidBounds(row.group)
    && |row.links| <= row.group.max
    && Distinct(row.links)
    && (forall i | 0 <= i < |row.links| :: row.links[i] < n)
  }

  /** The worker's copy and the stored group agree on what only the service changes. */
  ghost predicate Aligned(s: Tick) {
    && s.mem.min == s.row.group.min && s.mem.max == s.row.group.max && s.mem.status == s.row.group.status
  }

  /** `t` differs from `s` at most in counters, in the desired count and in later history. */
  ghost predicate SameShape(s: Tick, t: Tick) {
    && t.mem.min == s.mem.min && t.mem.max == s.mem.max
    && t.mem.status == s.mem.status && t.mem.current == s.mem.current
    && s.n <= t.n
    && (Aligned(s) ==> Aligned(t))
  }

  lemma UpdateShape(env: Env, s: Tick)
    ensures var t := Update(env, s);
            && t.mem == s.mem && t.n == s.n + 1 && t.row == s.row.(group := t.row.group)
            && SameShape(s, t)
            && t.row.group == if env.update(s.n) then Stored(env, s.row.group, s.mem) else s.row.group
  {
  }

  lemma SetDesiredShape(env: Env, s: Tick, desired: int)
    ensures var t := SetDesired(env, s, desired);
            && t.mem == s.mem.(desired := desired) && t.row == s.row.(group := t.row.group)
            && SameShape(s, t)
  {
    UpdateShape(env, s.(mem := s.mem.(desired := desired)));
  }

  lemma ForceBoundsEffect(env: Env, s: Tick)
    requires s.mem.min <= s.mem.max
    ensures var t := ForceBounds(env, s);
            && t.mem == s.mem.(desired := Clamp(s.mem)) && t.row == s.row.(group := t.row.group)
            && SameShape(s, t)
  {
    SetDesiredShape(env, s, s.mem.min);
    SetDesiredShape(env, s, s.mem.max);
  }

  lemma RecordShape(env: Env, s: Tick, startedAt: Time)
    ensures var t := RecordFailure(env, s, startedAt);
            && SameShape(s, t) && t.mem.desired == s.mem.desired
            && t.row == s.row.(group := t.row.group, attempts := t.row.attempts)
    ensures var t := RecordSuccess(env, s, startedAt);
            && SameShape(s, t) && t.mem.desired == s.mem.desired
            && t.row == s.row.(group := t.row.group, attempts := t.row.attempts)
  {
  }

  /** Links are only appended, at most `needed` of them, each new. */
  lemma {:induction false} ScaleOutByEffect(env: Env, s: Tick, needed: nat)
    requires Distinct(s.row.links) && forall i | 0 <= i < |s.row.links| :: s.row.links[i] < s.n
    ensures var t := ScaleOutBy(env, s, needed);
            && SameShape(s, t) && t.mem.desired == s.mem.desired
            && t.row == s.row.(group := t.row.group, attempts := t.row.attempts, links := t.row.links)
            && s.row.links <= t.row.links && |t.row.links| <= |s.row.links| + needed
            && Distinct(t.row.links) && (forall i | 0 <= i < |t.row.links| :: t.row.links[i] < t.n)
            && ((forall i :: env.launch(i) && env.link(i)) ==> |t.row.links| == |s.row.links| + needed)
    decreases needed
  {
    if needed > 0 {
      hide RecordFailure, RecordSuccess;
      var startedAt := env.clock(s.n);
      var (v, ok) := ScaleOut(env, s);
      RecordShape(env, v, startedAt);
      if ok {
        ScaleOutByEffect(env, RecordSuccess(env, v, startedAt), needed - 1);
      } else {
        assert !env.launch(s.n + 1) || !env.link(s.n + 2);
      }
    }
  }

  /** Removing from the end leaves a prefix, at least all but `excess`. */
  lemma {:induction false} ScaleInByEffect(env: Env, s: Tick, excess: nat)
    requires Distinct(s.row.links) && excess <= |s.row.links|
    ensures var t := ScaleInBy(env, s, s.row.links, excess);
            && t.mem == s.mem && s.n <= t.n && t.row == s.row.(links := t.row.links)
            && t.row.links <= s.row.links && |t.row.links| >= |s.row.links| - excess
            && ((forall i :: env.unlink(i)) ==> |t.row.links| == |s.row.links| - excess)
    decreases excess
  {
    hide Unlinked, Update;
    if excess > 0 {
      var links := s.row.links;
      var (v, ok) := ScaleIn(env, s, links[|links| - 1]);
      if ok {
        UnlinkedLast(links);
        ScaleInByEffect(env, v, excess - 1);
      }
    }
  }

  lemma CountLinksEffect(env: Env, s: Tick)
    ensures var t := CountLinks(env, s);
            && t.mem == s.mem.(current := |s.row.links|) && t.row == s.row.(group := t.row.group) && s.n <= t.n
            && (Aligned(s) ==> Aligned(t))
  {
    UpdateShape(env, s.(mem := s.mem.(current := |s.row.links|)));
  }

  lemma FireEffect(env: Env, s: Tick, p: Policy, desired: int)
    ensures var t := Fire(env, s, p, desired);
            && SameShape(s, t)
            && t.row == s.row.(group := t.row.group, policies := t.row.policies, firings := t.row.firings)
            && |t.row.firings| == |s.row.firings| + 1
  {
    SetDesiredShape(env, s, desired);
  }

  /** At most one policy fires, and firing touches neither links nor attempts. */
  lemma {:induction false} FirePoliciesEffect(env: Env, s: Tick, policies: seq<Policy>, average: real)
    ensures var t := FirePolicies(env, s, policies, average);
            && SameShape(s, t)
            && t.row == s.row.(group := t.row.group, policies := t.row.policies, firings := t.row.firings)
            && |t.row.firings| <= |s.row.firings| + 1
    decreases policies
  {
    if policies != [] {
      hide Fire, Wish, Cooling;
      var p, v := policies[0], s.(n := s.n + 1);
      if !Cooling(p, env.clock(s.n)) && Wish(s.mem, p, average).Some? {
        FireEffect(env, v, p, Wish(s.mem, p, average).value);
      } else {
        FirePoliciesEffect(env, v, policies[1..], average);
      }
    }
  }

  lemma EvaluatePoliciesEffect(env: Env, s: Tick)
    ensures var t := EvaluatePolicies(env, s);
            && SameShape(s, t)
            && t.row == s.row.(group := t.row.group, policies := t.row.policies, firings := t.row.firings)
            && |t.row.firings| <= |s.row.firings| + 1
  {
    hide FirePolicies;
    if s.row.policies != [] && env.cpu(s.n).Some? {
      FirePoliciesEffect(env, s.(n := s.n + 1), s.row.policies, env.cpu(s.n).value);
    }
  }

  /** A tick moves the links towards the clamped desired count and never past it: upwards by appending, downwards
      by dropping from the end. */
  ghost predicate Towards(before: seq<Id>, after: seq<Id>, target: int) {
    if |before| <= target then before <= after && |after| <= target
    else after <= before && |after| >= target
  }

  lemma ApproachEffect(env: Env, s: Tick)
    requires 0 <= s.mem.desired
    requires Distinct(s.row.links) && forall i | 0 <= i < |s.row.links| :: s.row.links[i] < s.n
    ensures var t := Approach(env, s);
            && SameShape(s, t) && t.mem.desired == s.mem.desired
            && t.row == s.row.(group := t.row.group, attempts := t.row.attempts, links := t.row.links)
            && Towards(s.row.links, t.row.links, s.mem.desired)
            && Distinct(t.row.links) && (forall i | 0 <= i < |t.row.links| :: t.row.links[i] < t.n)
  {
    hide ScaleOutBy, ScaleInBy;
    var current := |s.row.links|;
    if current < s.mem.desired {
      ScaleOutByEffect(env, s.(n := s.n + 1), s.mem.desired - current);
    } else {
      ScaleInByEffect(env, s, current - s.mem.desired);
    }
  }

  lemma ActiveTickEffect(env: Env, row: Row, n: nat)
    requires RowSafe(row, n) && row.group.status.Active?
    ensures var (after, m) := TickRow(env, row, n);
            && after.Some? && n <= m
            && RowSafe(after.value, m)
            && after.value.group.min == row.group.min && after.value.group.max == row.group.max
            && after.value.group.status.Active?
            && Towards(row.links, after.value.links, Clamp(row.group))
            && |after.value.firings| <= |row.firings| + 1
  {
    hide Approach, ForceBounds, CountLinks, EvaluatePolicies;
    var s := Tick(row, row.group, n);
    CountLinksEffect(env, s);
    var s1 := CountLinks(env, s);
    ForceBoundsEffect(env, s1);
    var s2 := ForceBounds(env, s1);
    ApproachEffect(env, s2);
    EvaluatePoliciesEffect(env, Approach(env, s2));
  }

  /** A cleanup only unlinks: exactly the instances whose unlink call succeeded. */
  lemma {:induction false} ScaleInAllEffect(env: Env, s: Tick, ids: seq<Id>)
    requires Distinct(s.row.links)
    ensures var t := ScaleInAll(env, s, ids);
            && s.n <= t.n && t.row == s.row.(links := t.row.links)
            && Distinct(t.row.links) && |t.row.links| <= |s.row.links|
            && (forall x | x in t.row.links :: x in s.row.links)
            && (forall x | x in s.row.links && x !in ids :: x in t.row.links)
            && ((forall i :: env.unlink(i)) ==> forall x | x in t.row.links :: x !in ids)
    decreases ids
  {
    if ids != [] {
      var v := ScaleIn(env, s.(mem := s.mem.(desired := 0)), ids[0]).0;
      UnlinkedContents(s.row.links, ids[0]);
      ScaleInAllEffect(env, v, ids[1..]);
      assert forall x :: x in ids <==> x == ids[0] || x in ids[1..];
    }
  }

  lemma DeletingTickEffect(env: Env, row: Row, n: nat)
    requires RowSafe(row, n) && row.group.status.Deleting?
    ensures var (after, m) := TickRow(env, row, n);
            && n <= m
            && (after.None? ==> row.links == [])
            && (after.Some? ==>
                  && RowSafe(after.value, m)
                  && after.value == row.(links := after.value.links)
                  && |after.value.links| <= |row.links|
                  && forall x | x in after.value.links :: x in row.links)
  {
    hide ScaleInAll;
    if row.links != [] {
      ScaleInAllEffect(env, Tick(row, row.group, n), row.links);
      var t := ScaleInAll(env, Tick(row, row.group, n), row.links);
      forall i | 0 <= i < |t.row.links| ensures t.row.links[i] < n { assert t.row.links[i] in row.links; }
    }
  }

  // ---------------------------------------------------------------- every step of every run

  ghost predicate FleetSafe(f: Fleet) {
    forall g | g in f.rows :: g < f.n && RowSafe(f.rows[g], f.n)
  }

  lemma RowSafeLater(row: Row, n: nat, m: nat)
    requires RowSafe(row, n) && n <= m
    ensures RowSafe(row, m)
  {
  }

  lemma StepRowSafe(env: Env, row: Row, n: nat, step: Step)
    requires RowSafe(row, n)
    ensures var (after, m) := StepRow(env, row, n, step);
            n <= m && (after.Some? ==> RowSafe(after.value, m))
  {
    hide TickRow;
    match step
    case Evaluate(_) =>
      if row.group.status.Active? { ActiveTickEffect(env, row, n); } else { DeletingTickEffect(env, row, n); }
    case Vanish(_, id) =>
      UnlinkedContents(row.links, id);
      var links := Unlinked(row.links, id);
      forall i | 0 <= i < |links| ensures links[i] < n + 1 { assert links[i] in row.links; }
    case _ =>
  }

  lemma ApplySafe(env: Env, f: Fleet, step: Step)
    requires FleetSafe(f)
    ensures FleetSafe(Apply(env, f, step)) && f.n <= Apply(env, f, step).n
  {
    hide StepRow, RowSafe;
    BoundsFromSafe(f);
    var h := Apply(env, f, step);
    if step.Create? {
      NewRowSafe(step.params, f.n + 1);
    } else if step.group in f.rows {
      StepRowSafe(env, f.rows[step.group], f.n, step);
    }
    forall g | g in h.rows ensures g < h.n && RowSafe(h.rows[g], h.n) {
      if g in f.rows && h.rows[g] == f.rows[g] { RowSafeLater(f.rows[g], f.n, h.n); }
    }
  }

  lemma NewRowSafe(p: Params, n: nat)
    ensures ValidParams(p) ==> RowSafe(NewRow(p), n)
  {
  }

  lemma BoundsFromSafe(f: Fleet)
    requires FleetSafe(f)
    ensures FleetValid(f)
  {
  }

  /** The state a run reaches. */
  ghost function Run(env: Env, steps: seq<Step>): (f: Fleet)
    ensures FleetSafe(f)
  {
    if steps == [] then EMPTY
    else
      var before := Run(env, steps[..|steps| - 1]);
      BoundsFromSafe(before);
      ApplySafe(env, before, steps[|steps| - 1]);
      Apply(env, before, steps[|steps| - 1])
  }

  /** In every run, whatever the policies ask for and whichever launches, links, unlinks and updates fail: no group
      ever has more links than its maximum, which is at most 20. */
  lemma LinksNeverExceedMax(env: Env, steps: seq<Step>, g: Id)
    requires g in Run(env, steps).rows
    ensures var row := Run(env, steps).rows[g];
            |row.links| <= row.group.max <= 20 && 0 <= row.group.min <= row.group.max
  {
    assert RowSafe(Run(env, steps).rows[g], Run(env, steps).n);
  }

  function Distance(a: int, b: int): nat { if a <= b then b - a else a - b }

  /** A tick of a live group, with any calls failing, keeps every link it had if it had at most the target number,
      never removes below the minimum, keeps a leading prefix when it removes, and does not move away from the
      clamped desired count. */
  lemma TickNeverOvershoots(env: Env, row: Row, n: nat)
    requires RowSafe(row, n) && row.group.status.Active?
    ensures var (after, m) := TickRow(env, row, n);
            var target := Clamp(row.group);
            && after.Some?
            && (|row.links| <= target ==> row.links <= after.value.links && |after.value.links| <= target)
            && (|row.links| > target ==>
                  after.value.links <= row.links && |after.value.links| >= target >= row.group.min)
            && Distance(|after.value.links|, target) <= Distance(|row.links|, target)
  {
    ActiveTickEffect(env, row, n);
  }
}
