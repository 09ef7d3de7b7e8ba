/** What deployments keep over whole runs, and how far each tick gets. */
module DeploymentRuns {
  import opened Options
  import opened Links
  import opened Deployments

  // ---------------------------------------------------------------- READY means what it says

  /** Under a stored READY the two counts agree, the links never exceed them, and what they fall short by is the
      links that vanished less the links added since READY was stored. */
  ghost predicate ReadyIsExact(w: World) {
    w.row.Some? && w.row.value.status.Ready? ==>
      && w.row.value.replicas == w.row.value.current
      && |w.links| <= w.row.value.replicas
      && |w.links| + w.gone == w.row.value.replicas + w.refilled
  }

  lemma {:induction false} LaunchCounts(env: Env, w: World, needed: nat)
    ensures var t := LaunchUpTo(env, w, needed);
            t.gone == w.gone && t.refilled - w.refilled == |t.links| - |w.links| <= needed
    decreases needed
  {
    if needed > 0 { LaunchCounts(env, LaunchContainer(env, w).0, needed - 1); }
  }

  lemma StepKeepsReady(env: Env, w: World, step: Step)
    requires ReadyIsExact(w) && Distinct(w.links)
    ensures ReadyIsExact(Apply(env, w, step))
  {
    if !w.crashed && w.row.Some? && step.Reconcile? && env.ok(w.n) {
      var row, v := w.row.value, w.(n := w.n + 1);
      if row.status.Deleting? {
        TerminateAllLeavesRow(env, v, v.links);
      } else {
        SameRow(env, v, row);
        if |v.links| < row.replicas { LaunchCounts(env, v, row.replicas - |v.links|); }
      }
    } else if step.Vanish? {
      UnlinkedContents(w.links, step.id);
    }
  }

  /** In every run, with any calls failing and any replica counts asked for, a stored READY means that the replica
      count and the recorded count agree and that the links match them, unless more links vanished than were added
      since READY was stored. */
  lemma {:induction false} ReadyMeansExact(env: Env, replicas: int, steps: seq<Step>)
    ensures var w := Run(env, replicas, steps);
            w.row.Some? && w.row.value.status.Ready? ==>
              && |w.links| <= w.row.value.replicas == w.row.value.current
              && w.row.value.replicas - |w.links| == w.gone - w.refilled
    ensures ReadyIsExact(Run(env, replicas, steps))
  {
    if steps != [] {
      ReadyMeansExact(env, replicas, steps[..|steps| - 1]);
      EveryInstanceAccounted(env, replicas, steps[..|steps| - 1]);
      StepKeepsReady(env, Run(env, replicas, steps[..|steps| - 1]), steps[|steps| - 1]);
    }
  }

  /** Every call but the row updates succeeds. */
  ghost predicate CallsSucceed(env: Env) { forall i :: env.ok(i) }

  ghost predicate UpdatesSucceed(env: Env) { forall i :: env.update(i) }

  ghost predicate NothingRefilled(w: World) {
    w.row.Some? && w.row.value.status.Ready? ==> w.refilled == 0
  }

  /** Where every row update succeeds, a tick that refills a READY deployment takes READY away, so the links match
      the replica count exactly as long as none has vanished. */
  lemma {:induction false} ReadyUntilVanish(env: Env, replicas: int, steps: seq<Step>)
    requires UpdatesSucceed(env)
    ensures var w := Run(env, replicas, steps);
            w.row.Some? && w.row.value.status.Ready? ==> (|w.links| == w.row.value.replicas <==> w.gone == 0)
    ensures NothingRefilled(Run(env, replicas, steps))
  {
    ReadyMeansExact(env, replicas, steps);
    if steps != [] {
      ReadyUntilVanish(env, replicas, steps[..|steps| - 1]);
      ReadyMeansExact(env, replicas, steps[..|steps| - 1]);
      StepKeepsUnrefilled(env, Run(env, replicas, steps[..|steps| - 1]), steps[|steps| - 1]);
    }
  }

  /** Calls that all succeed. */
  const ALL_OK := Env(_ => true, _ => true)

  /** A run that ends READY with no link at all: the one instance was terminated by its owner. */
  lemma ReadyWithoutLinks()
    ensures var w := Run(ALL_OK, 1, [Reconcile, Reconcile, Vanish(1)]);
            w.row == Some(Deployment(1, 1, Ready)) && w.links == []
  {
    var steps := [Reconcile, Reconcile, Vanish(1)];
    assert steps[..2] == [Reconcile, Reconcile] && [Reconcile, Reconcile][..1] == [Reconcile];
    assert [Reconcile][..0] == [];
    var one := Run(ALL_OK, 1, [Reconcile]);
    assert LaunchUpTo(ALL_OK, Start(1).(n := 1), 1).links == [1];
    assert one.links == [1] && one.row == Some(Deployment(1, 0, Scaling));
    var two := Run(ALL_OK, 1, [Reconcile, Reconcile]);
    assert two.links == [1] && two.row == Some(Deployment(1, 1, Ready));
    UnlinkedFirst([1]);
  }

  lemma StepKeepsUnrefilled(env: Env, w: World, step: Step)
    requires UpdatesSucceed(env) && ReadyIsExact(w) && NothingRefilled(w)
    ensures NothingRefilled(Apply(env, w, step))
  {
    if !w.crashed && w.row.Some? && step.Reconcile? && env.ok(w.n) {
      var row, v := w.row.value, w.(n := w.n + 1);
      if row.status.Deleting? { TerminateAllLeavesRow(env, v, v.links); } else { SameRow(env, v, row); }
    }
  }

  // ---------------------------------------------------------------- no instance is forgotten

  ghost function Linked(w: World): set<Id> { set id | id in w.links }

  /** Every launched instance is linked, terminated by the worker, had its terminate call fail, or was terminated
      by its owner: exactly one of these. */
  ghost predicate Accounted(w: World) {
    && Distinct(w.links)
    && w.launched == Linked(w) + w.terminated + w.leaked + w.vanished
    && Linked(w) !! w.terminated !! w.leaked !! w.vanished
    && (forall id | id in w.launched :: id < w.n)
  }

  lemma LaunchAccounted(env: Env, w: World)
    requires Accounted(w)
    ensures Accounted(LaunchContainer(env, w).0)
  {
    var t := LaunchContainer(env, w).0;
    assert w.n !in w.launched;
    if env.ok(w.n) && env.ok(w.n + 1) {
      assert Linked(t) == Linked(w) + {w.n};
    } else {
      assert Linked(t) == Linked(w);
    }
  }

  lemma TerminateAccounted(env: Env, w: World, id: Id)
    requires Accounted(w) && id in w.links
    ensures Accounted(TerminateContainer(env, w, id).0)
    ensures forall x | x in w.links && x != id :: x in TerminateContainer(env, w, id).0.links
  {
    var t := TerminateContainer(env, w, id).0;
    UnlinkedContents(w.links, id);
    if env.ok(w.n) { assert Linked(t) == Linked(w) - {id}; }
    assert id in Linked(w);
  }

  lemma VanishAccounted(env: Env, w: World, id: Id)
    requires Accounted(w)
    ensures Accounted(Apply(env, w, Vanish(id)))
  {
    var t := Apply(env, w, Vanish(id));
    UnlinkedContents(w.links, id);
    if t != w { assert id in Linked(w) && Linked(t) == Linked(w) - {id}; }
  }

  lemma {:induction false} LaunchUpToAccounted(env: Env, w: World, needed: nat)
    requires Accounted(w)
    ensures Accounted(LaunchUpTo(env, w, needed))
    decreases needed
  {
    if needed > 0 {
      LaunchAccounted(env, w);
      LaunchUpToAccounted(env, LaunchContainer(env, w).0, needed - 1);
    }
  }

  lemma {:induction false} TerminateFirstAccounted(env: Env, w: World, ids: seq<Id>, excess: nat)
    requires Accounted(w) && Distinct(ids) && forall id | id in ids :: id in w.links
    ensures Accounted(TerminateFirst(env, w, ids, excess))
    decreases excess
  {
    if excess > 0 && ids != [] {
      TerminateAccounted(env, w, ids[0]);
      DistinctTail(ids);
      TerminateFirstAccounted(env, TerminateContainer(env, w, ids[0]).0, ids[1..], excess - 1);
    }
  }

  lemma {:induction false} TerminateAllAccounted(env: Env, w: World, ids: seq<Id>)
    requires Accounted(w) && Distinct(ids) && forall id | id in ids :: id in w.links
    ensures Accounted(TerminateAll(env, w, ids))
    decreases ids
  {
    if ids != [] {
      TerminateAccounted(env, w, ids[0]);
      DistinctTail(ids);
      TerminateAllAccounted(env, TerminateContainer(env, w, ids[0]).0, ids[1..]);
    }
  }

  /** Calls that touch neither the links nor any instance keep the books as they are. */
  lemma SameInstances(w: World, t: World)
    requires Accounted(w) && t.links == w.links && t.n >= w.n
    requires t.launched == w.launched && t.terminated == w.terminated
    requires t.leaked == w.leaked && t.vanished == w.vanished
    ensures Accounted(t)
  {
    assert Linked(t) == Linked(w);
  }

  lemma MovedAccounted(env: Env, w: World, row: Deployment)
    requires Accounted(w)
    ensures Accounted(Moved(env, w, row))
  {
    if |w.links| < row.replicas {
      LaunchUpToAccounted(env, w, row.replicas - |w.links|);
    } else if |w.links| > row.replicas {
      TerminateFirstAccounted(env, w, w.links, |w.links| - row.replicas);
    }
  }

  lemma StepAccounted(env: Env, w: World, step: Step)
    requires Accounted(w)
    ensures Accounted(Apply(env, w, step))
  {
    assert Distinct(w.links);
    hide Accounted, LaunchUpTo, TerminateFirst, TerminateAll;
    if w.crashed || w.row.None? {
    } else if step.Vanish? {
      VanishAccounted(env, w, step.id);
    } else if !step.Reconcile? || !env.ok(w.n) {
      SameInstances(w, Apply(env, w, step));
    } else {
      var row, v := w.row.value, w.(n := w.n + 1);
      SameInstances(w, v);
      if row.status.Deleting? {
        if v.links == [] {
          SameInstances(v, Apply(env, w, step));
        } else {
          TerminateAllAccounted(env, v, v.links);
        }
      } else {
        var t := Moved(env, v, row);
        MovedAccounted(env, v, row);
        SameInstances(t, UpdateStatus(env, t, row, |v.links|));
      }
    }
  }

  /** In every run the launched instances split into linked, terminated, leaked and vanished ones, and a removed
      row leaves no links behind. */
  lemma {:induction false} EveryInstanceAccounted(env: Env, replicas: int, steps: seq<Step>)
    ensures Accounted(Run(env, replicas, steps))
    ensures Run(env, replicas, steps).row.None? ==> Run(env, replicas, steps).links == []
  {
    if steps != [] {
      hide Accounted;
      var w := Run(env, replicas, steps[..|steps| - 1]);
      EveryInstanceAccounted(env, replicas, steps[..|steps| - 1]);
      StepAccounted(env, w, steps[|steps| - 1]);
      if w.row.Some? && env.ok(w.n) {
        TerminateAllLeavesRow(env, w.(n := w.n + 1), w.links);
        SameRow(env, w.(n := w.n + 1), w.row.value);
      }
    } else {
      assert Linked(Start(replicas)) == {};
    }
  }

  // ---------------------------------------------------------------- convergence

  lemma {:induction false} LaunchesAll(env: Env, w: World, needed: nat)
    requires CallsSucceed(env)
    ensures w.links <= LaunchUpTo(env, w, needed).links
    ensures |LaunchUpTo(env, w, needed).links| == |w.links| + needed
    decreases needed
  {
    if needed > 0 { LaunchesAll(env, LaunchContainer(env, w).0, needed - 1); }
  }

  lemma {:induction false} TerminatesFirst(env: Env, w: World, excess: nat)
    requires CallsSucceed(env) && Distinct(w.links) && excess <= |w.links| && !w.crashed
    ensures TerminateFirst(env, w, w.links, excess).links == w.links[excess..]
    ensures !TerminateFirst(env, w, w.links, excess).crashed
    decreases excess
  {
    if excess > 0 {
      UnlinkedFirst(w.links);
      DistinctTail(w.links);
      TerminatesFirst(env, TerminateContainer(env, w, w.links[0]).0, excess - 1);
      assert w.links[1..][excess - 1..] == w.links[excess..];
    }
  }

  /** A deployment the worker is to bring to `replicas` links. */
  ghost predicate Wanted(w: World, replicas: nat) {
    !w.crashed && w.row.Some? && !w.row.value.status.Deleting? && w.row.value.replicas == replicas
  }

  lemma TickConverges(env: Env, w: World, replicas: nat)
    requires CallsSucceed(env) && Distinct(w.links) && Wanted(w, replicas)
    ensures var t := Apply(env, w, Reconcile);
            && Wanted(t, replicas) && |t.links| == replicas
            && (|w.links| <= replicas ==> w.links <= t.links)
            && (|w.links| > replicas ==> t.links == w.links[|w.links| - replicas..])
  {
    var row, v := w.row.value, w.(n := w.n + 1);
    SameRow(env, v, row);
    if |w.links| < replicas {
      LaunchesAll(env, v, replicas - |w.links|);
    } else if |w.links| > replicas {
      TerminatesFirst(env, v, |w.links| - replicas);
    }
  }

  lemma SettledTick(env: Env, w: World, replicas: nat)
    requires CallsSucceed(env) && Wanted(w, replicas) && |w.links| == replicas
    ensures var u := Apply(env, w, Reconcile);
            && (UpdatesSucceed(env) ==> u.row == Some(Deployment(replicas, replicas, Ready)))
            && u.links == w.links && u.launched == w.launched && u.terminated == w.terminated
  {
  }

  /** One tick in which every launch, link, unlink and termination succeeds brings the links to the replica count,
      keeping the older links when launching and the newer ones when terminating; the next moves nothing and, if
      rows can be updated, reports READY. */
  lemma TwoTicksConverge(env: Env, w: World, replicas: nat)
    requires CallsSucceed(env) && Accounted(w) && Wanted(w, replicas)
    ensures var t := Apply(env, w, Reconcile);
            var u := Apply(env, t, Reconcile);
            && |t.links| == replicas
            && (|w.links| <= replicas ==> w.links <= t.links)
            && (|w.links| > replicas ==> t.links == w.links[|w.links| - replicas..])
            && (UpdatesSucceed(env) ==> u.row == Some(Deployment(replicas, replicas, Ready)))
            && u.links == t.links && u.launched == t.launched && u.terminated == t.terminated
  {
    hide Apply;
    TickConverges(env, w, replicas);
    SettledTick(env, Apply(env, w, Reconcile), replicas);
  }

  lemma {:induction false} LaunchAppends(env: Env, w: World, needed: nat)
    ensures w.links <= LaunchUpTo(env, w, needed).links
    decreases needed
  {
    if needed > 0 { LaunchAppends(env, LaunchContainer(env, w).0, needed - 1); }
  }

  lemma {:induction false} TerminateDropsFirst(env: Env, w: World, excess: nat) returns (k: nat)
    requires Distinct(w.links) && excess <= |w.links|
    ensures k <= excess && TerminateFirst(env, w, w.links, excess).links == w.links[k..]
    decreases excess
  {
    k := 0;
    if excess > 0 && env.ok(w.n) {
      var (t, success) := TerminateContainer(env, w, w.links[0]);
      UnlinkedFirst(w.links);
      DistinctTail(w.links);
      if success {
        k := TerminateDropsFirst(env, t, excess - 1);
        assert w.links[1..][k..] == w.links[k + 1..];
      }
      k := k + 1;
    }
  }

  lemma MovedNeverOvershoots(env: Env, w: World, row: Deployment) returns (k: nat)
    requires Distinct(w.links) && row.replicas >= 0
    ensures var links := Moved(env, w, row).links;
            && (|w.links| <= row.replicas ==> w.links <= links && |links| <= row.replicas)
            && (|w.links| > row.replicas ==> k <= |w.links| - row.replicas && links == w.links[k..])
  {
    k := 0;
    if |w.links| < row.replicas {
      LaunchAppends(env, w, row.replicas - |w.links|);
      LaunchCounts(env, w, row.replicas - |w.links|);
    } else if |w.links| > row.replicas {
      k := TerminateDropsFirst(env, w, |w.links| - row.replicas);
    }
  }

  /** Whatever fails, a tick never moves past the replica count: at or below it links are only appended, up to the
      count; above it the oldest ones go, and at least the count stays. */
  lemma TickNeverOvershoots(env: Env, w: World, replicas: nat) returns (k: nat)
    requires Accounted(w) && Wanted(w, replicas)
    ensures var t := Apply(env, w, Reconcile);
            && Wanted(t, replicas)
            && (|w.links| <= replicas ==> w.links <= t.links && |t.links| <= replicas)
            && (|w.links| > replicas ==> k <= |w.links| - replicas && t.links == w.links[k..])
  {
    DistinctLinks(w);
    k := 0;
    if env.ok(w.n) {
      hide Accounted, Moved;
      SameRow(env, w.(n := w.n + 1), w.row.value);
      k := MovedNeverOvershoots(env, w.(n := w.n + 1), w.row.value);
    }
  }

  // ---------------------------------------------------------------- what each step stores

  /** What the service calls write, whatever the status was: nothing unless both of their calls succeed, and never a
      link; and what an owner's termination of an instance takes away. */
  lemma ServiceCallsStore(env: Env, w: World, step: Step)
    requires !w.crashed && w.row.Some? && !step.Reconcile?
    ensures var t := Apply(env, w, step);
            var goesThrough := env.ok(w.n) && env.update(w.n + 1);
            && t.launched == w.launched && t.terminated == w.terminated && t.leaked == w.leaked && !t.crashed
            && match step
               case Scale(replicas) =>
                 && t.links == w.links
                 && t.row == if goesThrough then Some(Deployment(replicas, w.row.value.current, Scaling)) else w.row
               case Delete =>
                 && t.links == w.links
                 && t.row == if goesThrough then Some(w.row.value.(status := Deleting)) else w.row
               case Vanish(id) =>
                 && t.row == w.row && (forall x :: x in t.links <==> x in w.links && x != id)
                 && t.vanished == if id in w.links then w.vanished + {id} else w.vanished
               case _ => true
  {
    if step.Vanish? { UnlinkedMembers(w.links, step.id); }
  }

  /** A deployment created with a count, or scaled to one, has that many links after the next tick whose calls
      succeed. */
  lemma CountIsReached(env: Env, w: World, replicas: nat)
    requires CallsSucceed(env) && Accounted(w) && !w.crashed && w.row.Some? && env.update(w.n + 1)
    ensures |Apply(env, Apply(env, w, Scale(replicas)), Reconcile).links| == replicas
  {
    var t := Apply(env, w, Scale(replicas));
    DistinctLinks(w);
    hide Accounted;
    assert Wanted(t, replicas);
    TickConverges(env, t, replicas);
  }

  lemma NewDeploymentIsFilled(env: Env, replicas: nat)
    requires CallsSucceed(env)
    ensures Run(env, replicas, []).row == Some(Deployment(replicas, 0, Scaling))
    ensures |Run(env, replicas, [Reconcile]).links| == replicas
  {
    assert [Reconcile][..0] == [];
    TickConverges(env, Start(replicas), replicas);
  }

  /** What a tick reports: the number of links it began with, READY exactly when that is the replica count. Without the
      list call it does nothing. */
  lemma TickReports(env: Env, w: World)
    requires UpdatesSucceed(env) && !w.crashed && w.row.Some? && !w.row.value.status.Deleting?
    requires w.row.value.replicas >= 0
    ensures var t, row := Apply(env, w, Reconcile), w.row.value;
            if env.ok(w.n)
            then
              var status := if |w.links| == row.replicas then Ready else Scaling;
              t.row == Some(Deployment(row.replicas, |w.links|, status))
            else t == w.(n := w.n + 1)
  {
    hide Moved;
    SameRow(env, w.(n := w.n + 1), w.row.value);
  }

  // ---------------------------------------------------------------- how far a tick gets when calls fail

  /** The first calls of successful launches: two calls each. */
  function LaunchCalls(n: nat, k: nat): seq<Id> { seq(k, i requires 0 <= i < k => n + 2 * i) }

  ghost predicate PairsSucceed(env: Env, n: nat, k: nat) { forall call | n <= call < n + 2 * k :: env.ok(call) }

  /** A scale-up stops at the first launch that cannot be made or linked; exactly the earlier ones are linked. An
      instance that was launched but not linked is terminated again. */
  lemma {:induction false} LaunchUpToExact(env: Env, w: World, needed: nat, k: nat)
    requires k <= needed && PairsSucceed(env, w.n, k)
    requires k < needed ==> !env.ok(w.n + 2 * k) || !env.ok(w.n + 2 * k + 1)
    ensures var t, stray := LaunchUpTo(env, w, needed), k < needed && env.ok(w.n + 2 * k);
            var id := w.n + 2 * k;
            && t.links == w.links + LaunchCalls(w.n, k)
            && t.terminated == (if stray && env.ok(id + 2) then w.terminated + {id} else w.terminated)
            && t.leaked == (if stray && !env.ok(id + 2) then w.leaked + {id} else w.leaked)
    decreases needed
  {
    hide LaunchContainer;
    if k > 0 {
      assert env.ok(w.n) && env.ok(w.n + 1);
      LaunchGoes(env, w);
      LaunchUpToExact(env, LaunchContainer(env, w).0, needed - 1, k - 1);
      assert LaunchCalls(w.n, k) == [w.n] + LaunchCalls(w.n + 2, k - 1);
    } else {
      assert LaunchCalls(w.n, 0) == [];
      if needed > 0 { LaunchStops(env, w); }
    }
  }

  lemma LaunchGoes(env: Env, w: World)
    requires env.ok(w.n) && env.ok(w.n + 1)
    ensures var (t, success) := LaunchContainer(env, w);
            && success && t.n == w.n + 2 && t.links == w.links + [w.n]
            && t.terminated == w.terminated && t.leaked == w.leaked
  {
  }

  lemma LaunchStops(env: Env, w: World)
    requires !env.ok(w.n) || !env.ok(w.n + 1)
    ensures var (t, success) := LaunchContainer(env, w);
            && !success && t.links == w.links
            && t.terminated == (if env.ok(w.n) && env.ok(w.n + 2) then w.terminated + {w.n} else w.terminated)
            && t.leaked == (if env.ok(w.n) && !env.ok(w.n + 2) then w.leaked + {w.n} else w.leaked)
  {
  }

  /** A scale-down stops at the first unlink or terminate call that fails: the earlier instances are gone, and the one
      whose terminate call failed is unlinked all the same. */
  lemma {:induction false} TerminateFirstExact(env: Env, w: World, excess: nat, k: nat)
    requires Distinct(w.links) && k <= excess <= |w.links| && PairsSucceed(env, w.n, k)
    requires k < excess ==> !env.ok(w.n + 2 * k) || !env.ok(w.n + 2 * k + 1)
    ensures var t, stray := TerminateFirst(env, w, w.links, excess), k < excess && env.ok(w.n + 2 * k);
            && t.links == w.links[k + (if stray then 1 else 0)..]
            && t.leaked == (if stray then w.leaked + {w.links[k]} else w.leaked)
    decreases excess
  {
    if excess > 0 {
      var t := FirstTermination(env, w, excess);
      hide TerminateFirst, Distinct;
      if k > 0 {
        assert env.ok(w.n) && env.ok(w.n + 1);
        assert PairsSucceed(env, t.n, k - 1);
        TerminateFirstExact(env, t, excess - 1, k - 1);
        var i := if k < excess && env.ok(w.n + 2 * k) then k + 1 else k;
        assert w.links[1..][i - 1..] == w.links[i..];
      }
    }
  }

  /** The state after the first instance of a scale-down was dealt with. */
  lemma FirstTermination(env: Env, w: World, excess: nat) returns (t: World)
    requires w.links != [] && Distinct(w.links) && excess > 0
    ensures t.links == (if env.ok(w.n) then w.links[1..] else w.links) && Distinct(t.links)
    ensures t.leaked == (if env.ok(w.n) && !env.ok(w.n + 1) then w.leaked + {w.links[0]} else w.leaked)
    ensures env.ok(w.n) ==> t.n == w.n + 2
    ensures TerminateFirst(env, w, w.links, excess)
         == if env.ok(w.n) && env.ok(w.n + 1) then TerminateFirst(env, t, t.links, excess - 1) else t
  {
    t := TerminateContainer(env, w, w.links[0]).0;
    DistinctTail(w.links);
    TerminateHead(env, w);
    hide TerminateContainer, Distinct;
  }

  lemma TerminateHead(env: Env, w: World)
    requires w.links != [] && Distinct(w.links)
    ensures var (t, success) := TerminateContainer(env, w, w.links[0]);
            && (success <==> env.ok(w.n) && env.ok(w.n + 1))
            && t.links == (if env.ok(w.n) then w.links[1..] else w.links)
            && t.leaked == (if env.ok(w.n) && !env.ok(w.n + 1) then w.leaked + {w.links[0]} else w.leaked)
            && (env.ok(w.n) ==> t.n == w.n + 2)
  {
    UnlinkedFirst(w.links);
  }

  /** Number of the unlink call of the i-th link in a cleanup: a terminate call follows each unlink that succeeds. */
  function UnlinkCall(env: Env, n: nat, i: nat): nat
    decreases i
  {
    if i == 0 then n else UnlinkCall(env, if env.ok(n) then n + 2 else n + 1, i - 1)
  }

  /** A cleanup goes on after errors: each link stays exactly when its own unlink call fails. */
  lemma {:induction false} CleanupExact(env: Env, w: World, ids: seq<Id>, i: nat)
    requires Distinct(ids) && i < |ids| && ids[i] in w.links
    ensures ids[i] in TerminateAll(env, w, ids).links <==> !env.ok(UnlinkCall(env, w.n, i))
    decreases ids
  {
    var t := TerminateContainer(env, w, ids[0]).0;
    UnlinkedMembers(w.links, ids[0]);
    DistinctTail(ids);
    if i > 0 {
      assert ids[i] == ids[1..][i - 1] && ids[i] != ids[0];
      CleanupExact(env, t, ids[1..], i - 1);
    } else if env.ok(w.n) {
      TerminateAllShrinks(env, t, ids[1..]);
    } else {
      OthersStayLinked(env, t, ids[1..], ids[0]);
    }
  }

  // ---------------------------------------------------------------- negative replica counts

  /** The calls that unlink and terminate each of `ids` in turn all succeed. */
  ghost predicate AllTerminate(env: Env, n: nat, count: nat) {
    forall i | n <= i < n + 2 * count :: env.ok(i)
  }

  lemma {:induction false} RunsOffTheEnd(env: Env, w: World, ids: seq<Id>, excess: nat)
    requires !w.crashed && excess > |ids|
    ensures TerminateFirst(env, w, ids, excess).crashed <==> AllTerminate(env, w.n, |ids|)
    decreases excess
  {
    if ids != [] {
      var (t, success) := TerminateContainer(env, w, ids[0]);
      if success {
        assert t.n == w.n + 2;
        RunsOffTheEnd(env, t, ids[1..], excess - 1);
      } else {
        assert !env.ok(w.n) || !env.ok(w.n + 1);
      }
    }
  }

  /** A tick panics exactly when the replica count is negative, the deployment is not being deleted, and the
      list call and every unlink and terminate call go through. The service accepts negative counts. */
  lemma PanicsIff(env: Env, w: World)
    requires !w.crashed && w.row.Some?
    ensures Apply(env, w, Reconcile).crashed <==>
              && w.row.value.replicas < 0 && !w.row.value.status.Deleting?
              && env.ok(w.n) && AllTerminate(env, w.n + 1, |w.links|)
  {
    var row, v := w.row.value, w.(n := w.n + 1);
    if env.ok(w.n) {
      TerminateAllLeavesRow(env, v, v.links);
      SameRow(env, v, row);
      if row.replicas < 0 { RunsOffTheEnd(env, v, v.links, |v.links| - row.replicas); }
    }
  }

  /** A deployment created with a negative count panics the worker at its first tick, unless the list call fails. */
  lemma NegativeCreationPanics(env: Env, replicas: int)
    requires replicas < 0
    ensures Run(env, replicas, [Reconcile]).crashed <==> env.ok(0)
  {
    assert Run(env, replicas, [Reconcile][..0]) == Start(replicas);
    PanicsIff(env, Start(replicas));
  }

  ghost predicate CountsNatural(w: World) { !w.crashed && (w.row.Some? ==> w.row.value.replicas >= 0) }

  /** No run panics in which every replica count asked for is at least zero. */
  lemma {:induction false} NaturalCountsNeverPanic(env: Env, replicas: int, steps: seq<Step>)
    requires replicas >= 0 && forall step | step in steps && step.Scale? :: step.replicas >= 0
    ensures CountsNatural(Run(env, replicas, steps))
  {
    if steps != [] {
      var w, step := Run(env, replicas, steps[..|steps| - 1]), steps[|steps| - 1];
      NaturalCountsNeverPanic(env, replicas, steps[..|steps| - 1]);
      if w.row.Some? {
        PanicsIff(env, w);
        TerminateAllLeavesRow(env, w.(n := w.n + 1), w.links);
        SameRow(env, w.(n := w.n + 1), w.row.value);
      }
    }
  }

  // ---------------------------------------------------------------- deletion

  ghost predicate BeingDeleted(w: World) { !w.crashed && (w.row.Some? ==> w.row.value.status.Deleting?) }

  /** A scale request that reaches an existing row. */
  ghost predicate Revives(env: Env, w: World, step: Step) {
    w.row.Some? && step.Scale? && env.ok(w.n) && env.update(w.n + 1)
  }

  /** Such a request undoes a deletion. */
  lemma ScalingUndoesDeletion()
    ensures Run(ALL_OK, 1, [Delete, Scale(2)]).row == Some(Deployment(2, 0, Scaling))
  {
    var steps := [Delete, Scale(2)];
    assert steps[..1] == [Delete] && [Delete][..0] == [];
    assert Run(ALL_OK, 1, [Delete]).row == Some(Deployment(1, 0, Deleting));
  }

  /** No instance was added on the way from `w` to `t`. */
  ghost predicate OnlyShrinks(w: World, t: World) {
    t.launched == w.launched && (forall id | id in t.links :: id in w.links) && |t.links| <= |w.links|
  }

  lemma {:induction false} TerminateAllShrinks(env: Env, w: World, ids: seq<Id>)
    ensures OnlyShrinks(w, TerminateAll(env, w, ids))
    decreases ids
  {
    if ids != [] {
      UnlinkedMembers(w.links, ids[0]);
      TerminateAllShrinks(env, TerminateContainer(env, w, ids[0]).0, ids[1..]);
    }
  }

  /** A step takes a deployment out of deletion exactly when it is a scale request that goes through; whatever the
      step, nothing is launched for it. */
  lemma DeletionUndoneIff(env: Env, w: World, step: Step)
    requires BeingDeleted(w)
    ensures BeingDeleted(Apply(env, w, step)) <==> !Revives(env, w, step)
    ensures OnlyShrinks(w, Apply(env, w, step))
  {
    if w.row.Some? {
      TerminateAllLeavesRow(env, w.(n := w.n + 1), w.links);
      TerminateAllShrinks(env, w.(n := w.n + 1), w.links);
      if step.Vanish? { UnlinkedMembers(w.links, step.id); }
    }
  }

  lemma RunPrefix(env: Env, replicas: int, steps: seq<Step>, rest: seq<Step>, k: nat)
    requires k < |rest|
    ensures Run(env, replicas, steps + rest[..k + 1]) == Apply(env, Run(env, replicas, steps + rest[..k]), rest[k])
  {
    var all := steps + rest[..k + 1];
    assert all[..|all| - 1] == steps + rest[..k] && all[|all| - 1] == rest[k];
  }

  /** A deletion holds through a continuation of a run exactly when no scale request goes through in it. */
  lemma {:induction false} DeletionHoldsIff(env: Env, replicas: int, steps: seq<Step>, rest: seq<Step>)
    requires BeingDeleted(Run(env, replicas, steps))
    ensures (forall k | 0 <= k <= |rest| :: BeingDeleted(Run(env, replicas, steps + rest[..k]))) <==>
            (forall k | 0 <= k < |rest| :: !Revives(env, Run(env, replicas, steps + rest[..k]), rest[k]))
  {
    hide BeingDeleted, Revives, Apply;
    if forall k | 0 <= k <= |rest| :: BeingDeleted(Run(env, replicas, steps + rest[..k])) {
      forall k | 0 <= k < |rest| ensures !Revives(env, Run(env, replicas, steps + rest[..k]), rest[k]) {
        RunPrefix(env, replicas, steps, rest, k);
        assert BeingDeleted(Run(env, replicas, steps + rest[..k + 1]));
        DeletionUndoneIff(env, Run(env, replicas, steps + rest[..k]), rest[k]);
      }
    }
    if forall k | 0 <= k < |rest| :: !Revives(env, Run(env, replicas, steps + rest[..k]), rest[k]) {
      forall k | 0 <= k <= |rest| ensures BeingDeleted(Run(env, replicas, steps + rest[..k])) {
        StaysDeleted(env, replicas, steps, rest, k);
      }
    }
  }

  /** While no scale request goes through, the row stays DELETING until it is gone, nothing is launched and the
      links only get fewer. */
  lemma {:induction false} StaysDeleted(env: Env, replicas: int, steps: seq<Step>, rest: seq<Step>, k: nat)
    requires BeingDeleted(Run(env, replicas, steps)) && k <= |rest|
    requires forall j | 0 <= j < k :: !Revives(env, Run(env, replicas, steps + rest[..j]), rest[j])
    ensures BeingDeleted(Run(env, replicas, steps + rest[..k]))
    ensures OnlyShrinks(Run(env, replicas, steps), Run(env, replicas, steps + rest[..k]))
  {
    hide BeingDeleted, Revives, Apply;
    if k == 0 {
      assert steps + rest[..0] == steps;
    } else {
      StaysDeleted(env, replicas, steps, rest, k - 1);
      RunPrefix(env, replicas, steps, rest, k - 1);
      DeletionUndoneIff(env, Run(env, replicas, steps + rest[..k - 1]), rest[k - 1]);
    }
  }

  /** With no scale request at all, every other step and every failing call included, a deletion is final. */
  lemma DeletionSticks(env: Env, replicas: int, steps: seq<Step>, rest: seq<Step>)
    requires BeingDeleted(Run(env, replicas, steps)) && forall step | step in rest :: !step.Scale?
    ensures BeingDeleted(Run(env, replicas, steps + rest))
    ensures OnlyShrinks(Run(env, replicas, steps), Run(env, replicas, steps + rest))
  {
    hide BeingDeleted, OnlyShrinks, Run, Apply;
    StaysDeleted(env, replicas, steps, rest, |rest|);
    assert rest[..|rest|] == rest;
  }

  /** Every unlink call of a cleanup of `count` links succeeds: each is followed by a terminate call. */
  ghost predicate AllUnlink(env: Env, n: nat, count: nat) { forall k | 0 <= k < count :: env.ok(n + 2 * k) }

  lemma {:induction false} OthersStayLinked(env: Env, w: World, ids: seq<Id>, id: Id)
    requires id in w.links && id !in ids
    ensures id in TerminateAll(env, w, ids).links
    decreases ids
  {
    if ids != [] {
      UnlinkedMembers(w.links, ids[0]);
      OthersStayLinked(env, TerminateContainer(env, w, ids[0]).0, ids[1..], id);
    }
  }

  /** A cleanup leaves no link exactly when every unlink succeeds, whatever the terminate calls do. */
  lemma {:induction false} CleanupEmptiesIff(env: Env, w: World)
    requires Distinct(w.links)
    ensures TerminateAll(env, w, w.links).links == [] <==> AllUnlink(env, w.n, |w.links|)
    decreases |w.links|
  {
    if w.links != [] {
      var t := TerminateContainer(env, w, w.links[0]).0;
      UnlinkedFirst(w.links);
      DistinctTail(w.links);
      assert env.ok(w.n + 2 * 0) == env.ok(w.n);
      if env.ok(w.n) {
        CleanupEmptiesIff(env, t);
        AllUnlinkStep(env, w.n, |w.links|);
      } else {
        OthersStayLinked(env, t, w.links[1..], w.links[0]);
      }
    }
  }

  lemma AllUnlinkStep(env: Env, n: nat, count: nat)
    requires count > 0 && env.ok(n)
    ensures AllUnlink(env, n, count) <==> AllUnlink(env, n + 2, count - 1)
  {
    if AllUnlink(env, n + 2, count - 1) {
      forall k | 0 <= k < count ensures env.ok(n + 2 * k) {
        if k > 0 { assert n + 2 * k == n + 2 + 2 * (k - 1); }
      }
    }
    if AllUnlink(env, n, count) {
      forall k | 0 <= k < count - 1 ensures env.ok(n + 2 + 2 * k) { assert n + 2 + 2 * k == n + 2 * (k + 1); }
    }
  }

  /** A tick of a deployment under deletion whose list call succeeds leaves no link exactly when every unlink
      succeeds; the next tick then removes the row if its own two calls succeed. What the terminate calls do does not
      matter. */
  lemma TwoTicksDelete(env: Env, w: World)
    requires Accounted(w) && !w.crashed && w.row.Some? && w.row.value.status.Deleting? && env.ok(w.n)
    ensures var t := Apply(env, w, Reconcile);
            && (t.links == [] <==> AllUnlink(env, w.n + 1, |w.links|))
            && (t.links == [] && env.ok(t.n) && env.ok(t.n + 1) ==> Apply(env, t, Reconcile).row.None?)
  {
    hide Accounted;
    var v := w.(n := w.n + 1);
    DistinctLinks(w);
    CleanupEmptiesIff(env, v);
    TerminateAllLeavesRow(env, v, v.links);
  }

  /** A row goes exactly when it is being deleted, has no links left, and the tick's list and delete calls succeed. */
  lemma RowGoesIff(env: Env, w: World, step: Step)
    requires !w.crashed && w.row.Some?
    ensures Apply(env, w, step).row.None? <==>
              step.Reconcile? && w.row.value.status.Deleting? && w.links == [] && env.ok(w.n) && env.ok(w.n + 1)
  {
    TerminateAllLeavesRow(env, w.(n := w.n + 1), w.links);
    SameRow(env, w.(n := w.n + 1), w.row.value);
    hide TerminateAll, Moved;
  }

  lemma DistinctLinks(w: World)
    requires Accounted(w)
    ensures Distinct(w.links)
  {
  }
}
