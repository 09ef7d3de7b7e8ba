/** The deployment reconciler: containers launched, linked, unlinked and terminated until the links match the
    replica count, with any call failing. */
module Deployments {
  import opened Options
  import opened Links

  datatype Status = Scaling | Ready | Deleting

  datatype Deployment = Deployment(replicas: int, current: nat, status: Status)

  /** Outcome of each call by its position: of row updates, and of every other call. */
  datatype Env = Env(ok: nat -> bool, update: nat -> bool)

  /** One deployment row (gone once deleted), its container links, the number of external calls made, and what
      became of every instance launched for it. `crashed` is an index-out-of-range panic of the worker. `gone` and
      `refilled` count the links that vanished and the links that were added since READY was last stored. */
  datatype World = World(
    row: Option<Deployment>, links: seq<Id>, n: nat,
    launched: set<Id>, terminated: set<Id>, leaked: set<Id>, vanished: set<Id>,
    gone: nat, refilled: nat, crashed: bool)

  /** Service calls, a worker tick, and a linked instance terminated by its owner, which takes its link along. */
  datatype Step = Scale(replicas: int) | Delete | Reconcile | Vanish(id: Id)

  // ---------------------------------------------------------------- specification

  /** Ask for termination; a refusal leaves the instance running with nobody responsible for it. */
  function TerminateInstance(env: Env, w: World, id: Id): World {
    if env.ok(w.n) then w.(n := w.n + 1, terminated := w.terminated + {id})
    else w.(n := w.n + 1, leaked := w.leaked + {id})
  }

  /** Launch and link; an instance that cannot be linked is terminated again. */
  function LaunchContainer(env: Env, w: World): (World, bool) {
    var id := w.n;
    if !env.ok(w.n) then (w.(n := w.n + 1), false)
    else if env.ok(w.n + 1) then
      (w.(n := w.n + 2, launched := w.launched + {id}, links := w.links + [id], refilled := w.refilled + 1), true)
    else (TerminateInstance(env, w.(n := w.n + 2, launched := w.launched + {id}), id), false)
  }

  function TerminateContainer(env: Env, w: World, id: Id): (World, bool) {
    if !env.ok(w.n) then (w.(n := w.n + 1), false)
    else (TerminateInstance(env, w.(n := w.n + 1, links := Unlinked(w.links, id)), id), env.ok(w.n + 1))
  }

  function LaunchUpTo(env: Env, w: World, needed: nat): World
    decreases needed
  {
    if needed == 0 then w
    else
      var (t, success) := LaunchContainer(env, w);
      if success then LaunchUpTo(env, t, needed - 1) else t
  }

  /** Terminate the first `excess` of `ids`, stopping at the first error and running off the end if asked for more. */
  function TerminateFirst(env: Env, w: World, ids: seq<Id>, excess: nat): World
    decreases excess
  {
    if excess == 0 then w
    else if ids == [] then w.(crashed := true)
    else
      var (t, success) := TerminateContainer(env, w, ids[0]);
      if success then TerminateFirst(env, t, ids[1..], excess - 1) else t
  }

  function TerminateAll(env: Env, w: World, ids: seq<Id>): World
    decreases ids
  {
    if ids == [] then w else TerminateAll(env, TerminateContainer(env, w, ids[0]).0, ids[1..])
  }

  /** The status is judged by the links as they were when the tick began. */
  function UpdateStatus(env: Env, w: World, row: Deployment, seen: nat): World {
    var status := if seen == row.replicas then Ready else Scaling;
    if row.status == status && row.current == seen then w
    else if !env.update(w.n) then w.(n := w.n + 1)
    else
      var t := w.(n := w.n + 1, row := Some(row.(status := status, current := seen)));
      if status.Ready? then t.(gone := 0, refilled := 0) else t
  }

  function Moved(env: Env, w: World, row: Deployment): World {
    if |w.links| < row.replicas then LaunchUpTo(env, w, row.replicas - |w.links|)
    else if |w.links| > row.replicas then TerminateFirst(env, w, w.links, |w.links| - row.replicas)
    else w
  }

  function ReconcileRow(env: Env, w: World, row: Deployment): World {
    if !env.ok(w.n) then w.(n := w.n + 1)
    else
      var v := w.(n := w.n + 1);
      if row.status.Deleting? then
        if v.links == [] then v.(n := v.n + 1, row := if env.ok(v.n) then None else v.row)
        else TerminateAll(env, v, v.links)
      else
        var t := Moved(env, v, row);
        if t.crashed then t else UpdateStatus(env, t, row, |v.links|)
  }

  /** The service's own writes: read the row, change it, write it back. */
  function Rewrite(env: Env, w: World, row: Deployment): World {
    w.(n := w.n + 2, row := if env.ok(w.n) && env.update(w.n + 1) then Some(row) else w.row)
  }

  function Apply(env: Env, w: World, step: Step): World {
    if w.crashed || w.row.None? then w
    else
      var row := w.row.value;
      match step
      case Scale(replicas) => Rewrite(env, w, row.(replicas := replicas, status := Scaling))
      case Delete => Rewrite(env, w, row.(status := Deleting))
      case Reconcile => ReconcileRow(env, w, row)
      case Vanish(id) =>
        if id !in w.links then w
        else w.(links := Unlinked(w.links, id), vanished := w.vanished + {id}, gone := w.gone + 1)
  }

  /** A freshly created deployment. */
  function Start(replicas: int): World {
    World(Some(Deployment(replicas, 0, Scaling)), [], 0, {}, {}, {}, {}, 0, 0, false)
  }

  function Run(env: Env, replicas: int, steps: seq<Step>): World {
    if steps == [] then Start(replicas)
    else Apply(env, Run(env, replicas, steps[..|steps| - 1]), steps[|steps| - 1])
  }

  // ---------------------------------------------------------------- the worker, loop by loop

  class Worker {
    const env: Env
    var row: Option<Deployment>
    var links: seq<Id>
    var n: nat
    ghost var launched: set<Id>
    ghost var terminated: set<Id>
    ghost var leaked: set<Id>
    ghost var vanished: set<Id>
    ghost var gone: nat
    ghost var refilled: nat
    var crashed: bool

    ghost function View(): World
      reads this
    {
      World(row, links, n, launched, terminated, leaked, vanished, gone, refilled, crashed)
    }

    constructor (env: Env, replicas: int)
      ensures this.env == env && View() == Start(replicas)
    {
      this.env := env;
      row, links, n, crashed := Some(Deployment(replicas, 0, Scaling)), [], 0, false;
      launched, terminated, leaked, vanished, gone, refilled := {}, {}, {}, {}, 0, 0;
    }

    /** Service call: a new replica count, and SCALING whatever the status was. */
    method ScaleDeployment(replicas: int) returns (success: bool)
      requires !crashed
      modifies this
      ensures View() == Apply(env, old(View()), Scale(replicas))
      ensures success <==> old(row).Some? && env.ok(old(n)) && env.update(old(n) + 1)
      ensures row == if success then Some(Deployment(replicas, old(row).value.current, Scaling)) else old(row)
      ensures links == old(links)
    {
      if row.None? { return false; }
      var call := n;
      n := n + 2;
      success := env.ok(call) && env.update(call + 1);
      if success { row := Some(row.value.(replicas := replicas, status := Scaling)); }
    }

    /** Service call: mark for deletion. */
    method DeleteDeployment() returns (success: bool)
      requires !crashed
      modifies this
      ensures View() == Apply(env, old(View()), Delete)
      ensures success <==> old(row).Some? && env.ok(old(n)) && env.update(old(n) + 1)
      ensures row == if success then Some(old(row).value.(status := Deleting)) else old(row)
      ensures links == old(links)
    {
      if row.None? { return false; }
      var call := n;
      n := n + 2;
      success := env.ok(call) && env.update(call + 1);
      if success { row := Some(row.value.(status := Deleting)); }
    }

    method Terminate(id: Id) returns (success: bool)
      modifies this
      ensures View() == TerminateInstance(env, old(View()), id) && success == env.ok(old(n))
    {
      success := env.ok(n);
      n := n + 1;
      if success { terminated := terminated + {id}; } else { leaked := leaked + {id}; }
    }

    method Launch() returns (success: bool)
      modifies this
      ensures (View(), success) == LaunchContainer(env, old(View()))
    {
      var id := n;
      n := n + 1;
      if !env.ok(id) { return false; }
      launched := launched + {id};
      n := n + 1;
      if !env.ok(id + 1) {
        var _ := Terminate(id);
        return false;
      }
      links, refilled := links + [id], refilled + 1;
      return true;
    }

    method TerminateLinked(id: Id) returns (success: bool)
      modifies this
      ensures (View(), success) == TerminateContainer(env, old(View()), id)
    {
      var call := n;
      n := n + 1;
      if !env.ok(call) { return false; }
      links := RemoveLink(links, id);
      success := Terminate(id);
    }

    method ReconcileDeployment(dep: Deployment)
      requires row == Some(dep) && !crashed
      modifies this
      ensures View() == ReconcileRow(env, old(View()), dep)
    {
      hide LaunchUpTo, TerminateFirst, TerminateAll, UpdateStatus;
      var call := n;
      n := n + 1;
      if !env.ok(call) { return; }
      var ids := links;
      if dep.status.Deleting? {
        if ids == [] {
          row := if env.ok(n) then None else row;
          n := n + 1;
          return;
        }
        TerminateEach(ids);
        return;
      }
      ghost var w := View();
      if |ids| < dep.replicas {
        ScaleUp(dep.replicas - |ids|);
      } else if |ids| > dep.replicas {
        ScaleDown(ids, |ids| - dep.replicas);
        if crashed { return; }
      }
      SameRow(env, w, dep);
      NoteStatus(dep, |ids|);
    }

    method NoteStatus(dep: Deployment, seen: nat)
      requires row == Some(dep)
      modifies this
      ensures View() == UpdateStatus(env, old(View()), dep, seen)
    {
      var status := if seen == dep.replicas then Ready else Scaling;
      if dep.status != status || dep.current != seen {
        if env.update(n) {
          row := Some(dep.(status := status, current := seen));
          if status.Ready? { gone, refilled := 0, 0; }
        }
        n := n + 1;
      }
    }

    method TerminateEach(ids: seq<Id>)
      modifies this
      ensures View() == TerminateAll(env, old(View()), ids)
    {
      ghost var w := View();
      for i := 0 to |ids|
        invariant TerminateAll(env, View(), ids[i..]) == TerminateAll(env, w, ids)
      {
        assert ids[i..][1..] == ids[i + 1..];
        var _ := TerminateLinked(ids[i]);
      }
    }

    method ScaleUp(needed: nat)
      modifies this
      ensures View() == LaunchUpTo(env, old(View()), needed)
    {
      ghost var w := View();
      for i := 0 to needed
        invariant LaunchUpTo(env, View(), needed - i) == LaunchUpTo(env, w, needed)
      {
        var success := Launch();
        if !success { return; }
      }
    }

    method ScaleDown(ids: seq<Id>, excess: nat)
      modifies this
      ensures View() == TerminateFirst(env, old(View()), ids, excess)
    {
      ghost var w := View();
      for i := 0 to excess
        invariant i <= |ids|
        invariant TerminateFirst(env, View(), ids[i..], excess - i) == TerminateFirst(env, w, ids, excess)
      {
        if i >= |ids| {
          crashed := true;
          return;
        }
        assert ids[i..][1..] == ids[i + 1..];
        var success := TerminateLinked(ids[i]);
        if !success { return; }
      }
    }
  }

  // ---------------------------------------------------------------- what a tick leaves alone

  lemma {:induction false} LaunchLeavesRow(env: Env, w: World, needed: nat)
    ensures LaunchUpTo(env, w, needed).row == w.row && LaunchUpTo(env, w, needed).crashed == w.crashed
    decreases needed
  {
    if needed > 0 { LaunchLeavesRow(env, LaunchContainer(env, w).0, needed - 1); }
  }

  lemma {:induction false} TerminateLeavesRow(env: Env, w: World, ids: seq<Id>, excess: nat)
    ensures TerminateFirst(env, w, ids, excess).row == w.row
    ensures !w.crashed && excess <= |ids| ==> !TerminateFirst(env, w, ids, excess).crashed
    decreases excess
  {
    if excess > 0 && ids != [] { TerminateLeavesRow(env, TerminateContainer(env, w, ids[0]).0, ids[1..], excess - 1); }
  }

  lemma {:induction false} TerminateAllLeavesRow(env: Env, w: World, ids: seq<Id>)
    ensures TerminateAll(env, w, ids).row == w.row && TerminateAll(env, w, ids).crashed == w.crashed
    decreases ids
  {
    if ids != [] { TerminateAllLeavesRow(env, TerminateContainer(env, w, ids[0]).0, ids[1..]); }
  }

  lemma SameRow(env: Env, w: World, row: Deployment)
    ensures Moved(env, w, row).row == w.row
    ensures !w.crashed && row.replicas >= 0 ==> !Moved(env, w, row).crashed
  {
    if |w.links| < row.replicas {
      LaunchLeavesRow(env, w, row.replicas - |w.links|);
    } else if |w.links| > row.replicas {
      TerminateLeavesRow(env, w, w.links, |w.links| - row.replicas);
    }
  }
}
