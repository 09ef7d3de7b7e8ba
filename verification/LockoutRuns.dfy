/** Whole runs of overlapping logins, and the rate limit they obey. */
module LockoutRuns {
  import opened Options
  import opened Sets
  import opened Lockout

  /** Critical sections in the order the mutex grants them; `which` names a login under way. */
  datatype Step =
    | Enter(email: string, at: Time)
    | Fail(email: string, at: Time, which: nat)
    | Succeed(email: string, at: Time, which: nat)

  /** A login past the gate: still under way, failed as the `nth` failure since the email last logged in, or
      settled before then. */
  datatype Progress = UnderWay | Failed(nth: nat) | Settled

  /** `before` counts the failures since the last success when the login passed the gate. */
  datatype Attempt = Attempt(gateAt: Time, before: nat, progress: Progress)

  /** The history of one email: every login past the gate in order of passing, the times of the failures since the
      last success, the lockout that success left behind if there was one, and how many failures were forgotten
      when that lockout ran out. */
  datatype Track = Track(attempts: seq<Attempt>, fails: seq<Time>, leftover: Option<Time>, forgotten: nat)

  datatype State = State(guard: Guard, now: Time, tracks: map<string, Track>)

  function TrackOf(s: State, email: string): Track {
    if email in s.tracks then s.tracks[email] else Track([], [], None, 0)
  }

  /** The logins under way. */
  function Open(tr: Track): set<nat> { set k | 0 <= k < |tr.attempts| && tr.attempts[k].progress.UnderWay? }

  /** At most `limit` logins of one email are under way at a time, and time never runs backwards. */
  predicate Enabled(limit: nat, s: State, step: Step) {
    && s.now <= step.at
    && match step
       case Enter(email, at) => Locked(s.guard, email, at) || |Open(TrackOf(s, email))| < limit
       case Fail(email, at, which) => which in Open(TrackOf(s, email))
       case Succeed(email, at, which) => which in Open(TrackOf(s, email))
  }

  function Entered(tr: Track, at: Time): Track {
    Track(tr.attempts + [Attempt(at, |tr.fails|, UnderWay)], tr.fails, None,
          if tr.leftover.Some? then |tr.fails| else tr.forgotten)
  }

  function FailedAt(tr: Track, which: nat, count: nat, at: Time): Track
    requires which in Open(tr)
  {
    Track(tr.attempts[which := tr.attempts[which].(progress := Failed(|tr.fails|))], tr.fails + [at],
          if count + 1 >= MAX_FAILED_ATTEMPTS then None else tr.leftover, tr.forgotten)
  }

  /** A success clears the counter but not the lockout: one set since this login passed the gate stays. */
  function Succeeded(tr: Track, which: nat, count: nat): Track {
    Track(seq(|tr.attempts|, k requires 0 <= k < |tr.attempts| =>
                Attempt(tr.attempts[k].gateAt, 0,
                        if k != which && tr.attempts[k].progress.UnderWay? then UnderWay else Settled)),
          [],
          if count >= MAX_FAILED_ATTEMPTS && tr.fails != [] then Some(tr.fails[|tr.fails| - 1] + LOCKOUT_DURATION)
          else tr.leftover,
          0)
  }

  function Apply(limit: nat, s: State, step: Step): State
    requires Enabled(limit, s, step)
  {
    var tr, count := TrackOf(s, step.email), Failures(s.guard, step.email);
    match step
    case Enter(email, at) =>
      if Locked(s.guard, email, at) then s.(now := at)
      else State(PassGate(s.guard, email), at, s.tracks[email := Entered(tr, at)])
    case Fail(email, at, which) =>
      State(CountFailure(s.guard, email, at), at, s.tracks[email := FailedAt(tr, which, count, at)])
    case Succeed(email, at, which) =>
      State(ClearFailures(s.guard, email), at, s.tracks[email := Succeeded(tr, which, count)])
  }

  function Start(now: Time): State { State(Guard(map[], map[]), now, map[]) }

  /** The state a run of enabled steps ends in. */
  function Run(limit: nat, start: Time, steps: seq<Step>): Option<State> {
    if steps == [] then Some(Start(start))
    else
      var before, last := Run(limit, start, steps[..|steps| - 1]), steps[|steps| - 1];
      if before.Some? && Enabled(limit, before.value, last) then Some(Apply(limit, before.value, last)) else None
  }

  // ---------------------------------------------------------------- invariant

  /** What the guard and the history say about one email. */
  datatype View = View(count: nat, lock: Option<Time>, track: Track, now: Time)

  ghost function ViewOf(s: State, email: string): View {
    View(Failures(s.guard, email), if email in s.guard.lockouts then Some(s.guard.lockouts[email]) else None,
         TrackOf(s, email), s.now)
  }

  ghost predicate History(tr: Track, now: Time) {
    && (forall i, j | 0 <= i <= j < |tr.fails| :: tr.fails[i] <= tr.fails[j] <= now)
    && (forall k | 0 <= k < |tr.attempts| :: tr.attempts[k].before <= |tr.fails|)
    && (forall k | 0 <= k < |tr.attempts| && tr.attempts[k].progress.Failed? ::
          tr.attempts[k].progress.nth < |tr.fails|)
    && FailedOnce(tr.attempts)
  }

  /** No two attempts failed as the same failure. */
  ghost predicate FailedOnce(attempts: seq<Attempt>) {
    forall k, l | 0 <= k < l < |attempts| && attempts[k].progress.Failed? && attempts[l].progress.Failed? ::
      attempts[k].progress.nth != attempts[l].progress.nth
  }

  /** The attempts that were under way when the one numbered `a` passed the gate. */
  ghost function OpenAt(attempts: seq<Attempt>, a: nat): set<nat>
    requires a < |attempts|
  {
    set k | 0 <= k < a && Pending(attempts[k].progress, attempts[a].before)
  }

  predicate Pending(p: Progress, before: nat) { p.UnderWay? || (p.Failed? && p.nth >= before) }

  ghost predicate Crowding(limit: nat, tr: Track) {
    && |Open(tr)| <= limit
    && forall a | 0 <= a < |tr.attempts| && !tr.attempts[a].progress.Settled? :: |OpenAt(tr.attempts, a)| < limit
  }

  /** Four failures, besides the forgotten ones, are all that an attempt can have close behind it. */
  ghost predicate Spacing(tr: Track) {
    forall a | 0 <= a < |tr.attempts| && !tr.attempts[a].progress.Settled? ::
      var before := tr.attempts[a].before;
      5 + tr.forgotten <= before <= |tr.fails| ==> tr.fails[before - 5] + LOCKOUT_DURATION <= tr.attempts[a].gateAt
  }

  /** How many failures a lockout that outlives a success can make the guard forget. */
  function Slack(limit: nat): nat { if limit <= 2 then 0 else if limit >= 6 then 4 else limit - 2 }

  ghost predicate Unlocked(v: View) {
    var fails, f := v.track.fails, v.track.forgotten;
    && v.count < MAX_FAILED_ATTEMPTS && v.track.leftover.None? && f + v.count <= |fails|
    && forall i | f <= i < |fails| - v.count :: fails[i] + LOCKOUT_DURATION <= v.now
  }

  ghost predicate LockedByFailures(limit: nat, v: View, until: Time) {
    var fails, f := v.track.fails, v.track.forgotten;
    && v.count >= MAX_FAILED_ATTEMPTS && v.track.leftover.None? && f + v.count <= |fails|
    && until == fails[|fails| - 1] + LOCKOUT_DURATION
    && v.count + |Open(v.track)| <= limit + 4
  }

  ghost predicate LockedByLeftover(limit: nat, v: View, until: Time) {
    && v.count < MAX_FAILED_ATTEMPTS && v.track.leftover == Some(until)
    && |v.track.fails| == v.count && v.track.forgotten == 0
    && v.count + |Open(v.track)| + 2 <= limit
    && forall a | 0 <= a < |v.track.attempts| && !v.track.attempts[a].progress.Settled? ::
         v.track.attempts[a].before == 0
  }

  ghost predicate Inv(limit: nat, v: View) {
    && History(v.track, v.now) && Crowding(limit, v.track) && Spacing(v.track)
    && v.track.forgotten <= Slack(limit)
    && match v.lock
       case None => Unlocked(v)
       case Some(until) => LockedByFailures(limit, v, until) || LockedByLeftover(limit, v, until)
  }

  // ---------------------------------------------------------------- passing the gate

  lemma OpenAfterEnter(tr: Track, at: Time)
    ensures Open(Entered(tr, at)) == Open(tr) + {|tr.attempts|} && |Open(Entered(tr, at))| == |Open(tr)| + 1
  {
    assert Open(Entered(tr, at)) == Open(tr) + {|tr.attempts|};
  }

  lemma EnterKeepsCrowding(limit: nat, tr: Track, now: Time, at: Time)
    requires History(tr, now) && Crowding(limit, tr) && |Open(tr)| < limit
    ensures Crowding(limit, Entered(tr, at))
  {
    var t := Entered(tr, at);
    OpenAfterEnter(tr, at);
    forall a | 0 <= a < |t.attempts| && !t.attempts[a].progress.Settled? ensures |OpenAt(t.attempts, a)| < limit {
      if a < |tr.attempts| {
        assert OpenAt(t.attempts, a) == OpenAt(tr.attempts, a);
      } else {
        assert OpenAt(t.attempts, a) == Open(tr);
      }
    }
  }

  lemma EnterKeepsInv(limit: nat, v: View, at: Time)
    requires Inv(limit, v) && v.now <= at && |Open(v.track)| < limit && (v.lock.Some? ==> v.lock.value <= at)
    ensures Inv(limit, View(if v.lock.Some? then 0 else v.count, None, Entered(v.track, at), at))
  {
    EnterKeepsCrowding(limit, v.track, v.now, at);
    hide Crowding;
  }

  // ---------------------------------------------------------------- failing

  lemma FailKeepsCrowding(limit: nat, tr: Track, now: Time, which: nat, count: nat, at: Time)
    requires History(tr, now) && Crowding(limit, tr) && which in Open(tr)
    ensures Crowding(limit, FailedAt(tr, which, count, at))
    ensures |Open(FailedAt(tr, which, count, at))| == |Open(tr)| - 1
  {
    var t := FailedAt(tr, which, count, at);
    assert Open(t) == Open(tr) - {which};
    forall a | 0 <= a < |t.attempts| && !t.attempts[a].progress.Settled? ensures |OpenAt(t.attempts, a)| < limit {
      assert OpenAt(t.attempts, a) == OpenAt(tr.attempts, a);
    }
  }

  lemma FailKeepsHistory(tr: Track, now: Time, which: nat, count: nat, at: Time)
    requires History(tr, now) && Spacing(tr) && which in Open(tr) && now <= at
    ensures History(FailedAt(tr, which, count, at), at) && Spacing(FailedAt(tr, which, count, at))
  {
  }

  lemma FailKeepsInv(limit: nat, v: View, which: nat, at: Time)
    requires Inv(limit, v) && v.now <= at && which in Open(v.track)
    ensures var lock := if v.count + 1 >= MAX_FAILED_ATTEMPTS then Some(at + LOCKOUT_DURATION) else v.lock;
            Inv(limit, View(v.count + 1, lock, FailedAt(v.track, which, v.count, at), at))
  {
    FailKeepsHistory(v.track, v.now, which, v.count, at);
    FailKeepsCrowding(limit, v.track, v.now, which, v.count, at);
    hide Crowding, History, Spacing;
  }

  // ---------------------------------------------------------------- succeeding

  lemma SuccessKeepsCrowding(limit: nat, tr: Track, which: nat, count: nat)
    requires Crowding(limit, tr) && which in Open(tr)
    ensures Crowding(limit, Succeeded(tr, which, count))
    ensures |Open(Succeeded(tr, which, count))| == |Open(tr)| - 1
  {
    var t := Succeeded(tr, which, count);
    assert Open(t) == Open(tr) - {which};
    forall a | 0 <= a < |t.attempts| && !t.attempts[a].progress.Settled? ensures |OpenAt(t.attempts, a)| < limit {
      SubsetSize(OpenAt(t.attempts, a), OpenAt(tr.attempts, a));
    }
  }

  lemma SuccessKeepsHistory(tr: Track, which: nat, count: nat, now: Time)
    ensures var t := Succeeded(tr, which, count);
            && History(t, now) && Spacing(t)
            && t.fails == [] && t.forgotten == 0
            && forall a | 0 <= a < |t.attempts| && !t.attempts[a].progress.Settled? :: t.attempts[a].before == 0
  {
  }

  lemma SuccessLeavesLock(limit: nat, v: View, which: nat, at: Time)
    requires Inv(limit, v) && v.now <= at && which in Open(v.track) && v.lock.Some?
    ensures Succeeded(v.track, which, v.count).leftover == v.lock && |Open(v.track)| + 1 <= limit
  {
    hide Crowding, History, Spacing;
  }

  lemma SuccessLeavesNone(limit: nat, v: View, which: nat)
    requires Inv(limit, v) && v.lock.None?
    ensures Succeeded(v.track, which, v.count).leftover.None?
  {
    hide Crowding, History, Spacing;
  }

  lemma SucceedKeepsInv(limit: nat, v: View, which: nat, at: Time)
    requires Inv(limit, v) && v.now <= at && which in Open(v.track)
    ensures Inv(limit, View(0, v.lock, Succeeded(v.track, which, v.count), at))
  {
    SuccessKeepsCrowding(limit, v.track, which, v.count);
    SuccessKeepsHistory(v.track, which, v.count, at);
    if v.lock.Some? { SuccessLeavesLock(limit, v, which, at); } else { SuccessLeavesNone(limit, v, which); }
    hide Crowding, History, Spacing, Open, Succeeded, LockedByFailures;
  }

  // ---------------------------------------------------------------- runs

  lemma WaitKeepsInv(limit: nat, v: View, at: Time)
    requires Inv(limit, v) && v.now <= at
    ensures Inv(limit, v.(now := at))
  {
  }

  lemma StepKeepsInv(limit: nat, s: State, step: Step, email: string)
    requires Inv(limit, ViewOf(s, email)) && Enabled(limit, s, step)
    ensures Inv(limit, ViewOf(Apply(limit, s, step), email))
  {
    hide Inv, Open, Entered, FailedAt, Succeeded;
    var v, t := ViewOf(s, email), Apply(limit, s, step);
    if step.email != email || (step.Enter? && Locked(s.guard, email, step.at)) {
      WaitKeepsInv(limit, v, step.at);
      assert ViewOf(t, email) == v.(now := step.at);
    } else {
      match step
      case Enter(_, at) => EnterKeepsInv(limit, v, at);
      case Fail(_, at, which) => FailKeepsInv(limit, v, which, at);
      case Succeed(_, at, which) => SucceedKeepsInv(limit, v, which, at);
    }
  }

  lemma {:induction false} RunKeepsInv(limit: nat, start: Time, steps: seq<Step>, email: string)
    requires Run(limit, start, steps).Some?
    ensures Inv(limit, ViewOf(Run(limit, start, steps).value, email))
  {
    if steps != [] {
      hide Inv, Enabled, Apply;
      RunKeepsInv(limit, start, steps[..|steps| - 1], email);
      StepKeepsInv(limit, Run(limit, start, steps[..|steps| - 1]).value, steps[|steps| - 1], email);
    }
  }

  /** An email is in the lockout map exactly when its counter stands at five or more, or a login that was under way
      when a lockout was set has succeeded since; with one login at a time the second cannot happen. */
  lemma LockedIffFiveFailures(limit: nat, start: Time, steps: seq<Step>, email: string)
    requires Run(limit, start, steps).Some?
    ensures var s := Run(limit, start, steps).value;
            && (email in s.guard.lockouts <==>
                  Failures(s.guard, email) >= 5 || TrackOf(s, email).leftover.Some?)
            && (limit <= 1 ==> TrackOf(s, email).leftover.None?)
            && Failures(s.guard, email) <= limit + 4
  {
    RunKeepsInv(limit, start, steps, email);
  }

  /** A login is turned away at the gate exactly when the email has five failures or more on record and the last of
      them is less than fifteen minutes old, or a lockout left behind by a success has not run out. */
  lemma RefusedIff(limit: nat, start: Time, steps: seq<Step>, email: string, at: Time)
    requires Run(limit, start, steps).Some?
    ensures var s := Run(limit, start, steps).value;
            var tr := TrackOf(s, email);
            Locked(s.guard, email, at) <==>
              || (&& Failures(s.guard, email) >= 5 && tr.fails != []
                  && at < tr.fails[|tr.fails| - 1] + 900_000_000_000)
              || (tr.leftover.Some? && at < tr.leftover.value)
  {
    RunKeepsInv(limit, start, steps, email);
  }

  // ---------------------------------------------------------------- the sliding window

  /** The attempt was under way at some moment of the window, and the email has not logged in since. */
  ghost predicate Touches(tr: Track, k: nat, lo: Time, hi: Time)
    requires k < |tr.attempts|
  {
    var a := tr.attempts[k];
    && a.gateAt <= hi
    && (a.progress.UnderWay? ||
        (a.progress.Failed? && a.progress.nth < |tr.fails| && lo <= tr.fails[a.progress.nth]))
  }

  ghost function Touching(tr: Track, lo: Time, hi: Time): set<nat> {
    set k | 0 <= k < |tr.attempts| && Touches(tr, k, lo, hi)
  }

  /** As many attempts as have failed with a number in a range are at most the numbers in the range. */
  lemma {:induction false} FewFailures(attempts: seq<Attempt>, ks: set<nat>, lo: nat, hi: nat)
    requires FailedOnce(attempts) && lo <= hi
    requires forall k | k in ks :: k < |attempts| && attempts[k].progress.Failed?
    requires forall k | k in ks :: lo <= attempts[k].progress.nth < hi
    ensures |ks| <= hi - lo
    decreases hi - lo
  {
    if ks != {} {
      var k :| k in ks;
      if exists l :: l in ks && attempts[l].progress.nth == hi - 1 {
        var l :| l in ks && attempts[l].progress.nth == hi - 1;
        FewFailures(attempts, ks - {l}, lo, hi - 1);
      } else {
        FewFailures(attempts, ks, lo, hi - 1);
      }
    }
  }

  lemma {:induction false} HasLast(ks: set<nat>) returns (last: nat)
    requires ks != {}
    ensures last in ks && forall k | k in ks :: k <= last
    decreases ks
  {
    last :| last in ks;
    if ks != {last} {
      var first := last;
      last := HasLast(ks - {first});
      if last < first { last := first; }
      assert forall k | k in ks :: k == first || k in ks - {first};
    }
  }

  /** Touching attempts that had failed before attempt `a` passed the gate. */
  ghost function FailedBefore(tr: Track, a: nat, lo: Time, hi: Time): set<nat>
    requires a < |tr.attempts|
  {
    set k | k in Touching(tr, lo, hi) && k < a && tr.attempts[k].progress.Failed?
            && tr.attempts[k].progress.nth < tr.attempts[a].before
  }

  lemma FewFailedBefore(tr: Track, now: Time, a: nat, lo: Time, hi: Time)
    requires History(tr, now) && Spacing(tr) && hi < lo + LOCKOUT_DURATION && a in Touching(tr, lo, hi)
    ensures |FailedBefore(tr, a, lo, hi)| <= 4 + tr.forgotten
  {
    var before, ks := tr.attempts[a].before, FailedBefore(tr, a, lo, hi);
    if before >= 5 + tr.forgotten {
      assert tr.fails[before - 5] < lo;
      FewFailures(tr.attempts, ks, before - 4, before);
    } else {
      FewFailures(tr.attempts, ks, 0, before);
    }
  }

  lemma WindowBound(limit: nat, tr: Track, now: Time, lo: Time, hi: Time)
    requires History(tr, now) && Crowding(limit, tr) && Spacing(tr) && hi < lo + LOCKOUT_DURATION
    ensures |Touching(tr, lo, hi)| <= limit + 4 + tr.forgotten
  {
    var touching := Touching(tr, lo, hi);
    if touching != {} {
      var a := HasLast(touching);
      var open, failed := OpenAt(tr.attempts, a), FailedBefore(tr, a, lo, hi);
      FewFailedBefore(tr, now, a, lo, hi);
      assert touching <= open + failed + {a};
      SubsetSize(touching, open + failed + {a});
      UnionSize(open, failed);
      UnionSize(open + failed, {a});
    }
  }

  /** The rate limit: in every run with at most `limit` logins of an email under way at a time, any window shorter
      than fifteen minutes touches at most this many attempts since the email last logged in. */
  lemma WindowIsBounded(limit: nat, start: Time, steps: seq<Step>, email: string, lo: Time, hi: Time)
    requires Run(limit, start, steps).Some? && hi < lo + 900_000_000_000
    ensures |Touching(TrackOf(Run(limit, start, steps).value, email), lo, hi)| <= limit + 4 + Slack(limit)
  {
    RunKeepsInv(limit, start, steps, email);
    var s := Run(limit, start, steps).value;
    WindowBound(limit, TrackOf(s, email), s.now, lo, hi);
  }

  /** With one login at a time that is five. */
  lemma AtMostFivePerWindow(start: Time, steps: seq<Step>, email: string, lo: Time, hi: Time)
    requires Run(1, start, steps).Some? && hi < lo + 900_000_000_000
    ensures |Touching(TrackOf(Run(1, start, steps).value, email), lo, hi)| <= 5
  {
    WindowIsBounded(1, start, steps, email, lo, hi);
  }

  // ---------------------------------------------------------------- the bound is reached

  const LO := LOCKOUT_DURATION - 1
  const HI := LOCKOUT_DURATION

  /** The figures of one email at the end of a run; `touching` is for the window from `LO` to `HI`. */
  datatype Tally = Tally(now: Time, count: nat, lock: Option<Time>, open: nat, touching: nat)

  ghost predicate Matches(limit: nat, email: string, steps: seq<Step>, tally: Tally) {
    && Run(limit, 0, steps).Some?
    && var v := ViewOf(Run(limit, 0, steps).value, email);
       && v.now == tally.now && v.count == tally.count && v.lock == tally.lock
       && |Open(v.track)| == tally.open && |Touching(v.track, LO, HI)| == tally.touching
       && Open(v.track) <= Touching(v.track, LO, HI)
  }

  lemma RunOneMore(limit: nat, steps: seq<Step>, step: Step)
    requires Run(limit, 0, steps).Some? && Enabled(limit, Run(limit, 0, steps).value, step)
    ensures Run(limit, 0, steps + [step]) == Some(Apply(limit, Run(limit, 0, steps).value, step))
  {
    assert (steps + [step])[..|steps|] == steps;
  }

  lemma TouchingAfterEnter(tr: Track, at: Time)
    requires at <= HI
    ensures Touching(Entered(tr, at), LO, HI) == Touching(tr, LO, HI) + {|tr.attempts|}
  {
  }

  lemma TouchingAfterFail(tr: Track, now: Time, which: nat, count: nat, at: Time)
    requires History(tr, now) && which in Open(tr) && Open(tr) <= Touching(tr, LO, HI)
    ensures Open(FailedAt(tr, which, count, at)) == Open(tr) - {which}
    ensures Touching(FailedAt(tr, which, count, at), LO, HI)
         == if at >= LO then Touching(tr, LO, HI) else Touching(tr, LO, HI) - {which}
  {
    var t := FailedAt(tr, which, count, at);
    assert which in Touching(tr, LO, HI);
    assert Touches(t, which, LO, HI) <==> at >= LO;
    forall k | 0 <= k < |t.attempts| && k != which ensures Touches(t, k, LO, HI) <==> Touches(tr, k, LO, HI) {
      assert t.attempts[k] == tr.attempts[k];
    }
  }

  lemma OneEnters(limit: nat, email: string, steps: seq<Step>, tally: Tally, at: Time) returns (more: seq<Step>)
    requires Matches(limit, email, steps, tally) && tally.now <= at <= HI
    requires tally.open < limit && (tally.lock.Some? ==> tally.lock.value <= at)
    ensures Matches(limit, email, more,
                    Tally(at, if tally.lock.Some? then 0 else tally.count, None, tally.open + 1, tally.touching + 1))
  {
    var tr := TrackOf(Run(limit, 0, steps).value, email);
    more := steps + [Enter(email, at)];
    RunOneMore(limit, steps, Enter(email, at));
    OpenAfterEnter(tr, at);
    TouchingAfterEnter(tr, at);
    hide Open, Touching, Run, Entered;
  }

  lemma OneFails(limit: nat, email: string, steps: seq<Step>, tally: Tally, at: Time) returns (more: seq<Step>)
    requires Matches(limit, email, steps, tally) && tally.now <= at && tally.open > 0
    ensures var locks := tally.count + 1 >= MAX_FAILED_ATTEMPTS;
            tally.touching > 0 &&
            Matches(limit, email, more,
                    Tally(at, tally.count + 1, if locks then Some(at + LOCKOUT_DURATION) else tally.lock,
                          tally.open - 1, if at >= LO then tally.touching else tally.touching - 1))
  {
    var s := Run(limit, 0, steps).value;
    var tr := TrackOf(s, email);
    var which :| which in Open(tr);
    RunKeepsInv(limit, 0, steps, email);
    TouchingAfterFail(tr, s.now, which, tally.count, at);
    hide Open, Touching, Run, Inv, FailedAt;
    more := steps + [Fail(email, at, which)];
    RunOneMore(limit, steps, Fail(email, at, which));
    assert which in Touching(tr, LO, HI);
  }

  lemma OneSucceeds(limit: nat, email: string, steps: seq<Step>, tally: Tally, at: Time) returns (more: seq<Step>)
    requires Matches(limit, email, steps, tally) && tally.now <= at && tally.open > 0
    ensures Matches(limit, email, more, Tally(at, 0, tally.lock, tally.open - 1, tally.open - 1))
  {
    var tr := TrackOf(Run(limit, 0, steps).value, email);
    var which :| which in Open(tr);
    var t := Succeeded(tr, which, tally.count);
    more := steps + [Succeed(email, at, which)];
    RunOneMore(limit, steps, Succeed(email, at, which));
    assert Open(t) == Open(tr) - {which};
    assert Touching(t, LO, HI) == Open(t);
  }

  lemma {:induction false} SomeEnter(limit: nat, email: string, steps: seq<Step>, tally: Tally, at: Time, n: nat)
    returns (more: seq<Step>)
    requires Matches(limit, email, steps, tally) && tally.now <= at <= HI
    requires tally.open + n <= limit && tally.lock.None?
    ensures Matches(limit, email, more,
                    tally.(now := if n == 0 then tally.now else at,
                           open := tally.open + n, touching := tally.touching + n))
    decreases n
  {
    hide Matches;
    more := steps;
    if n > 0 {
      more := OneEnters(limit, email, steps, tally, at);
      var t := Tally(at, tally.count, None, tally.open + 1, tally.touching + 1);
      more := SomeEnter(limit, email, more, t, at, n - 1);
    }
  }

  lemma {:induction false} SomeFail(limit: nat, email: string, steps: seq<Step>, tally: Tally, n: nat)
    returns (more: seq<Step>)
    requires Matches(limit, email, steps, tally) && tally.now <= LO
    requires n <= tally.open && tally.count + n < MAX_FAILED_ATTEMPTS
    ensures Matches(limit, email, more,
                    tally.(now := if n == 0 then tally.now else LO, count := tally.count + n, open := tally.open - n))
    decreases n
  {
    hide Matches;
    more := steps;
    if n > 0 {
      more := OneFails(limit, email, steps, tally, LO);
      more := SomeFail(limit, email, more, tally.(now := LO, count := tally.count + 1, open := tally.open - 1), n - 1);
    }
  }

  /** Four logins in a row, each failing before the next begins; the first clears a lockout that has run out. */
  lemma FourFail(limit: nat, email: string, steps: seq<Step>, tally: Tally, at: Time) returns (more: seq<Step>)
    requires Matches(limit, email, steps, tally) && tally.now <= at <= HI && tally.open < limit
    requires match tally.lock case Some(until) => until <= at case None => tally.count == 0
    ensures Matches(limit, email, more,
                    Tally(at, 4, None, tally.open, tally.touching + if at >= LO then 4 else 0))
  {
    hide Matches;
    var t := tally;
    more := steps;
    for i := 0 to 4
      invariant t.now <= at && t.open == tally.open && t.touching == tally.touching + (if at >= LO then i else 0)
      invariant if i == 0 then t == tally else t.now == at && t.count == i && t.lock.None?
      invariant Matches(limit, email, more, t)
    {
      more := OneEnters(limit, email, more, t, at);
      more := OneFails(limit, email, more, Tally(at, i, None, t.open + 1, t.touching + 1), at);
      t := Tally(at, i + 1, None, t.open, if at >= LO then t.touching + 1 else t.touching);
    }
  }

  /** Five failures with the others still under way, then a success: the lockout stays and the counter is clear. */
  lemma LockoutOutlivesSuccess(limit: nat, email: string) returns (steps: seq<Step>)
    requires limit >= 2
    ensures Matches(limit, email, steps, Tally(0, 0, Some(HI), limit - 2, limit - 2))
  {
    steps := [];
    assert Matches(limit, email, steps, Tally(0, 0, None, 0, 0));
    hide Matches;
    steps := FourFail(limit, email, steps, Tally(0, 0, None, 0, 0), 0);
    steps := SomeEnter(limit, email, steps, Tally(0, 4, None, 0, 0), 0, limit);
    steps := OneFails(limit, email, steps, Tally(0, 4, None, limit, limit), 0);
    steps := OneSucceeds(limit, email, steps, Tally(0, 5, Some(HI), limit - 1, limit - 1), 0);
  }

  /** The bound is exact: for every limit some run fills a window of one nanosecond to it. */
  lemma BoundIsReached(limit: nat, email: string) returns (steps: seq<Step>)
    requires limit >= 1
    ensures Run(limit, 0, steps).Some?
    ensures |Touching(TrackOf(Run(limit, 0, steps).value, email), LO, HI)| == limit + 4 + Slack(limit)
  {
    var t := Tally(0, 0, None, 0, 0);
    steps := [];
    assert Matches(limit, email, steps, t);
    if limit >= 3 {
      steps := LockoutOutlivesSuccess(limit, email);
      steps := SomeFail(limit, email, steps, Tally(0, 0, Some(HI), limit - 2, limit - 2), Slack(limit));
      t := Tally(LO, Slack(limit), Some(HI), limit - 2 - Slack(limit), limit - 2);
    }
    steps := FourFail(limit, email, steps, t, HI);
    steps := SomeEnter(limit, email, steps, Tally(HI, 4, None, t.open, t.touching + 4), HI, limit - t.open);
  }
}
