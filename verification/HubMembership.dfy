/** Who is in the hub's client map, and when a writer stops. */
module HubMembership {
  import opened Options
  import opened Hub

  /** In any reachable state a client that registers enters the map with an open, empty channel and an idle writer, and
      nobody else notices. */
  lemma RegisterEntersMap(steps: seq<Step>, c: Client)
    requires Run(steps).Reached? && Enabled(Run(steps).state, Register(c))
    ensures Run(steps + [Register(c)]).Reached?
    ensures var s, t := Run(steps).state, Run(steps + [Register(c)]).state;
            && c in t.clients && c in t.peers
            && t.peers[c].chan.open && t.peers[c].chan.buffer == [] && t.peers[c].writer.Idle?
            && t.peers[c].frames == [] && t.peers[c].enqueued == []
            && t.clients == s.clients + {c} && t.gauge == s.gauge + 1
            && forall d | d in s.peers && d != c :: d in t.peers && t.peers[d] == s.peers[d]
  {
    assert (steps + [Register(c)])[..|steps|] == steps;
  }

  /** The client's turn in a broadcast comes while 256 messages are queued for it. */
  ghost predicate FullAtTurn(s: State, step: Step, c: Client) {
    step == Deliver(c) && c in s.peers && |s.peers[c].chan.buffer| >= 256
  }

  /** A client in the map leaves it exactly when it unregisters or is full at its turn. */
  lemma LeavesMapIff(s: State, step: Step, c: Client)
    requires Inv(s) && Enabled(s, step)
    ensures Apply(s, step).Some?
    ensures c in Apply(s, step).value.clients <==>
              || step == Register(c)
              || (c in s.clients && step != Unregister(c) && !FullAtTurn(s, step, c))
  {
    hide Inv, Apply, Enabled, FullAtTurn;
    StepKeepsInv(s, step);
    MapAfter(s, step, Apply(s, step).value, c);
  }

  lemma MapAfter(s: State, step: Step, t: State, c: Client)
    requires Enabled(s, step) && Apply(s, step) == Some(t)
    ensures c in t.clients <==>
              || step == Register(c)
              || (c in s.clients && step != Unregister(c) && !FullAtTurn(s, step, c))
  {
    hide WriterStep, WriterEnabled;
  }

  lemma BooksAfter(s: State, step: Step, t: State, c: Client)
    requires Enabled(s, step) && Apply(s, step) == Some(t)
    ensures c in t.registered <==> c in s.registered || step == Register(c)
    ensures c in t.unregistered <==> c in s.unregistered || step == Unregister(c)
  {
    hide WriterStep, WriterEnabled;
  }

  lemma PeersAreRegistered(s: State, c: Client)
    requires Inv(s)
    ensures c in s.peers <==> c in s.registered
    ensures c in s.unregistered ==> c in s.registered
  {
  }

  lemma RunStep(steps: seq<Step>)
    requires steps != [] && Run(steps).Reached?
    ensures var init, last := steps[..|steps| - 1], steps[|steps| - 1];
            && Run(init).Reached? && Inv(Run(init).state) && Enabled(Run(init).state, last)
            && Apply(Run(init).state, last) == Some(Run(steps).state)
  {
    hide Inv, Apply, Enabled;
    RunNeverPanics(steps[..|steps| - 1]);
  }

  lemma InLast<T>(s: seq<T>, x: T)
    requires s != []
    ensures x in s <==> x in s[..|s| - 1] || x == s[|s| - 1]
  {
    assert s == s[..|s| - 1] + [s[|s| - 1]];
  }

  /** The hub's books follow the requests. */
  lemma {:induction false} BooksFollowRequests(steps: seq<Step>, c: Client)
    requires Run(steps).Reached?
    ensures c in Run(steps).state.registered <==> Register(c) in steps
    ensures c in Run(steps).state.unregistered <==> Unregister(c) in steps
    ensures c in Run(steps).state.peers <==> Register(c) in steps
  {
    hide Inv, Enabled, Apply;
    RunNeverPanics(steps);
    PeersAreRegistered(Run(steps).state, c);
    if steps != [] {
      hide Run;
      RunStep(steps);
      var init, last := steps[..|steps| - 1], steps[|steps| - 1];
      BooksFollowRequests(init, c);
      BooksAfter(Run(init).state, last, Run(steps).state, c);
      InLast(steps, Register(c));
      InLast(steps, Unregister(c));
    }
  }

  /** Some turn of the client in the run found it full. */
  ghost predicate EverFull(steps: seq<Step>, c: Client) {
    exists k :: 0 <= k < |steps| && Run(steps[..k]).Reached? && FullAtTurn(Run(steps[..k]).state, steps[k], c)
  }

  lemma EverFullStep(steps: seq<Step>, c: Client)
    requires steps != [] && Run(steps).Reached?
    ensures var init, last := steps[..|steps| - 1], steps[|steps| - 1];
            Run(init).Reached? && (EverFull(steps, c) <==> EverFull(init, c) || FullAtTurn(Run(init).state, last, c))
  {
    hide Run, FullAtTurn, Inv, Enabled, Apply;
    RunStep(steps);
    var init, last := steps[..|steps| - 1], steps[|steps| - 1];
    if EverFull(steps, c) {
      var k :| 0 <= k < |steps| && Run(steps[..k]).Reached? && FullAtTurn(Run(steps[..k]).state, steps[k], c);
      if k < |init| { assert init[..k] == steps[..k] && init[k] == steps[k]; }
    }
    if EverFull(init, c) {
      var k :| 0 <= k < |init| && Run(init[..k]).Reached? && FullAtTurn(Run(init[..k]).state, init[k], c);
      assert init[..k] == steps[..k] && init[k] == steps[k];
    }
  }

  lemma {:induction false} FullMeansRegistered(steps: seq<Step>, c: Client)
    requires Run(steps).Reached? && EverFull(steps, c)
    ensures Register(c) in steps
  {
    var k :| 0 <= k < |steps| && Run(steps[..k]).Reached? && FullAtTurn(Run(steps[..k]).state, steps[k], c);
    BooksFollowRequests(steps[..k], c);
  }

  /** In every run a client is in the map exactly when it has registered, has not unregistered, and was never full at
      its turn in a broadcast. */
  lemma {:induction false} InMapIff(steps: seq<Step>, c: Client)
    requires Run(steps).Reached?
    ensures c in Run(steps).state.clients <==>
              Register(c) in steps && Unregister(c) !in steps && !EverFull(steps, c)
  {
    if steps == [] {
      assert Run(steps) == Reached(EMPTY);
    } else {
      hide Run, Inv, Enabled, EverFull, Apply;
      var init, last := steps[..|steps| - 1], steps[|steps| - 1];
      RunStep(steps);
      InMapIff(init, c);
      LeavesMapIff(Run(init).state, last, c);
      EverFullStep(steps, c);
      InLast(steps, Register(c));
      InLast(steps, Unregister(c));
      BooksFollowRequests(init, c);
      PeersAreRegistered(Run(init).state, c);
      if last.Register? { OnlyNewRegister(Run(init).state, last); }
      if EverFull(init, c) { FullMeansRegistered(init, c); }
    }
  }

  lemma OnlyNewRegister(s: State, step: Step)
    requires Enabled(s, step) && step.Register?
    ensures step.client !in s.registered
  {
  }

  // ---------------------------------------------------------------- nothing gets stuck

  /** In every reachable state the hub has something it can do: serve any request between broadcasts, and deliver or
      finish during one. */
  lemma HubCanMove(steps: seq<Step>)
    requires Run(steps).Reached?
    ensures var s := Run(steps).state;
            if s.sending.Sending? then
              && (forall c | c in s.sending.todo :: Enabled(s, Deliver(c)))
              && (s.sending.todo == {} ==> Enabled(s, Finish))
            else
              && (forall m :: Enabled(s, Begin(m)))
              && (forall c | c !in s.registered :: Enabled(s, Register(c)))
              && (forall c | c in s.registered && c !in s.unregistered :: Enabled(s, Unregister(c)))
  {
    RunNeverPanics(steps);
  }

  /** So does every writer that has not stopped and has something to write or a closed channel to see. */
  lemma WriterCanMove(p: Peer, c: Client)
    requires PeerInv(p) && !p.writer.Stopped? && !(p.writer.Idle? && p.chan.buffer == [] && p.chan.open)
    ensures || (forall opens :: WriterEnabled(p, Take(c, opens)))
            || WriterEnabled(p, Count(c)) || WriterEnabled(p, Batch(c))
            || (forall flushed :: WriterEnabled(p, EndFrame(c, flushed)))
            || WriterEnabled(p, SeeClosed(c))
  {
  }

  /** A writer stops exactly when opening or flushing a frame fails, a ping fails, or its channel is closed and empty;
      a failure loses just the messages in hand. */
  lemma WriterStopsIff(p: Peer, step: Step)
    requires PeerInv(p) && WriterEnabled(p, step)
    ensures WriterStep(p, step).writer.Stopped? <==>
              || (step.Take? && !step.writerOpens) || (step.EndFrame? && !step.flushed)
              || step.SeeClosed? || step.PingFails?
    ensures WriterStep(p, step).lost
         == if step.Take? && !step.writerOpens then [p.chan.buffer[0]]
            else if step.EndFrame? && !step.flushed then p.writer.frame else p.lost
    ensures WriterStep(p, step).frames
         == if step.EndFrame? && step.flushed then p.frames + [p.writer.frame] else p.frames
  {
  }

  /** A stopped writer never writes again, whatever follows. */
  lemma {:induction false} StoppedWritesNothing(steps: seq<Step>, more: seq<Step>, c: Client)
    requires Run(steps + more).Reached?
    requires Run(steps).Reached? && c in Run(steps).state.peers && Run(steps).state.peers[c].writer.Stopped?
    ensures var s, t := Run(steps).state, Run(steps + more).state;
            && c in t.peers && t.peers[c].writer.Stopped?
            && t.peers[c].frames == s.peers[c].frames && t.peers[c].lost == s.peers[c].lost
  {
    hide Run, Inv, Enabled, Apply;
    if more == [] {
      assert steps + more == steps;
    } else {
      var init, last := more[..|more| - 1], more[|more| - 1];
      assert (steps + more)[..|steps + more| - 1] == steps + init;
      RunStep(steps + more);
      StoppedWritesNothing(steps, init, c);
      StepKeepsStopped(Run(steps + init).state, last, c);
    }
  }

  lemma StepKeepsStopped(s: State, step: Step, c: Client)
    requires Inv(s) && Enabled(s, step) && Apply(s, step).Some? && c in s.peers && s.peers[c].writer.Stopped?
    ensures var t := Apply(s, step).value;
            && c in t.peers && t.peers[c].writer.Stopped?
            && t.peers[c].frames == s.peers[c].frames && t.peers[c].lost == s.peers[c].lost
  {
    hide Inv, Enabled, Apply;
    PeersAreRegistered(s, c);
    if IsWriterStep(step) { WriterLeavesStopped(s, step, c); } else { HubLeavesWriter(s, step, c); }
  }

  lemma HubLeavesWriter(s: State, step: Step, c: Client)
    requires Enabled(s, step) && Apply(s, step).Some? && c in s.peers && c in s.registered && !IsWriterStep(step)
    ensures var t := Apply(s, step).value;
            && c in t.peers && t.peers[c].writer == s.peers[c].writer
            && t.peers[c].frames == s.peers[c].frames && t.peers[c].lost == s.peers[c].lost
  {
    hide WriterStep, WriterEnabled;
  }

  lemma WriterLeavesStopped(s: State, step: Step, c: Client)
    requires Enabled(s, step) && c in s.peers && s.peers[c].writer.Stopped? && IsWriterStep(step)
    ensures var t := Apply(s, step).value;
            Apply(s, step).Some? && c in t.peers && t.peers[c] == s.peers[c]
  {
    hide WriterStep;
  }
}
