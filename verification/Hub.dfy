/** The WebSocket hub: one goroutine that registers, unregisters and broadcasts, and one writer per client
    that drains the client's bounded channel in batches. Steps of the hub and of the writers interleave. */
module Hub {
  import opened Options
  import opened Strings
  import opened Sets

  const SEND_BUFFER := 256

  type Client = nat
  type Message = string

  /** A Go channel: sending on or closing a closed one panics. */
  datatype Chan = Chan(buffer: seq<Message>, open: bool)

  function SendOn(ch: Chan, m: Message): Option<Chan> {
    if ch.open then Some(ch.(buffer := ch.buffer + [m])) else None
  }

  function CloseChan(ch: Chan): Option<Chan> {
    if ch.open then Some(ch.(open := false)) else None
  }

  /** What a client's writer is doing: `Opened` has a frame with its first message, `Batching` has also counted the
      queue and has `left` queued messages to add. */
  datatype Writer = Idle | Opened(frame: seq<Message>) | Batching(frame: seq<Message>, left: nat) | Stopped

  /** A client: its channel and writer, the frames written and what the writer took but lost, everything ever
      enqueued for it, and how many broadcasts had begun when it registered. */
  datatype Peer = Peer(chan: Chan, writer: Writer, frames: seq<seq<Message>>, lost: seq<Message>,
                       enqueued: seq<Message>, since: nat)

  datatype Sending = Nothing | Sending(message: Message, todo: set<Client>)

  datatype State = State(
    clients: set<Client>, peers: map<Client, Peer>, gauge: int, sending: Sending,
    registered: set<Client>, unregistered: set<Client>, broadcasts: seq<Message>)

  datatype Step =
    | Register(client: Client)
    | Unregister(client: Client)
    | Begin(message: Message)
    | Deliver(client: Client)
    | Finish
    | Take(client: Client, writerOpens: bool)
    | Count(client: Client)
    | Batch(client: Client)
    | EndFrame(client: Client, flushed: bool)
    | SeeClosed(client: Client)
    | PingFails(client: Client)

  /** A client registers once and unregisters once afterwards; the hub does one thing at a time. */
  predicate Enabled(s: State, step: Step) {
    match step
    case Register(c) => s.sending.Nothing? && c !in s.registered
    case Unregister(c) => s.sending.Nothing? && c in s.registered && c !in s.unregistered
    case Begin(m) => s.sending.Nothing?
    case Deliver(c) => s.sending.Sending? && c in s.sending.todo && c in s.peers
    case Finish => s.sending.Sending? && s.sending.todo == {}
    case _ => step.client in s.peers && WriterEnabled(s.peers[step.client], step)
  }

  predicate IsWriterStep(step: Step) {
    step.Take? || step.Count? || step.Batch? || step.EndFrame? || step.SeeClosed? || step.PingFails?
  }

  const FRESH := Chan([], true)

  function WithPeer(s: State, c: Client, p: Peer): State { s.(peers := s.peers[c := p]) }

  /** The message goes into the client's buffer. */
  function EnqueueFor(s: State, c: Client): Option<State>
    requires Enabled(s, Deliver(c))
  {
    var p := s.peers[c];
    match SendOn(p.chan, s.sending.message)
    case Some(ch) =>
      Some(WithPeer(s, c, p.(chan := ch, enqueued := p.enqueued + [s.sending.message]))
           .(sending := s.sending.(todo := s.sending.todo - {c})))
    case None => None
  }

  /** The client is closed and dropped. */
  function DropSlow(s: State, c: Client): Option<State>
    requires Enabled(s, Deliver(c))
  {
    match CloseChan(s.peers[c].chan)
    case Some(ch) =>
      Some(WithPeer(s, c, s.peers[c].(chan := ch))
           .(clients := s.clients - {c}, sending := s.sending.(todo := s.sending.todo - {c})))
    case None => None
  }

  /** A full buffer means the client is too slow: it is dropped instead of being waited for. */
  function DeliverTo(s: State, c: Client): Option<State>
    requires Enabled(s, Deliver(c))
  {
    if |s.peers[c].chan.buffer| < SEND_BUFFER then EnqueueFor(s, c) else DropSlow(s, c)
  }

  function UnregisterClient(s: State, c: Client): Option<State>
    requires Enabled(s, Unregister(c))
  {
    var t := s.(gauge := s.gauge - 1, unregistered := s.unregistered + {c});
    if c !in s.clients then Some(t)
    else if c !in s.peers then None
    else
      match CloseChan(s.peers[c].chan)
      case Some(ch) => Some(WithPeer(t, c, s.peers[c].(chan := ch)).(clients := s.clients - {c}))
      case None => None
  }

  /** A receive takes the oldest message; on a channel that has none left it yields nothing. */
  function Receive(p: Peer): Peer
    requires p.chan.buffer != []
  {
    p.(chan := p.chan.(buffer := p.chan.buffer[1..]))
  }

  /** The writer takes a message; if it cannot open a frame it gives up with that message in hand. */
  function TakeFirst(p: Peer, writerOpens: bool): Peer
    requires p.chan.buffer != []
  {
    var m, q := p.chan.buffer[0], Receive(p);
    if writerOpens then q.(writer := Opened([m])) else q.(writer := Stopped, lost := [m])
  }

  /** The writer reads the queue length; the hub may have sent or closed since the first receive. */
  function CountQueue(p: Peer): Peer
    requires p.writer.Opened?
  {
    p.(writer := Batching(p.writer.frame, |p.chan.buffer|))
  }

  /** One more message into the frame; a receive from a drained channel would add an empty one. */
  function TakeNext(p: Peer): Peer
    requires p.writer.Batching? && p.writer.left > 0
  {
    if p.chan.buffer == [] then p.(writer := Batching(p.writer.frame + [""], p.writer.left - 1))
    else Receive(p).(writer := Batching(p.writer.frame + [p.chan.buffer[0]], p.writer.left - 1))
  }

  function CloseFrame(p: Peer, flushed: bool): Peer
    requires p.writer.Batching?
  {
    if flushed then p.(writer := Idle, frames := p.frames + [p.writer.frame])
    else p.(writer := Stopped, lost := p.writer.frame)
  }

  predicate WriterEnabled(p: Peer, step: Step) {
    match step
    case Take(_, _) => p.writer.Idle? && p.chan.buffer != []
    case Count(_) => p.writer.Opened?
    case Batch(_) => p.writer.Batching? && p.writer.left > 0
    case EndFrame(_, _) => p.writer.Batching? && p.writer.left == 0
    case SeeClosed(_) => p.writer.Idle? && p.chan.buffer == [] && !p.chan.open
    case PingFails(_) => p.writer.Idle?
    case _ => false
  }

  function WriterStep(p: Peer, step: Step): Peer
    requires WriterEnabled(p, step)
  {
    match step
    case Take(_, writerOpens) => TakeFirst(p, writerOpens)
    case Count(_) => CountQueue(p)
    case Batch(_) => TakeNext(p)
    case EndFrame(_, flushed) => CloseFrame(p, flushed)
    case _ => p.(writer := Stopped)
  }

  function RegisterClient(s: State, c: Client): State {
    s.(clients := s.clients + {c}, gauge := s.gauge + 1, registered := s.registered + {c},
       peers := s.peers[c := Peer(FRESH, Idle, [], [], [], |s.broadcasts|)])
  }

  function BeginBroadcast(s: State, m: Message): State {
    s.(sending := Sending(m, s.clients), broadcasts := s.broadcasts + [m])
  }

  function FinishBroadcast(s: State): State { s.(sending := Nothing) }

  function WriterMoves(s: State, step: Step): State
    requires Enabled(s, step) && IsWriterStep(step)
  {
    WithPeer(s, step.client, WriterStep(s.peers[step.client], step))
  }

  /** `None` is a panic of the process. */
  function Apply(s: State, step: Step): Option<State>
    requires Enabled(s, step)
  {
    match step
    case Register(c) => Some(RegisterClient(s, c))
    case Unregister(c) => UnregisterClient(s, c)
    case Begin(m) => Some(BeginBroadcast(s, m))
    case Deliver(c) => DeliverTo(s, c)
    case Finish => Some(FinishBroadcast(s))
    case _ => Some(WriterMoves(s, step))
  }

  const EMPTY := State({}, map[], 0, Nothing, {}, {}, [])

  /** A run of the hub: the state it reaches, `Panicked`, or `Impossible` if a step was not enabled. */
  datatype Result = Reached(state: State) | Panicked | Impossible

  function Run(steps: seq<Step>): Result {
    if steps == [] then Reached(EMPTY)
    else
      var before, last := Run(steps[..|steps| - 1]), steps[|steps| - 1];
      if !before.Reached? then before
      else if !Enabled(before.state, last) then Impossible
      else match Apply(before.state, last) case Some(s) => Reached(s) case None => Panicked
  }

  // ---------------------------------------------------------------- invariant

  function Flatten(frames: seq<seq<Message>>): seq<Message> {
    if frames == [] then [] else Flatten(frames[..|frames| - 1]) + frames[|frames| - 1]
  }

  function OpenFrame(w: Writer): seq<Message> { if w.Opened? || w.Batching? then w.frame else [] }

  /** Frames written, frame in progress, losses and buffer make up what was enqueued, in order; losing
      something stops the writer; a batch never asks for more than is queued. */
  ghost predicate PeerInv(p: Peer) {
    && Flatten(p.frames) + OpenFrame(p.writer) + p.lost + p.chan.buffer == p.enqueued
    && (p.lost != [] ==> p.writer.Stopped?)
    && (p.writer.Batching? ==> p.writer.left <= |p.chan.buffer|)
    && (p.writer.Opened? || p.writer.Batching? ==> p.writer.frame != [])
    && (forall i | 0 <= i < |p.frames| :: p.frames[i] != [])
    && |p.chan.buffer| <= SEND_BUFFER
  }

  /** How many of the broadcasts begun so far have come to this client's turn. */
  ghost function Due(s: State, c: Client): int {
    |s.broadcasts| - (if s.sending.Sending? && c in s.sending.todo then 1 else 0)
  }

  /** What was enqueued is the stretch of the broadcasts from registration on; up to now, while in the map. */
  ghost predicate SegmentInv(s: State, c: Client, p: Peer) {
    && p.since + |p.enqueued| <= |s.broadcasts|
    && (forall i | 0 <= i < |p.enqueued| :: p.enqueued[i] == s.broadcasts[p.since + i])
    && (c in s.clients ==> p.since + |p.enqueued| == Due(s, c))
  }

  ghost predicate ClientInv(s: State, c: Client)
    requires c in s.peers
  {
    && (s.peers[c].chan.open <==> c in s.clients)
    && PeerInv(s.peers[c])
    && SegmentInv(s, c, s.peers[c])
  }

  /** The hub's own bookkeeping. */
  ghost predicate HubInv(s: State) {
    && s.peers.Keys == s.registered
    && s.clients <= s.registered - s.unregistered
    && s.unregistered <= s.registered
    && s.gauge == |s.registered| - |s.unregistered|
    && (s.sending.Sending? ==>
          s.sending.todo <= s.clients && |s.broadcasts| > 0 && s.broadcasts[|s.broadcasts| - 1] == s.sending.message)
  }

  ghost predicate Inv(s: State) {
    HubInv(s) && forall c | c in s.peers :: ClientInv(s, c)
  }

  lemma TakeKeepsPeerInv(p: Peer, writerOpens: bool)
    requires PeerInv(p) && p.writer.Idle? && p.chan.buffer != []
    ensures PeerInv(TakeFirst(p, writerOpens))
  {
    var written, buffer := Flatten(p.frames), p.chan.buffer;
    assert buffer == [buffer[0]] + buffer[1..];
    assert written + [] + [] + buffer == written + [buffer[0]] + [] + buffer[1..];
    assert written + [] + [] + buffer == written + [] + [buffer[0]] + buffer[1..];
  }

  lemma BatchKeepsPeerInv(p: Peer)
    requires PeerInv(p) && p.writer.Batching? && p.writer.left > 0
    ensures PeerInv(TakeNext(p))
  {
    var written, buffer := Flatten(p.frames), p.chan.buffer;
    assert buffer == [buffer[0]] + buffer[1..];
    assert written + p.writer.frame + [] + buffer == written + (p.writer.frame + [buffer[0]]) + [] + buffer[1..];
  }

  lemma FlushKeepsPeerInv(p: Peer)
    requires PeerInv(p) && p.writer.Batching?
    ensures PeerInv(CloseFrame(p, true))
  {
    hide Flatten;
    FlattenAppend(p.frames, p.writer.frame);
    var written, frame, buffer := Flatten(p.frames), p.writer.frame, p.chan.buffer;
    assert p.lost == [];
    assert written + frame + [] + buffer == written + frame + [] + [] + buffer;
  }

  lemma FlattenAppend(frames: seq<seq<Message>>, frame: seq<Message>)
    ensures Flatten(frames + [frame]) == Flatten(frames) + frame
  {
    assert (frames + [frame])[..|frames|] == frames;
  }

  lemma EndFrameKeepsPeerInv(p: Peer, flushed: bool)
    requires PeerInv(p) && p.writer.Batching?
    ensures PeerInv(CloseFrame(p, flushed))
  {
    if flushed {
      FlushKeepsPeerInv(p);
    } else {
      hide Flatten;
      var written, frame, buffer := Flatten(p.frames), p.writer.frame, p.chan.buffer;
      assert written + frame + [] + buffer == written + [] + frame + buffer;
    }
  }

  lemma WriterKeepsPeerInv(p: Peer, step: Step)
    requires PeerInv(p) && WriterEnabled(p, step)
    ensures PeerInv(WriterStep(p, step)) && SameChannelUse(p, WriterStep(p, step))
  {
    hide Flatten;
    match step
    case Take(_, writerOpens) => TakeKeepsPeerInv(p, writerOpens);
    case Batch(_) => BatchKeepsPeerInv(p);
    case EndFrame(_, flushed) => EndFrameKeepsPeerInv(p, flushed);
    case _ =>
  }

  /** Writers neither close their channel nor touch what was enqueued. */
  ghost predicate SameChannelUse(p: Peer, q: Peer) {
    q.enqueued == p.enqueued && q.since == p.since && q.chan.open == p.chan.open
  }

  lemma CloseKeepsPeerInv(p: Peer)
    requires PeerInv(p)
    ensures PeerInv(p.(chan := p.chan.(open := false)))
  {
  }

  lemma SendKeepsPeerInv(p: Peer, m: Message)
    requires PeerInv(p) && |p.chan.buffer| < SEND_BUFFER
    ensures PeerInv(p.(chan := p.chan.(buffer := p.chan.buffer + [m]), enqueued := p.enqueued + [m]))
  {
  }

  lemma FreshPeerInv(since: nat)
    ensures PeerInv(Peer(FRESH, Idle, [], [], [], since))
  {
  }

  lemma RegisterKeepsHub(s: State, c: Client)
    requires HubInv(s) && Enabled(s, Register(c))
    ensures HubInv(RegisterClient(s, c))
  {
  }

  lemma RegisterKeepsClient(s: State, c: Client, d: Client)
    requires HubInv(s) && Enabled(s, Register(c)) && (d == c || (d in s.peers && ClientInv(s, d)))
    ensures ClientInv(RegisterClient(s, c), d)
  {
    hide PeerInv;
    FreshPeerInv(|s.broadcasts|);
  }

  lemma RegisterKeepsInv(s: State, c: Client)
    requires Inv(s) && Enabled(s, Register(c))
    ensures Inv(RegisterClient(s, c))
  {
    RegisterKeepsHub(s, c);
    hide HubInv, ClientInv;
    var t := RegisterClient(s, c);
    forall d | d in t.peers ensures ClientInv(t, d) { RegisterKeepsClient(s, c, d); }
  }

  lemma UnregisterKeepsHub(s: State, c: Client)
    requires Inv(s) && Enabled(s, Unregister(c))
    ensures UnregisterClient(s, c).Some? && HubInv(UnregisterClient(s, c).value)
    ensures UnregisterClient(s, c).value.peers.Keys == s.peers.Keys
  {
    assert ClientInv(s, c);
    hide PeerInv, SegmentInv;
  }

  lemma UnregisterKeepsClient(s: State, c: Client, d: Client)
    requires Enabled(s, Unregister(c)) && d in s.peers && ClientInv(s, d) && UnregisterClient(s, c).Some?
    ensures d in UnregisterClient(s, c).value.peers && ClientInv(UnregisterClient(s, c).value, d)
  {
    hide PeerInv;
    if d == c { CloseKeepsPeerInv(s.peers[c]); }
  }

  lemma UnregisterKeepsInv(s: State, c: Client)
    requires Inv(s) && Enabled(s, Unregister(c))
    ensures UnregisterClient(s, c).Some? && Inv(UnregisterClient(s, c).value)
  {
    UnregisterKeepsHub(s, c);
    hide UnregisterClient, HubInv, ClientInv;
    var t := UnregisterClient(s, c).value;
    forall d | d in s.peers ensures d in t.peers && ClientInv(t, d) { UnregisterKeepsClient(s, c, d); }
  }

  lemma BeginKeepsInv(s: State, m: Message)
    requires Inv(s) && s.sending.Nothing?
    ensures Inv(BeginBroadcast(s, m))
  {
    hide PeerInv;
    var t := BeginBroadcast(s, m);
    forall d | d in t.peers ensures ClientInv(t, d) { assert ClientInv(s, d); }
  }

  lemma FinishKeepsInv(s: State)
    requires Inv(s) && Enabled(s, Finish)
    ensures Inv(FinishBroadcast(s))
  {
    hide PeerInv;
    var t := FinishBroadcast(s);
    forall d | d in t.peers ensures ClientInv(t, d) { assert ClientInv(s, d); }
  }

  lemma DeliverKeepsInv(s: State, c: Client)
    requires Inv(s) && Enabled(s, Deliver(c))
    ensures DeliverTo(s, c).Some? && Inv(DeliverTo(s, c).value)
  {
    hide Inv, EnqueueFor, DropSlow;
    if |s.peers[c].chan.buffer| < SEND_BUFFER {
      EnqueueKeepsInv(s, c);
    } else {
      DropKeepsInv(s, c);
    }
  }

  lemma EnqueueKeepsInv(s: State, c: Client)
    requires Inv(s) && Enabled(s, Deliver(c)) && |s.peers[c].chan.buffer| < SEND_BUFFER
    ensures EnqueueFor(s, c).Some? && Inv(EnqueueFor(s, c).value)
  {
    hide PeerInv, SegmentInv;
    assert ClientInv(s, c);
    var t := EnqueueFor(s, c).value;
    forall d | d in t.peers ensures ClientInv(t, d) {
      assert ClientInv(s, d);
      EnqueueKeepsSegment(s, c, d);
      if d == c { SendKeepsPeerInv(s.peers[c], s.sending.message); }
    }
  }

  lemma EnqueueKeepsSegment(s: State, c: Client, d: Client)
    requires HubInv(s) && Enabled(s, Deliver(c)) && EnqueueFor(s, c).Some?
    requires d in s.peers && SegmentInv(s, d, s.peers[d])
    ensures SegmentInv(EnqueueFor(s, c).value, d, EnqueueFor(s, c).value.peers[d])
  {
    hide PeerInv;
  }

  lemma DropKeepsInv(s: State, c: Client)
    requires Inv(s) && Enabled(s, Deliver(c))
    ensures DropSlow(s, c).Some? && Inv(DropSlow(s, c).value)
  {
    hide PeerInv;
    assert ClientInv(s, c);
    CloseKeepsPeerInv(s.peers[c]);
    var t := DropSlow(s, c).value;
    forall d | d in t.peers ensures ClientInv(t, d) { assert ClientInv(s, d); }
  }

  lemma WriterKeepsInv(s: State, step: Step)
    requires Inv(s) && Enabled(s, step) && IsWriterStep(step)
    ensures Inv(WriterMoves(s, step)) && SameChannelUse(s.peers[step.client], WriterMoves(s, step).peers[step.client])
  {
    hide PeerInv, WriterStep, WriterEnabled;
    var t := WriterMoves(s, step);
    assert ClientInv(s, step.client);
    WriterKeepsPeerInv(s.peers[step.client], step);
    forall d | d in t.peers ensures ClientInv(t, d) { assert ClientInv(s, d); }
  }

  lemma StepKeepsInv(s: State, step: Step)
    requires Inv(s) && Enabled(s, step)
    ensures Apply(s, step).Some? && Inv(Apply(s, step).value)
  {
    hide Inv, RegisterClient, UnregisterClient, BeginBroadcast, DeliverTo, FinishBroadcast, WriterMoves;
    match step
    case Register(c) => RegisterKeepsInv(s, c);
    case Unregister(c) => UnregisterKeepsInv(s, c);
    case Begin(m) => BeginKeepsInv(s, m);
    case Deliver(c) => DeliverKeepsInv(s, c);
    case Finish => FinishKeepsInv(s);
    case _ => WriterKeepsInv(s, step);
  }

  /** No interleaving panics: nothing is sent on a closed channel and no channel is closed twice. */
  lemma {:induction false} RunNeverPanics(steps: seq<Step>)
    ensures !Run(steps).Panicked?
    ensures Run(steps).Reached? ==> Inv(Run(steps).state)
  {
    hide Inv, Apply;
    if steps == [] {
      EmptyInv();
    } else {
      var before, last := Run(steps[..|steps| - 1]), steps[|steps| - 1];
      RunNeverPanics(steps[..|steps| - 1]);
      if before.Reached? && Enabled(before.state, last) { StepKeepsInv(before.state, last); }
    }
  }

  lemma EmptyInv()
    ensures Inv(EMPTY)
  {
  }

  // ---------------------------------------------------------------- consequences

  /** In every reachable state a registered client's channel is open exactly while it is in the map, and the
      gauge counts registrations less unregistrations and is at least the size of the map. */
  lemma OpenIffInMap(steps: seq<Step>)
    requires Run(steps).Reached?
    ensures var s := Run(steps).state;
            && (forall c | c in s.registered :: c in s.peers && (s.peers[c].chan.open <==> c in s.clients))
            && s.gauge == |s.registered| - |s.unregistered|
            && s.gauge >= |s.clients|
  {
    RunNeverPanics(steps);
    var s := Run(steps).state;
    SubsetSize(s.unregistered, s.registered);
    SubsetSize(s.clients, s.registered - s.unregistered);
  }

  /** Everything enqueued for a client is one contiguous stretch of the broadcasts, starting with the first
      begun after it registered and, while it is in the map, ending with the last that reached its turn. */
  lemma EnqueuedIsSegment(steps: seq<Step>, c: Client)
    requires Run(steps).Reached? && c in Run(steps).state.peers
    ensures var s := Run(steps).state;
            var p := s.peers[c];
            && p.since + |p.enqueued| <= |s.broadcasts|
            && p.enqueued == s.broadcasts[p.since..p.since + |p.enqueued|]
            && (c in s.clients ==> p.since + |p.enqueued| == Due(s, c))
  {
    RunNeverPanics(steps);
    hide PeerInv;
    assert ClientInv(Run(steps).state, c);
  }

  /** Once a client has left the map its stretch never grows again, whatever follows. */
  lemma {:induction false} SegmentEndsWithMembership(steps: seq<Step>, more: seq<Step>, c: Client)
    requires Run(steps + more).Reached?
    requires Run(steps).Reached? && c in Run(steps).state.peers && c !in Run(steps).state.clients
    ensures var s, t := Run(steps).state, Run(steps + more).state;
            && c in t.peers && c !in t.clients
            && t.peers[c].enqueued == s.peers[c].enqueued && t.peers[c].since == s.peers[c].since
  {
    hide Apply, Inv, Enabled;
    if more == [] {
      assert steps + more == steps;
    } else {
      var init, last := more[..|more| - 1], more[|more| - 1];
      assert (steps + more)[..|steps + more| - 1] == steps + init;
      SegmentEndsWithMembership(steps, init, c);
      RunNeverPanics(steps + init);
      LeftStaysOut(Run(steps + init).state, last, c);
    }
  }

  lemma TodoAreClients(s: State)
    requires Inv(s)
    ensures s.peers.Keys == s.registered && (s.sending.Sending? ==> s.sending.todo <= s.clients)
  {
  }

  lemma LeftStaysOut(s: State, step: Step, c: Client)
    requires Inv(s) && Enabled(s, step) && c in s.peers && c !in s.clients
    ensures Apply(s, step).Some?
    ensures var t := Apply(s, step).value;
            && c in t.peers && c !in t.clients
            && t.peers[c].enqueued == s.peers[c].enqueued && t.peers[c].since == s.peers[c].since
  {
    hide Inv, WriterStep, WriterEnabled;
    StepKeepsInv(s, step);
    TodoAreClients(s);
    if IsWriterStep(step) { WriterKeepsInv(s, step); }
  }

  /** What a client's writer has put into frames, batching and all, is a prefix of that stretch. */
  lemma WrittenIsPrefix(steps: seq<Step>, c: Client)
    requires Run(steps).Reached? && c in Run(steps).state.peers
    ensures var s := Run(steps).state;
            var p := s.peers[c];
            p.since <= |s.broadcasts| && Flatten(p.frames) + OpenFrame(p.writer) <= s.broadcasts[p.since..]
  {
    EnqueuedIsSegment(steps, c);
    RunNeverPanics(steps);
    hide Run;
    var s := Run(steps).state;
    assert ClientInv(s, c);
    PeerPrefix(s.peers[c]);
    assert s.peers[c].enqueued <= s.broadcasts[s.peers[c].since..];
  }

  lemma PeerPrefix(p: Peer)
    requires PeerInv(p)
    ensures Flatten(p.frames) + OpenFrame(p.writer) <= p.enqueued
  {
    var written := Flatten(p.frames) + OpenFrame(p.writer);
    assert written + p.lost + p.chan.buffer == written + (p.lost + p.chan.buffer);
  }

  // ---------------------------------------------------------------- frame text

  /** A frame on the wire: its messages with a newline between them. */
  function FrameText(frame: seq<Message>): string { Join(frame, '\n') }

  function ReadFrames(texts: seq<string>): seq<Message> {
    if texts == [] then [] else ReadFrames(texts[..|texts| - 1]) + Split(texts[|texts| - 1], '\n')
  }

  function FrameTexts(frames: seq<seq<Message>>): (r: seq<string>)
    ensures |r| == |frames| && forall i | 0 <= i < |r| :: r[i] == FrameText(frames[i])
  {
    seq(|frames|, i requires 0 <= i < |frames| => FrameText(frames[i]))
  }

  lemma {:induction false} FlattenHolds(frames: seq<seq<Message>>, i: nat, j: nat)
    requires i < |frames| && j < |frames[i]|
    ensures frames[i][j] in Flatten(frames)
  {
    if i < |frames| - 1 {
      FlattenHolds(frames[..|frames| - 1], i, j);
    }
  }

  /** A browser that splits each frame it receives at newlines reads a prefix of the client's stretch, when no
      broadcast message contains a newline. */
  lemma ReaderSeesPrefix(steps: seq<Step>, c: Client)
    requires Run(steps).Reached? && c in Run(steps).state.peers
    requires FreeOf(Run(steps).state.broadcasts, '\n')
    ensures var s := Run(steps).state;
            var p := s.peers[c];
            p.since <= |s.broadcasts| && ReadFrames(FrameTexts(p.frames)) <= s.broadcasts[p.since..]
  {
    WrittenIsPrefix(steps, c);
    RunNeverPanics(steps);
    hide Run;
    var s := Run(steps).state;
    assert ClientInv(s, c);
    var p := s.peers[c];
    hide ClientInv, HubInv;
    var read := Flatten(p.frames);
    assert read <= read + OpenFrame(p.writer);
    assert read <= s.broadcasts[p.since..];
    FramesFree(p.frames, s.broadcasts, p.since);
    FramesReadBack(p.frames);
  }

  lemma FramesFree(frames: seq<seq<Message>>, broadcasts: seq<Message>, since: nat)
    requires FreeOf(broadcasts, '\n') && since <= |broadcasts| && Flatten(frames) <= broadcasts[since..]
    ensures forall i | 0 <= i < |frames| :: FreeOf(frames[i], '\n')
  {
    var read := Flatten(frames);
    forall i, j | 0 <= i < |frames| && 0 <= j < |frames[i]| ensures '\n' !in frames[i][j] {
      FlattenHolds(frames, i, j);
      var k :| 0 <= k < |read| && read[k] == frames[i][j];
      assert read[k] == broadcasts[since..][k] == broadcasts[since + k];
    }
  }

  /** Splitting the frames at newlines gives back the messages, when no message contains one. */
  lemma {:induction false} FramesReadBack(frames: seq<seq<Message>>)
    requires forall i | 0 <= i < |frames| :: frames[i] != [] && FreeOf(frames[i], '\n')
    ensures ReadFrames(FrameTexts(frames)) == Flatten(frames)
  {
    if frames != [] {
      var init, last := frames[..|frames| - 1], frames[|frames| - 1];
      FramesReadBack(init);
      JoinThenSplit(last, '\n');
      assert FrameTexts(frames)[..|frames| - 1] == FrameTexts(init);
    }
  }
}
