/** The hub and the writers as objects with mutable fields. */
module HubServer {
  import opened Options
  import opened Hub

  /** What one broadcast does to a client that is in the map. */
  function AfterSend(p: Peer, m: Message): Peer {
    if |p.chan.buffer| < SEND_BUFFER
    then p.(chan := p.chan.(buffer := p.chan.buffer + [m]), enqueued := p.enqueued + [m])
    else p.(chan := p.chan.(open := false))
  }

  /** A whole broadcast with no writer in between, whatever order the client map is walked in. */
  ghost function AfterBroadcast(s: State, m: Message): State
    requires s.clients <= s.peers.Keys
  {
    s.(clients := (set c | c in s.clients && |s.peers[c].chan.buffer| < SEND_BUFFER),
       peers := (map c | c in s.peers :: if c in s.clients then AfterSend(s.peers[c], m) else s.peers[c]),
       broadcasts := s.broadcasts + [m])
  }

  class Server {
    var clients: set<Client>
    var peers: map<Client, Peer>
    var gauge: int
    var sending: Sending
    ghost var registered: set<Client>
    ghost var unregistered: set<Client>
    var broadcasts: seq<Message>  // history, read only to date a registration

    ghost function View(): State
      reads this
    {
      State(clients, peers, gauge, sending, registered, unregistered, broadcasts)
    }

    constructor ()
      ensures View() == EMPTY
    {
      clients, peers, gauge, sending := {}, map[], 0, Nothing;
      registered, unregistered, broadcasts := {}, {}, [];
    }

    method Register(c: Client)
      requires Inv(View()) && Enabled(View(), Step.Register(c))
      modifies this
      ensures View() == RegisterClient(old(View()), c) && Inv(View())
      ensures clients == old(clients) + {c} && gauge == old(gauge) + 1
    {
      RegisterKeepsInv(View(), c);
      peers := peers[c := Peer(FRESH, Idle, [], [], [], |broadcasts|)];
      clients := clients + {c};
      registered := registered + {c};
      gauge := gauge + 1;
    }

    method Unregister(c: Client)
      requires Inv(View()) && Enabled(View(), Step.Unregister(c))
      modifies this
      ensures Some(View()) == UnregisterClient(old(View()), c) && Inv(View())
      ensures clients == old(clients) - {c} && gauge == old(gauge) - 1
    {
      hide Inv;
      UnregisterKeepsInv(View(), c);
      if c in clients {
        clients := clients - {c};
        peers := peers[c := peers[c].(chan := CloseChan(peers[c].chan).value)];
      }
      gauge := gauge - 1;
      unregistered := unregistered + {c};
    }

    method DeliverOne(c: Client)
      requires Inv(View()) && Enabled(View(), Deliver(c))
      modifies this
      ensures Some(View()) == DeliverTo(old(View()), c) && Inv(View())
    {
      hide Inv;
      DeliverKeepsInv(View(), c);
      var p := peers[c];
      sending := sending.(todo := sending.todo - {c});
      if |p.chan.buffer| < SEND_BUFFER {
        var ch := SendOn(p.chan, sending.message).value;
        peers := peers[c := p.(chan := ch, enqueued := p.enqueued + [sending.message])];
      } else {
        peers := peers[c := p.(chan := CloseChan(p.chan).value)];
        clients := clients - {c};
      }
    }

    /** Every client in the map gets the message or, if its buffer is full, is closed and dropped. */
    method Broadcast(m: Message)
      requires Inv(View()) && sending.Nothing?
      modifies this
      ensures Inv(View())
      ensures old(clients) <= old(peers).Keys && View() == AfterBroadcast(old(View()), m)
    {
      hide Inv;
      ghost var before := View();
      InvMeansPeers(before);
      BeginKeepsInv(before, m);
      sending, broadcasts := Sending(m, clients), broadcasts + [m];
      while sending.todo != {}
        invariant Inv(View()) && sending.Sending? && sending.message == m
        invariant sending.todo <= before.clients
        invariant Walked(before, View(), m, sending.todo)
        decreases if sending.Sending? then sending.todo else {}
      {
        var c :| c in sending.todo;
        ghost var was := View();
        DeliverOne(c);
        WalkedOneMore(before, was, View(), m, c);
      }
      FinishKeepsInv(View());
      sending := Nothing;
      WalkedAll(before, View(), m);
    }

    /** The writer's first receive opens a frame; then it reads the queue length. */
    method TakeAndCount(c: Client)
      requires Inv(View()) && c in peers && peers[c].writer.Idle? && peers[c].chan.buffer != []
      modifies this`peers
      ensures Inv(View()) && peers == old(peers)[c := CountQueue(TakeFirst(old(peers[c]), true))]
    {
      hide Inv;
      WriterKeepsInv(View(), Take(c, true));
      peers := peers[c := TakeFirst(peers[c], true)];
      WriterKeepsInv(View(), Count(c));
      peers := peers[c := CountQueue(peers[c])];
    }

    method TakeOneMore(c: Client)
      requires Inv(View()) && c in peers && peers[c].writer.Batching? && peers[c].writer.left > 0
      modifies this`peers
      ensures Inv(View()) && peers == old(peers)[c := TakeNext(old(peers[c]))]
    {
      hide Inv;
      WriterKeepsInv(View(), Batch(c));
      peers := peers[c := TakeNext(peers[c])];
    }

    method FlushFrame(c: Client)
      requires Inv(View()) && c in peers && peers[c].writer.Batching? && peers[c].writer.left == 0
      modifies this`peers
      ensures Inv(View()) && peers == old(peers)[c := CloseFrame(old(peers[c]), true)]
    {
      hide Inv;
      WriterKeepsInv(View(), EndFrame(c, true));
      peers := peers[c := CloseFrame(peers[c], true)];
    }

    /** The writer empties the client's queue as it stood after its first receive into one frame. */
    method WriteFrame(c: Client)
      requires Inv(View()) && c in peers && peers[c].writer.Idle? && peers[c].chan.buffer != []
      modifies this`peers
      ensures Inv(View())
      ensures c in peers && peers == old(peers)[c := peers[c]]
      ensures var was := old(peers[c]);
              peers[c] == was.(chan := was.chan.(buffer := []), frames := was.frames + [was.chan.buffer])
    {
      hide Inv;
      ghost var was := peers[c];
      BatchedFirst(was);
      TakeAndCount(c);
      var n := peers[c].writer.left;
      for i := 0 to n
        invariant Inv(View())
        invariant c in peers && peers == old(peers)[c := peers[c]]
        invariant n + 1 == |was.chan.buffer| && peers[c] == Batched(was, i)
      {
        BatchedOneMore(was, i);
        TakeOneMore(c);
      }
      BatchedAll(was);
      FlushFrame(c);
    }
  }

  /** A peer whose writer has put the first message and `i` more of the queue into its frame. */
  ghost function Batched(was: Peer, i: nat): Peer
    requires i < |was.chan.buffer|
  {
    var queue := was.chan.buffer;
    was.(chan := was.chan.(buffer := queue[i + 1..]), writer := Batching(queue[..i + 1], |queue| - 1 - i))
  }

  lemma BatchedOneMore(was: Peer, i: nat)
    requires i + 1 < |was.chan.buffer|
    ensures TakeNext(Batched(was, i)) == Batched(was, i + 1)
  {
    var queue := was.chan.buffer;
    assert queue[i + 1..][1..] == queue[i + 2..] && queue[..i + 1] + [queue[i + 1]] == queue[..i + 2];
  }

  lemma BatchedFirst(was: Peer)
    requires was.writer.Idle? && was.chan.buffer != []
    ensures CountQueue(TakeFirst(was, true)) == Batched(was, 0)
  {
    assert was.chan.buffer[..1] == [was.chan.buffer[0]];
  }

  lemma BatchedAll(was: Peer)
    requires was.chan.buffer != []
    ensures var queue, all := was.chan.buffer, Batched(was, |was.chan.buffer| - 1);
            all.chan.buffer == [] && all.writer == Batching(queue, 0)
  {
    var queue := was.chan.buffer;
    assert queue[..|queue|] == queue;
  }

  lemma InvMeansPeers(s: State)
    requires Inv(s)
    ensures s.clients <= s.peers.Keys
  {
  }

  /** Midway through a broadcast: clients in `todo` are untouched, the others are as they will be. */
  ghost predicate Walked(before: State, now: State, m: Message, todo: set<Client>) {
    && before.clients <= before.peers.Keys && now.peers.Keys == before.peers.Keys
    && (forall c | c in before.peers ::
          now.peers[c] == if c in before.clients && c !in todo then AfterSend(before.peers[c], m) else before.peers[c])
    && (forall c | c in before.clients ::
          c in now.clients <==> c in todo || |before.peers[c].chan.buffer| < SEND_BUFFER)
    && now.clients <= before.clients
    && now.gauge == before.gauge && now.registered == before.registered && now.unregistered == before.unregistered
    && now.broadcasts == before.broadcasts + [m]
  }

  lemma WalkedOneMore(before: State, was: State, now: State, m: Message, c: Client)
    requires was.sending.Sending? && was.sending.message == m && Enabled(was, Deliver(c)) && c in before.clients
    requires Walked(before, was, m, was.sending.todo) && Some(now) == DeliverTo(was, c)
    ensures now.sending.Sending? && now.sending.message == m && now.sending.todo == was.sending.todo - {c}
    ensures Walked(before, now, m, now.sending.todo)
  {
  }

  lemma WalkedAll(before: State, now: State, m: Message)
    requires Walked(before, now, m, {}) && now.sending.Nothing? && before.sending.Nothing?
    ensures now == AfterBroadcast(before, m)
  {
    assert now.clients == AfterBroadcast(before, m).clients;
    assert now.peers == AfterBroadcast(before, m).peers;
  }
}
