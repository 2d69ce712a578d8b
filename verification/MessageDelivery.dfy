/** The WebSocket sender on top of the write queue: what the peer has been delivered at
    any moment of any run, errors included. */
module MessageDelivery {
  import opened Bytes
  import opened Incremental
  import opened WebsocketFrames
  import opened WebsocketMessages
  import opened WriteQueue
  import HttpParser
  import opened HttpSession

  /** `sendMessage` by any thread, or a step of the socket. */
  datatype Action = Send(message: Message, resource: Resource) | Socket(step: Step)

  predicate Possible(q: Queue, a: Action) {
    a.Socket? ==> !a.step.WriteStep? && Enabled(q, a.step)
  }

  /** The serialized frame is one buffer that its own memory keeps alive; a message that
      cannot be sent makes no write call. */
  function Act(q: Queue, a: Action): Queue
    requires Possible(q, a)
  {
    match a
    case Send(m, r) => if Sendable(m) then Write(q, [Buffer(Sent(m), Some(r))], Some(r)).0 else q
    case Socket(e) => Next(q, e)
  }

  ghost predicate Plays(q: Queue, actions: seq<Action>, r: Queue)
    decreases |actions|
  {
    if actions == [] then q == r else Possible(q, actions[0]) && Plays(Act(q, actions[0]), actions[1..], r)
  }

  /** The messages handed to `sendMessage`, in lock order. */
  function Messages(actions: seq<Action>): seq<Message> {
    if actions == [] then []
    else (if actions[0].Send? then [actions[0].message] else []) + Messages(actions[1..])
  }

  lemma ActStep(q: Queue, a: Action)
    requires Invariant(q) && Possible(q, a)
    ensures var q' := Act(q, a);
            Invariant(q') && q'.submitted == q.submitted + if a.Send? then Sent(a.message) else []
  {
    match a {
      case Send(m, r) =>
        if Sendable(m) {
          var buffers := [Buffer(Sent(m), Some(r))];
          InvariantStep(q, WriteStep(buffers, Some(r)));
          assert buffers[1..] == [] && Flat(buffers) == Sent(m) + [];
          assert Sent(m) + [] == Sent(m);
        } else {
          assert q.submitted + [] == q.submitted;
        }
      case Socket(e) =>
        InvariantStep(q, e);
        assert q.submitted + [] == q.submitted;
    }
  }

  lemma {:induction false} SubmittedIsSent(q: Queue, actions: seq<Action>, r: Queue)
    requires Invariant(q) && Plays(q, actions, r)
    ensures Invariant(r) && r.submitted == q.submitted + SentAll(Messages(actions))
    decreases |actions|
  {
    if actions == [] {
      assert q.submitted + [] == q.submitted;
    } else {
      var a := actions[0];
      ActStep(q, a);
      SubmittedIsSent(Act(q, a), actions[1..], r);
      FirstSent(a, Messages(actions[1..]));
      AppendAssociates(q.submitted, if a.Send? then Sent(a.message) else [], SentAll(Messages(actions[1..])));
    }
  }

  lemma FirstSent(a: Action, ms: seq<Message>)
    ensures SentAll((if a.Send? then [a.message] else []) + ms)
         == (if a.Send? then Sent(a.message) else []) + SentAll(ms)
  {
    if a.Send? {
      assert ([a.message] + ms)[1..] == ms;
    } else {
      assert [] + ms == ms;
      assert [] + SentAll(ms) == SentAll(ms);
    }
  }

  lemma SentIsPrefix(q: Queue)
    requires Invariant(q)
    ensures q.sent <= q.submitted && (!q.lastError && !q.inProgress ==> q.sent == q.submitted)
  {
  }

  lemma TailIsPrefix(sent: seq<Byte>, head: seq<Byte>, tail: seq<Byte>)
    requires sent <= head + tail && |head| <= |sent|
    ensures sent[|head|..] <= tail && (sent == head + tail ==> sent[|head|..] == tail)
  {
    assert sent == (head + tail)[..|sent|];
  }

  /** What has reached the socket is the start of what was there before the messages and
      of the messages behind it, and the whole of it once idle and healthy. */
  lemma SentBehind(q0: Queue, actions: seq<Action>, q: Queue)
    requires Invariant(q0) && Plays(q0, actions, q)
    ensures var all := q0.submitted + SentAll(Messages(actions));
            q.sent <= all && (!q.lastError && !q.inProgress ==> q.sent == all)
  {
    SubmittedIsSent(q0, actions, q);
    SentIsPrefix(q);
  }

  lemma ReceivedIsSent(q0: Queue, actions: seq<Action>, q: Queue, c: Connection)
    requires Invariant(q0) && Plays(q0, actions, q) && c.parser.state == HeaderByte1 && |q0.submitted| <= |q.sent|
    ensures var seen := Receive(c, q.sent[|q0.submitted|..]).1;
            var all := Filter(Messages(actions));
            seen <= all && (!q.lastError && !q.inProgress ==> seen == all)
  {
    var ms := Messages(actions);
    SentBehind(q0, actions, q);
    TailIsPrefix(q.sent, q0.submitted, SentAll(ms));
    MessagesRoundTrip(c, ms);
    RunPrefix(ConnectionStep, c, q.sent[|q0.submitted|..], SentAll(ms));
  }

  lemma DeliveriesPrefix(a: seq<Message>, b: seq<Message>)
    requires a <= b
    ensures Deliveries(a) <= Deliveries(b)
  {
  }

  /** Whatever has been written, sent or has failed on the connection before the first
      message, the reply to the upgrade request among it, and whatever fails from then on,
      in a run whose only writes are `sendMessage` calls: what has reached the socket is the
      earlier bytes, then the messages in lock order, as far as it goes. A peer that has
      read those behind the earlier bytes, in any reads, has been delivered the first so
      many of the sendable messages, whole; all of them once the connection is idle and
      healthy, when no earlier bytes are missing either. */
  lemma PeerIsDelivered(earlier: seq<Step>, q0: Queue, actions: seq<Action>, q: Queue,
                        r: HttpParser.Request, c: Connection, chunks: seq<seq<Byte>>)
    requires Reaches(IDLE, earlier, q0) && Plays(q0, actions, q) && c.parser.state == HeaderByte1
    ensures q.sent <= q0.submitted + SentAll(Messages(actions))
    ensures !q.lastError && !q.inProgress ==> |q0.submitted| <= |q.sent|
    ensures |q0.submitted| <= |q.sent| && Concat(chunks) == q.sent[|q0.submitted|..] ==>
      var seen := Callbacks(Upgraded(r, c), chunks).1;
      var all := Deliveries(Filter(Messages(actions)));
      seen <= all && (!q.lastError && !q.inProgress ==> seen == all)
  {
    InvariantRun(IDLE, earlier, q0);
    SentBehind(q0, actions, q);
    if |q0.submitted| <= |q.sent| && Concat(chunks) == q.sent[|q0.submitted|..] {
      ReceivedIsSent(q0, actions, q, c);
      CallbacksAreRun(Upgraded(r, c), chunks);
      FollowUpgraded(r, c, Concat(chunks));
      DeliveriesPrefix(Receive(c, Concat(chunks)).1, Filter(Messages(actions)));
    }
  }
}
