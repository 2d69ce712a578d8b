/** Back-pressure of a multipart stream over the write queue of its connection. The
    sender's own steps interleave with the socket, with other writers and with time. */
module Multipart {
  import opened Bytes
  import opened WriteQueue

  /** One image: the rendered part header, the payload, and the time stamp the caller gives it. */
  datatype Part = Part(stamp: real, header: seq<Byte>, payload: seq<Byte>, headerOwner: nat, payloadOwner: Option<nat>)

  /** A footer the stream remembers: its stamp and a weak reference to its bytes. */
  datatype PendingFooter = PendingFooter(stamp: real, id: nat)

  /** Where the sender is inside `send_part`. */
  datatype Sender =
    | Waiting
    | Checking(part: Part, now: real)
    | SendHeader(part: Part)
    | SendPayload(part: Part)
    | SendFooter(part: Part)
    | PushFooter(part: Part, id: nat)

  /** One write call: whose, and the bytes it submitted. */
  datatype Entry = Entry(own: bool, bytes: seq<Byte>)

  /** The whole system. `written` lists the stamps of all footers ever created, `log`
      every write call in lock order, `accepted` the parts that passed the busy test,
      and `aborted` says that one of the stream's own write calls threw. */
  datatype System = System(
    maxQueueSize: nat,
    boundary: seq<Byte>,
    queue: Queue,
    clock: real,
    footers: seq<PendingFooter>,
    sender: Sender,
    written: seq<real>,
    log: seq<Entry>,
    accepted: seq<Part>,
    aborted: bool)

  function FooterText(boundary: seq<Byte>): seq<Byte> {
    [13, 10, 45, 45] + boundary + [13, 10]
  }

  predicate IsHeld(s: System, id: nat) {
    Held(s.queue, Footer(id))
  }

  /** The busy test drops a footer whose bytes are gone or that is too old. */
  predicate Stale(q: Queue, f: PendingFooter, now: real) {
    !Held(q, Footer(f.id)) || now - f.stamp > 0.5
  }

  /** The delimiter between two parts, in characters. */
  lemma FooterIsDelimiter(boundary: seq<Byte>)
    ensures FooterText(boundary) == Ascii("\r\n--") + boundary + Ascii("\r\n")
  {
    assert Ascii("\r\n--") == [13, 10, 45, 45] && Ascii("\r\n") == [13, 10];
  }

  function Put(s: System, bytes: seq<Byte>, owner: Option<Resource>): (System, bool) {
    var (q, thrown) := Write(s.queue, [Buffer(bytes, owner)], owner);
    (s.(queue := q, log := s.log + [Entry(true, bytes)], aborted := s.aborted || thrown), thrown)
  }

  /** The sender's next step; an exception leaves `send_part`. */
  function OwnStep(s: System): System
    requires s.sender != Waiting
  {
    match s.sender
    case Checking(part, now) =>
      if s.footers != [] && Stale(s.queue, s.footers[0], now) then s.(footers := s.footers[1..])
      else if s.maxQueueSize != 0 && |s.footers| >= s.maxQueueSize then s.(sender := Waiting)
      else s.(sender := SendHeader(part), accepted := s.accepted + [part])
    case SendHeader(part) =>
      var (s1, thrown) := Put(s, part.header, Some(Foreign(part.headerOwner)));
      s1.(sender := if thrown then Waiting else SendPayload(part))
    case SendPayload(part) =>
      var owner := if part.payloadOwner.Some? then Some(Foreign(part.payloadOwner.value)) else None;
      var (s1, thrown) := Put(s, part.payload, owner);
      s1.(sender := if thrown then Waiting else SendFooter(part))
    case SendFooter(part) =>
      var id := |s.written|;
      var (s1, thrown) := Put(s.(written := s.written + [part.stamp]), FooterText(s.boundary), Some(Footer(id)));
      s1.(sender := if thrown then Waiting else PushFooter(part, id))
    case PushFooter(part, id) =>
      s.(sender := Waiting,
         footers := if s.maxQueueSize > 0 then s.footers + [PendingFooter(part.stamp, id)] else s.footers)
  }

  datatype Event =
    | Begin(part: Part)
    | Own
    | Tick(elapsed: real)
    | Connection(step: Step)

  /** Other users of the connection never own this stream's footers. */
  predicate Possible(s: System, e: Event) {
    match e
    case Begin(_) => s.sender == Waiting
    case Own => s.sender != Waiting
    case Tick(elapsed) => elapsed >= 0.0
    case Connection(step) =>
      Enabled(s.queue, step) && (step.WriteStep? && step.resource.Some? ==> step.resource.value.Foreign?)
  }

  function After(s: System, e: Event): System
    requires Possible(s, e)
  {
    match e
    case Begin(part) => s.(sender := Checking(part, s.clock))
    case Own => OwnStep(s)
    case Tick(elapsed) => s.(clock := s.clock + elapsed)
    case Connection(step) =>
      s.(queue := Next(s.queue, step),
         log := if step.WriteStep? then s.log + [Entry(false, Flat(step.buffers))] else s.log)
  }

  function Fresh(maxQueueSize: nat, boundary: seq<Byte>, clock: real): System {
    System(maxQueueSize, boundary, IDLE, clock, [], Waiting, [], [], [], false)
  }

  ghost predicate Runs(s: System, events: seq<Event>, t: System)
    decreases |events|
  {
    if events == [] then s == t else Possible(s, events[0]) && Runs(After(s, events[0]), events[1..], t)
  }

  // ---------------------------------------------------------------- invariant

  predicate Young(s: System, id: nat, now: real)
    requires id < |s.written|
  {
    now - s.written[id] <= 0.5
  }

  /** The time that counts: the clock, or inside the busy test the time it has sampled. */
  function Now(s: System): real {
    if s.sender.Checking? then s.sender.now else s.clock
  }

  predicate Tracked(s: System, id: nat) {
    || (exists i | 0 <= i < |s.footers| :: s.footers[i].id == id)
    || (s.sender.PushFooter? && s.sender.id == id)
  }

  /** The connection has failed and stands still: every further write throws. */
  predicate Stuck(q: Queue) {
    q.lastError && !q.inProgress && q.operations == []
  }

  predicate Sending(s: System) {
    s.sender.SendHeader? || s.sender.SendPayload? || s.sender.SendFooter? || s.sender.PushFooter?
  }

  /** A footer that is held and young is remembered, except the newest one of a
      connection that failed in the middle of its write call. */
  predicate Remembers(s: System) {
    forall id | 0 <= id < |s.written| && IsHeld(s, id) && Young(s, id, Now(s)) ::
      Tracked(s, id) || (id == |s.written| - 1 && s.aborted)
  }

  predicate Bounded(s: System) {
    && (forall i | 0 <= i < |s.footers| ::
          s.footers[i].id < |s.written| && s.footers[i].stamp == s.written[s.footers[i].id])
    && (s.sender.PushFooter? ==> s.sender.id < |s.written| && s.written[s.sender.id] == s.sender.part.stamp)
    && (s.sender.Checking? ==> s.sender.now <= s.clock)
    && |s.footers| <= s.maxQueueSize
    && (Sending(s) || s.aborted ==> |s.footers| < s.maxQueueSize)
  }

  /** After an abort the connection stands still, so the sender never gets past a header again. */
  predicate AbortIsFinal(s: System) {
    s.aborted ==> Stuck(s.queue) && !s.sender.SendPayload? && !s.sender.SendFooter? && !s.sender.PushFooter?
  }

  ghost predicate NotBorn(s: System) {
    forall id: nat :: id >= |s.written| ==> !IsHeld(s, id)
  }

  ghost predicate StreamInvariant(s: System) {
    s.maxQueueSize > 0 && Invariant(s.queue) && Remembers(s) && Bounded(s) && AbortIsFinal(s) && NotBorn(s)
  }

  /** A write call of the stream itself, as a step of the queue. */
  lemma PutStep(s: System, bytes: seq<Byte>, owner: Option<Resource>)
    requires Invariant(s.queue)
    ensures var (t, thrown) := Put(s, bytes, owner);
            && Invariant(t.queue)
            && (thrown ==> Stuck(t.queue))
            && (Stuck(s.queue) ==> thrown)
            && (forall id: nat :: IsHeld(t, id) ==> IsHeld(s, id) || owner == Some(Footer(id)))
  {
    var step := WriteStep([Buffer(bytes, owner)], owner);
    assert Enabled(s.queue, step);
    InvariantStep(s.queue, step);
    var t := Put(s, bytes, owner).0;
    forall id: nat | IsHeld(t, id) ensures IsHeld(s, id) || owner == Some(Footer(id)) {
      HeldStep(s.queue, step, Footer(id));
    }
  }

  lemma CheckingKeeps(s: System)
    requires StreamInvariant(s) && s.sender.Checking?
    ensures StreamInvariant(OwnStep(s))
  {
    var t := OwnStep(s);
    if s.footers != [] && Stale(s.queue, s.footers[0], s.sender.now) {
      forall id | 0 <= id < |t.written| && IsHeld(t, id) && Young(t, id, Now(t))
        ensures Tracked(t, id) || (id == |t.written| - 1 && t.aborted)
      {
        assert IsHeld(s, id) && Young(s, id, Now(s));
        if exists i | 0 <= i < |s.footers| :: s.footers[i].id == id {
          var i :| 0 <= i < |s.footers| && s.footers[i].id == id;
          assert i > 0;
          assert t.footers[i - 1].id == id;
        }
      }
      forall id: nat | id >= |t.written| ensures !IsHeld(t, id) {
        assert !IsHeld(s, id);
      }
    } else {
      SameFooters(s, t);
    }
  }

  /** Steps that create no footer and forget none. */
  lemma SameFooters(s: System, t: System)
    requires Remembers(s) && NotBorn(s)
    requires t.footers == s.footers && t.written == s.written && Now(t) >= Now(s) && (s.aborted ==> t.aborted)
    requires s.sender.PushFooter? ==> t.sender == s.sender
    requires forall id: nat :: IsHeld(t, id) ==> IsHeld(s, id)
    ensures Remembers(t) && NotBorn(t)
  {
    forall id | 0 <= id < |t.written| && IsHeld(t, id) && Young(t, id, Now(t))
      ensures Tracked(t, id) || (id == |t.written| - 1 && t.aborted)
    {
      assert IsHeld(s, id) && Young(s, id, Now(s));
      if exists i | 0 <= i < |s.footers| :: s.footers[i].id == id {
        var i :| 0 <= i < |s.footers| && s.footers[i].id == id;
        assert t.footers[i].id == id;
      }
    }
  }

  lemma WritingKeeps(s: System)
    requires StreamInvariant(s) && (s.sender.SendHeader? || s.sender.SendPayload?)
    ensures StreamInvariant(OwnStep(s))
  {
    var t := OwnStep(s);
    if s.sender.SendHeader? {
      PutStep(s, s.sender.part.header, Some(Foreign(s.sender.part.headerOwner)));
    } else {
      var owner := if s.sender.part.payloadOwner.Some? then Some(Foreign(s.sender.part.payloadOwner.value)) else None;
      PutStep(s, s.sender.part.payload, owner);
    }
    SameFooters(s, t);
  }

  lemma FooterKeeps(s: System)
    requires StreamInvariant(s) && s.sender.SendFooter?
    ensures StreamInvariant(OwnStep(s))
  {
    var t := OwnStep(s);
    var n := |s.written|;
    PutStep(s.(written := s.written + [s.sender.part.stamp]), FooterText(s.boundary), Some(Footer(n)));
    forall id | 0 <= id < |t.written| && IsHeld(t, id) && Young(t, id, Now(t))
      ensures Tracked(t, id) || (id == |t.written| - 1 && t.aborted)
    {
      if id < n {
        assert IsHeld(s, id) && Young(s, id, Now(s));
        var i :| 0 <= i < |s.footers| && s.footers[i].id == id;
        assert t.footers[i].id == id;
      }
    }
    forall id: nat | id >= |t.written| ensures !IsHeld(t, id) {
      assert !IsHeld(s, id);
    }
  }

  lemma PushKeeps(s: System)
    requires StreamInvariant(s) && s.sender.PushFooter?
    ensures StreamInvariant(OwnStep(s))
  {
    var t := OwnStep(s);
    forall id | 0 <= id < |t.written| && IsHeld(t, id) && Young(t, id, Now(t))
      ensures Tracked(t, id) || (id == |t.written| - 1 && t.aborted)
    {
      assert IsHeld(s, id) && Young(s, id, Now(s));
      if s.sender.id == id {
        assert t.footers[|s.footers|].id == id;
      } else {
        var i :| 0 <= i < |s.footers| && s.footers[i].id == id;
        assert t.footers[i].id == id;
      }
    }
    forall id: nat | id >= |t.written| ensures !IsHeld(t, id) {
      assert !IsHeld(s, id);
    }
  }

  lemma ConnectionKeeps(s: System, step: Step)
    requires StreamInvariant(s) && Possible(s, Connection(step))
    ensures StreamInvariant(After(s, Connection(step)))
  {
    var t := After(s, Connection(step));
    InvariantStep(s.queue, step);
    forall id: nat | IsHeld(t, id) ensures IsHeld(s, id) {
      HeldStep(s.queue, step, Footer(id));
    }
    SameFooters(s, t);
  }

  lemma StreamStep(s: System, e: Event)
    requires StreamInvariant(s) && Possible(s, e)
    ensures StreamInvariant(After(s, e))
  {
    match e {
      case Begin(part) => SameFooters(s, After(s, e));
      case Tick(elapsed) => SameFooters(s, After(s, e));
      case Connection(step) => ConnectionKeeps(s, step);
      case Own =>
        if s.sender.Checking? { CheckingKeeps(s); }
        else if s.sender.SendFooter? { FooterKeeps(s); }
        else if s.sender.PushFooter? { PushKeeps(s); }
        else { WritingKeeps(s); }
    }
  }

  lemma {:induction false} StreamRun(s: System, events: seq<Event>, t: System)
    requires StreamInvariant(s) && Runs(s, events, t)
    ensures StreamInvariant(t) && t.maxQueueSize == s.maxQueueSize
    decreases |events|
  {
    if events != [] {
      StreamStep(s, events[0]);
      StreamRun(After(s, events[0]), events[1..], t);
    }
  }

  // ---------------------------------------------------------------- the bound

  /** The footers that the connection still holds and that are at most half a second
      old at a given time. */
  function CongestionAt(s: System, now: real): set<nat> {
    set id: nat | id < |s.written| && IsHeld(s, id) && Young(s, id, now)
  }

  function Ids(fs: seq<PendingFooter>): set<nat> {
    set i | 0 <= i < |fs| :: fs[i].id
  }

  lemma {:induction false} IdsBound(fs: seq<PendingFooter>)
    ensures |Ids(fs)| <= |fs|
    decreases |fs|
  {
    if fs != [] {
      var before := fs[..|fs| - 1];
      IdsBound(before);
      assert Ids(fs) == Ids(before) + {fs[|fs| - 1].id};
    }
  }

  lemma SubsetSize(a: set<nat>, b: set<nat>)
    requires a <= b
    ensures |a| <= |b|
    decreases |a|
  {
    if a != {} {
      var x :| x in a;
      SubsetSize(a - {x}, b - {x});
    }
  }

  lemma CongestionBound(s: System, now: real)
    requires StreamInvariant(s) && now >= Now(s)
    ensures |CongestionAt(s, now)| <= s.maxQueueSize
  {
    IdsBound(s.footers);
    var extra: set<nat> :=
      if s.sender.PushFooter? then {s.sender.id} else if s.aborted && |s.written| > 0 then {|s.written| - 1} else {};
    forall id | id in CongestionAt(s, now) ensures id in Ids(s.footers) + extra {
      assert IsHeld(s, id) && Young(s, id, Now(s));
    }
    SubsetSize(CongestionAt(s, now), Ids(s.footers) + extra);
    assert |Ids(s.footers) + extra| <= |Ids(s.footers)| + |extra|;
  }

  /** At every moment of every run, whatever the socket, the other writers, the clock
      and the callers' time stamps do, at most `maxQueueSize` of the stream's footers
      are both still held by the connection and no older than half a second. */
  lemma BackPressure(maxQueueSize: nat, boundary: seq<Byte>, clock: real, events: seq<Event>, s: System)
    requires maxQueueSize > 0 && Runs(Fresh(maxQueueSize, boundary, clock), events, s)
    ensures |CongestionAt(s, s.clock)| <= maxQueueSize
  {
    StreamRun(Fresh(maxQueueSize, boundary, clock), events, s);
    CongestionBound(s, s.clock);
  }

  // ---------------------------------------------------------------- the busy test is exact

  predicate InPending(q: Queue, id: nat) { Footer(id) in q.pendingResources }

  /** Footers are released in the order in which they were written. */
  ghost predicate Fifo(s: System) {
    && (forall i: nat, j: nat :: i < j < |s.written| && InPending(s.queue, i) ==> InPending(s.queue, j))
    && (forall i: nat, j: nat :: i < j < |s.written| && IsHeld(s, i) ==> IsHeld(s, j))
  }

  /** Until an abort the remembered footers are the last ones written, in writing order. */
  predicate Contiguous(s: System) {
    var n := |s.written| - (if s.sender.PushFooter? then 1 else 0);
    s.aborted || (
      && (forall i | 0 <= i < |s.footers| :: s.footers[i].id == n - |s.footers| + i)
      && (s.sender.PushFooter? ==> s.sender.id == n))
  }

  ghost predicate FifoInvariant(s: System) {
    StreamInvariant(s) && Fifo(s) && Contiguous(s)
  }

  /** A queue step that adds no footer keeps the release order. */
  lemma FifoQueue(s: System, step: Step, t: System)
    requires Fifo(s) && Invariant(s.queue) && Enabled(s.queue, step)
    requires step.WriteStep? && step.resource.Some? ==> step.resource.value.Foreign?
    requires t.queue == Next(s.queue, step) && t.written == s.written
    ensures Fifo(t)
  {
    forall i: nat, j: nat | i < j < |t.written| && InPending(t.queue, i)
      ensures InPending(t.queue, j)
    {
      assert InPending(s.queue, i);
      assert InPending(s.queue, j);
    }
    forall i: nat, j: nat | i < j < |t.written| && IsHeld(t, i)
      ensures IsHeld(t, j)
    {
      HeldStep(s.queue, step, Footer(i));
      assert IsHeld(s, i) && IsHeld(s, j);
      FooterMoves(s.queue, step, i);
      FooterMoves(s.queue, step, j);
    }
  }

  /** A footer stays held over a step unless the step completes the write that holds it. */
  lemma FooterMoves(q: Queue, step: Step, id: nat)
    requires Invariant(q) && Enabled(q, step)
    requires step.WriteStep? && step.resource.Some? ==> step.resource.value.Foreign?
    ensures step.Complete? || step.Fail? ==> (Held(Next(q, step), Footer(id)) <==> InPending(q, id))
    ensures !step.Complete? && !step.Fail? ==> (Held(Next(q, step), Footer(id)) <==> Held(q, Footer(id)))
  {
    InvariantStep(q, step);
    HeldIff(q, Footer(id));
    HeldIff(Next(q, step), Footer(id));
  }

  /** Writing a footer puts it behind all others. */
  lemma FifoFooter(s: System, bytes: seq<Byte>, stamp: real)
    requires Fifo(s) && Invariant(s.queue) && NotBorn(s)
    ensures Fifo(Put(s.(written := s.written + [stamp]), bytes, Some(Footer(|s.written|))).0)
  {
    var n := |s.written|;
    var owner := Some(Footer(n));
    var t := Put(s.(written := s.written + [stamp]), bytes, owner).0;
    var step := WriteStep([Buffer(bytes, owner)], owner);
    assert Enabled(s.queue, step);
    InvariantStep(s.queue, step);
    HeldIff(t.queue, Footer(n));
    forall i: nat, j: nat | i < j < |t.written| && InPending(t.queue, i) ensures InPending(t.queue, j) {
      assert InPending(s.queue, i);
      assert j < n ==> InPending(s.queue, j);
    }
    forall i: nat, j: nat | i < j < |t.written| && IsHeld(t, i) ensures IsHeld(t, j) {
      HeldStep(s.queue, step, Footer(i));
      assert IsHeld(s, i);
      if j < n {
        assert IsHeld(s, j);
        WriteKeepsHeld(s.queue, step.buffers, owner, Footer(j));
      }
    }
  }

  lemma WriteKeepsHeld(q: Queue, buffers: seq<Buffer>, resource: Option<Resource>, r: Resource)
    requires AtMostOne(q) && Held(q, r)
    ensures Held(Write(q, buffers, resource).0, r)
  {
    HeldIff(q, r);
    HeldIff(Write(q, buffers, resource).0, r);
  }

  lemma FifoPut(s: System, bytes: seq<Byte>, owner: Option<Resource>)
    requires Fifo(s) && Invariant(s.queue) && (owner.Some? ==> owner.value.Foreign?)
    ensures Fifo(Put(s, bytes, owner).0)
  {
    var step := WriteStep([Buffer(bytes, owner)], owner);
    assert Enabled(s.queue, step);
    FifoQueue(s, step, Put(s, bytes, owner).0);
  }

  /** Steps that leave queue and footers alone. */
  lemma FifoSame(s: System, t: System)
    requires Fifo(s) && t.queue == s.queue && t.written == s.written
    ensures Fifo(t)
  {
    forall i: nat, j: nat | i < j < |t.written| && IsHeld(t, i) ensures IsHeld(t, j) {
      assert IsHeld(s, i) && IsHeld(s, j);
    }
  }

  lemma FifoOwn(s: System)
    requires FifoInvariant(s) && s.sender != Waiting
    ensures Fifo(OwnStep(s)) && Contiguous(OwnStep(s))
  {
    match s.sender {
      case Checking(_, _) => FifoSame(s, OwnStep(s));
      case SendHeader(part) =>
        FifoPut(s, part.header, Some(Foreign(part.headerOwner)));
        FifoSame(Put(s, part.header, Some(Foreign(part.headerOwner))).0, OwnStep(s));
      case SendPayload(part) =>
        var owner := if part.payloadOwner.Some? then Some(Foreign(part.payloadOwner.value)) else None;
        FifoPut(s, part.payload, owner);
        FifoSame(Put(s, part.payload, owner).0, OwnStep(s));
      case SendFooter(part) =>
        FifoFooter(s, FooterText(s.boundary), part.stamp);
        var s1 := s.(written := s.written + [part.stamp]);
        FifoSame(Put(s1, FooterText(s.boundary), Some(Footer(|s.written|))).0, OwnStep(s));
      case PushFooter(_, _) => FifoSame(s, OwnStep(s));
    }
  }

  lemma {:induction false} FifoRun(s: System, events: seq<Event>, t: System)
    requires FifoInvariant(s) && Runs(s, events, t)
    ensures FifoInvariant(t) && t.maxQueueSize == s.maxQueueSize
    decreases |events|
  {
    if events != [] {
      var e := events[0];
      StreamStep(s, e);
      match e {
        case Begin(_) => FifoSame(s, After(s, e));
        case Tick(_) => FifoSame(s, After(s, e));
        case Own => FifoOwn(s);
        case Connection(step) => FifoQueue(s, step, After(s, e));
      }
      FifoRun(After(s, e), events[1..], t);
    }
  }

  lemma {:induction false} IdsExact(fs: seq<PendingFooter>)
    requires forall i, j | 0 <= i < j < |fs| :: fs[i].id < fs[j].id
    ensures |Ids(fs)| == |fs|
    decreases |fs|
  {
    if fs != [] {
      var before := fs[..|fs| - 1];
      IdsExact(before);
      assert Ids(fs) == Ids(before) + {fs[|fs| - 1].id};
    }
  }

  /** The busy test has popped what it pops and now decides. */
  predicate Decides(s: System) {
    s.sender.Checking? && (s.footers == [] || !Stale(s.queue, s.footers[0], s.sender.now))
  }

  predicate Refuses(s: System) {
    s.sender.Checking? && OwnStep(s).sender == Waiting
  }

  lemma FrontIsCongested(s: System)
    requires FifoInvariant(s) && Decides(s) && Refuses(s)
    ensures !s.aborted && s.footers[0].id in CongestionAt(s, s.sender.now)
    ensures s.footers[0].id + s.maxQueueSize <= |s.written|
  {
    assert |s.footers| == s.maxQueueSize;
    assert s.footers[0].stamp == s.written[s.footers[0].id];
  }

  lemma CongestedIsRemembered(s: System, id: nat)
    requires FifoInvariant(s) && s.sender.Checking? && !s.aborted && id in CongestionAt(s, s.sender.now)
    ensures id + |s.footers| >= |s.written|
  {
    assert IsHeld(s, id) && Young(s, id, Now(s));
    assert Tracked(s, id);
    var i :| 0 <= i < |s.footers| && s.footers[i].id == id;
  }

  /** Whatever the time stamps: a part is refused if and only if the stream has not been
      aborted and some footer, other than the last `maxQueueSize - 1` written, is held
      and young at the time that the busy test has sampled. Otherwise the part is sent. */
  lemma BusyExactly(maxQueueSize: nat, boundary: seq<Byte>, clock: real, events: seq<Event>, s: System)
    requires maxQueueSize > 0 && Runs(Fresh(maxQueueSize, boundary, clock), events, s) && Decides(s)
    ensures Refuses(s) <==>
      !s.aborted && exists id :: id in CongestionAt(s, s.sender.now) && id + maxQueueSize <= |s.written|
    ensures !Refuses(s) ==> OwnStep(s).sender == SendHeader(s.sender.part)
  {
    FifoRun(Fresh(maxQueueSize, boundary, clock), events, s);
    if Refuses(s) {
      FrontIsCongested(s);
    }
    if !s.aborted {
      forall id | id in CongestionAt(s, s.sender.now) ensures id + |s.footers| >= |s.written| {
        CongestedIsRemembered(s, id);
      }
    }
  }

  lemma RememberedAreCongested(s: System)
    requires FifoInvariant(s) && Decides(s) && !s.aborted
    requires forall i, j | 0 <= i < j < |s.written| :: s.written[i] <= s.written[j]
    ensures Ids(s.footers) == CongestionAt(s, s.sender.now)
  {
    forall id | id in Ids(s.footers) ensures id in CongestionAt(s, s.sender.now) {
      var k :| 0 <= k < |s.footers| && s.footers[k].id == id;
      var first := s.footers[0];
      if k > 0 {
        assert first.id < id;
        assert IsHeld(s, first.id) && s.written[first.id] <= s.written[id];
      }
    }
  }

  /** With stamps that do not go back this is the limit: a part is refused if and only if
      the stream has not been aborted and `maxQueueSize` footers are held and young. */
  lemma BusyAtLimit(maxQueueSize: nat, boundary: seq<Byte>, clock: real, events: seq<Event>, s: System)
    requires maxQueueSize > 0 && Runs(Fresh(maxQueueSize, boundary, clock), events, s) && Decides(s)
    requires forall i, j | 0 <= i < j < |s.written| :: s.written[i] <= s.written[j]
    ensures Refuses(s) <==> !s.aborted && |CongestionAt(s, s.sender.now)| == maxQueueSize
  {
    FifoRun(Fresh(maxQueueSize, boundary, clock), events, s);
    if !s.aborted {
      RememberedAreCongested(s);
      IdsExact(s.footers);
    }
  }

  // ---------------------------------------------------------------- order of the parts

  function Mine(log: seq<Entry>): seq<seq<Byte>> {
    if log == [] then []
    else Mine(log[..|log| - 1]) + (if log[|log| - 1].own then [log[|log| - 1].bytes] else [])
  }

  function Total(log: seq<Entry>): seq<Byte> {
    if log == [] then [] else Total(log[..|log| - 1]) + log[|log| - 1].bytes
  }

  function PartWrites(ps: seq<Part>, boundary: seq<Byte>): seq<seq<Byte>> {
    if ps == [] then []
    else
      var p := ps[|ps| - 1];
      PartWrites(ps[..|ps| - 1], boundary) + [p.header, p.payload, FooterText(boundary)]
  }

  /** The write calls the stream has made: each accepted part as header, payload,
      footer, the last one as far as the sender has got. */
  predicate InOrder(s: System) {
    match s.sender
    case Waiting => Mine(s.log) == PartWrites(s.accepted, s.boundary)
    case Checking(_, _) => Mine(s.log) == PartWrites(s.accepted, s.boundary)
    case PushFooter(_, _) => Mine(s.log) == PartWrites(s.accepted, s.boundary)
    case SendHeader(p) => Underway(s, p) && Mine(s.log) == Earlier(s)
    case SendPayload(p) => Underway(s, p) && Mine(s.log) == Earlier(s) + [p.header]
    case SendFooter(p) => Underway(s, p) && Mine(s.log) == Earlier(s) + [p.header, p.payload]
  }

  predicate Underway(s: System, p: Part) {
    s.accepted != [] && s.accepted[|s.accepted| - 1] == p
  }

  function Earlier(s: System): seq<seq<Byte>> {
    if s.accepted == [] then [] else PartWrites(s.accepted[..|s.accepted| - 1], s.boundary)
  }

  predicate OrderInvariant(s: System) {
    s.queue.submitted == Total(s.log) && (s.aborted || InOrder(s))
  }

  lemma LogEntry(log: seq<Entry>, e: Entry)
    ensures Mine(log + [e]) == Mine(log) + (if e.own then [e.bytes] else [])
    ensures Total(log + [e]) == Total(log) + e.bytes
  {
    assert (log + [e])[..|log|] == log;
  }

  lemma FlatOne(b: Buffer)
    ensures Flat([b]) == b.bytes
  {
    assert [b][1..] == [];
  }

  lemma OrderPut(s: System, bytes: seq<Byte>, owner: Option<Resource>)
    ensures var t := Put(s, bytes, owner).0;
            && t.queue.submitted == s.queue.submitted + bytes
            && Mine(t.log) == Mine(s.log) + [bytes] && Total(t.log) == Total(s.log) + bytes
  {
    FlatOne(Buffer(bytes, owner));
    LogEntry(s.log, Entry(true, bytes));
  }

  lemma OrderChecking(s: System)
    requires OrderInvariant(s) && s.sender.Checking?
    ensures OrderInvariant(OwnStep(s))
  {
    assert (s.accepted + [s.sender.part])[..|s.accepted|] == s.accepted;
  }

  lemma OrderPayload(s: System)
    requires OrderInvariant(s) && s.sender.SendPayload?
    ensures OrderInvariant(OwnStep(s))
  {
    var part := s.sender.part;
    OrderPut(s, part.payload, if part.payloadOwner.Some? then Some(Foreign(part.payloadOwner.value)) else None);
    ThreeWrites(Earlier(s), part.header, part.payload, []);
  }

  lemma OrderFooter(s: System)
    requires OrderInvariant(s) && s.sender.SendFooter?
    ensures OrderInvariant(OwnStep(s))
  {
    var part := s.sender.part;
    var text := FooterText(s.boundary);
    var s1 := s.(written := s.written + [part.stamp]);
    OrderPut(s1, text, Some(Footer(|s.written|)));
    ThreeWrites(Earlier(s), part.header, part.payload, text);
  }

  lemma ThreeWrites(before: seq<seq<Byte>>, a: seq<Byte>, b: seq<Byte>, c: seq<Byte>)
    ensures before + [a] + [b] == before + [a, b]
    ensures before + [a, b] + [c] == before + [a, b, c]
  {
  }

  lemma OrderOwn(s: System)
    requires OrderInvariant(s) && s.sender != Waiting
    ensures OrderInvariant(OwnStep(s))
  {
    match s.sender {
      case Checking(_, _) => OrderChecking(s);
      case SendHeader(part) => OrderPut(s, part.header, Some(Foreign(part.headerOwner)));
      case SendPayload(_) => OrderPayload(s);
      case SendFooter(_) => OrderFooter(s);
      case PushFooter(_, _) =>
    }
  }

  /** What the invariant speaks of does not change. */
  lemma OrderSame(s: System, t: System)
    requires OrderInvariant(s) && t.log == s.log && t.queue.submitted == s.queue.submitted
    requires t.accepted == s.accepted && t.boundary == s.boundary && t.aborted == s.aborted
    requires t.sender == s.sender || (s.sender == Waiting && t.sender.Checking?)
    ensures OrderInvariant(t)
  {
  }

  lemma OrderForeign(s: System, step: Step)
    requires OrderInvariant(s) && Enabled(s.queue, step) && step.WriteStep?
    ensures OrderInvariant(s.(queue := Next(s.queue, step), log := s.log + [Entry(false, Flat(step.buffers))]))
  {
    LogEntry(s.log, Entry(false, Flat(step.buffers)));
    assert Mine(s.log) + [] == Mine(s.log);
  }

  lemma OrderStep(s: System, e: Event)
    requires OrderInvariant(s) && Possible(s, e)
    ensures OrderInvariant(After(s, e))
  {
    match e {
      case Begin(_) => OrderSame(s, After(s, e));
      case Own => OrderOwn(s);
      case Tick(_) => OrderSame(s, After(s, e));
      case Connection(step) =>
        if step.WriteStep? {
          OrderForeign(s, step);
        } else {
          OrderSame(s, After(s, e));
        }
    }
  }

  /** What holds whatever the limit: the queue's own invariant, and that an abort is final. */
  predicate Sound(s: System) {
    Invariant(s.queue) && AbortIsFinal(s)
  }

  lemma StuckStands(q: Queue, step: Step)
    requires Stuck(q) && Enabled(q, step)
    ensures Stuck(Next(q, step)) && Next(q, step).sent == q.sent
  {
  }

  /** What a write call does to log and socket, whether it throws or not. */
  lemma SoundPut(s: System, bytes: seq<Byte>, owner: Option<Resource>)
    requires Sound(s)
    ensures var (t, thrown) := Put(s, bytes, owner);
            && Invariant(t.queue) && (t.aborted ==> Stuck(t.queue)) && (s.aborted ==> thrown)
            && t.queue.sent == s.queue.sent && s.log <= t.log
  {
    PutStep(s, bytes, owner);
  }

  /** Log and accepted parts only grow, and after an abort the socket takes nothing. */
  predicate Grows(s: System, t: System) {
    && s.log <= t.log && s.accepted <= t.accepted && t.boundary == s.boundary
    && (s.aborted ==> t.aborted && t.queue.sent == s.queue.sent)
  }

  lemma SoundOwn(s: System)
    requires Sound(s) && s.sender != Waiting
    ensures Sound(OwnStep(s)) && Grows(s, OwnStep(s))
  {
    match s.sender {
      case Checking(_, _) =>
      case SendHeader(part) => SoundPut(s, part.header, Some(Foreign(part.headerOwner)));
      case SendPayload(part) =>
        SoundPut(s, part.payload, if part.payloadOwner.Some? then Some(Foreign(part.payloadOwner.value)) else None);
      case SendFooter(part) =>
        SoundPut(s.(written := s.written + [part.stamp]), FooterText(s.boundary), Some(Footer(|s.written|)));
      case PushFooter(_, _) =>
    }
  }

  lemma SoundStep(s: System, e: Event)
    requires Sound(s) && Possible(s, e)
    ensures Sound(After(s, e)) && Grows(s, After(s, e))
  {
    match e {
      case Begin(_) =>
      case Own => SoundOwn(s);
      case Tick(_) =>
      case Connection(step) =>
        InvariantStep(s.queue, step);
        if s.aborted {
          StuckStands(s.queue, step);
        }
    }
  }

  lemma {:induction false} PartWritesGrow(a: seq<Part>, b: seq<Part>, boundary: seq<Byte>)
    requires a <= b
    ensures PartWrites(a, boundary) <= PartWrites(b, boundary)
    decreases |b|
  {
    if |a| < |b| {
      PartWritesGrow(a, b[..|b| - 1], boundary);
    } else {
      assert a == b;
    }
  }

  /** Among the first `n` write calls, which is all the socket has taken from, the stream's
      own are its accepted parts in order, the last one possibly cut. */
  predicate TookInOrder(s: System, n: nat) {
    n <= |s.log| && s.queue.sent <= Total(s.log[..n]) && Mine(s.log[..n]) <= PartWrites(s.accepted, s.boundary)
  }

  lemma TookStays(s: System, t: System, n: nat)
    requires TookInOrder(s, n) && Grows(s, t) && s.aborted
    ensures TookInOrder(t, n)
  {
    assert t.log[..n] == s.log[..n];
    PartWritesGrow(s.accepted, t.accepted, s.boundary);
  }

  /** The calls made so far are the parts as far as the sender has got. */
  lemma InOrderIsPrefix(s: System)
    requires InOrder(s)
    ensures Mine(s.log) <= PartWrites(s.accepted, s.boundary)
  {
  }

  /** The call that throws is the next one in order, too. */
  lemma ThrownInOrder(s: System)
    requires InOrder(s) && s.sender != Waiting && !s.aborted && OwnStep(s).aborted
    ensures Mine(OwnStep(s).log) <= PartWrites(OwnStep(s).accepted, s.boundary)
  {
    match s.sender {
      case SendHeader(part) =>
        OrderPut(s, part.header, Some(Foreign(part.headerOwner)));
      case SendPayload(part) =>
        OrderPut(s, part.payload, if part.payloadOwner.Some? then Some(Foreign(part.payloadOwner.value)) else None);
        ThreeWrites(Earlier(s), part.header, part.payload, []);
      case SendFooter(part) =>
        var text := FooterText(s.boundary);
        OrderPut(s.(written := s.written + [part.stamp]), text, Some(Footer(|s.written|)));
        ThreeWrites(Earlier(s), part.header, part.payload, text);
    }
  }

  lemma TookAll(s: System)
    requires Sound(s) && OrderInvariant(s) && Mine(s.log) <= PartWrites(s.accepted, s.boundary)
    ensures TookInOrder(s, |s.log|)
  {
    assert s.log[..|s.log|] == s.log;
  }

  lemma TookStep(s: System, e: Event, n: nat) returns (k: nat)
    requires Sound(s) && OrderInvariant(s) && Possible(s, e) && TookInOrder(s, n)
    ensures TookInOrder(After(s, e), k)
  {
    var t := After(s, e);
    SoundStep(s, e);
    OrderStep(s, e);
    if s.aborted {
      k := n;
      TookStays(s, t, n);
    } else {
      if t.aborted {
        ThrownInOrder(s);
      } else {
        InOrderIsPrefix(t);
      }
      k := |t.log|;
      TookAll(t);
    }
  }

  lemma {:induction false} TookRun(s: System, events: seq<Event>, t: System, n: nat) returns (k: nat)
    requires Sound(s) && OrderInvariant(s) && Runs(s, events, t) && TookInOrder(s, n)
    ensures Sound(t) && OrderInvariant(t) && TookInOrder(t, k)
    decreases |events|
  {
    if events == [] {
      k := n;
    } else {
      SoundStep(s, events[0]);
      OrderStep(s, events[0]);
      k := TookStep(s, events[0], n);
      k := TookRun(After(s, events[0]), events[1..], t, k);
    }
  }

  /** In every run, with any limit or none: the connection's stream is the write calls in
      lock order, and the socket has only taken from calls among which the stream's own are
      its accepted parts, each as header, payload, footer, the last one possibly cut. Until
      one of its calls throws these are all its calls, as far as the sender has got; then
      the socket takes nothing more. */
  lemma PartsInOrder(maxQueueSize: nat, boundary: seq<Byte>, clock: real, events: seq<Event>, s: System)
    requires Runs(Fresh(maxQueueSize, boundary, clock), events, s)
    ensures s.queue.submitted == Total(s.log) && s.queue.sent <= Total(s.log)
    ensures exists n :: TookInOrder(s, n)
    ensures !s.aborted ==> InOrder(s)
    ensures s.aborted ==> Stuck(s.queue)
  {
    var n := TookRun(Fresh(maxQueueSize, boundary, clock), events, s, 0);
  }

  // ---------------------------------------------------------------- the object

  function Rank(sender: Sender): nat {
    match sender
    case Waiting => 0 case PushFooter(_, _) => 1 case SendFooter(_) => 2
    case SendPayload(_) => 3 case SendHeader(_) => 4 case Checking(_, _) => 5
  }

  /** The sender's steps with nothing in between, until it leaves `send_part`. */
  function Finish(s: System): System
    decreases Rank(s.sender), |s.footers|
  {
    if s.sender == Waiting then s else Finish(OwnStep(s))
  }

  /** An uninterrupted call is one of the runs the theorems speak of. */
  lemma {:induction false} FinishIsARun(s: System) returns (events: seq<Event>)
    ensures Runs(s, events, Finish(s))
    decreases Rank(s.sender), |s.footers|
  {
    if s.sender == Waiting {
      events := [];
    } else {
      var rest := FinishIsARun(OwnStep(s));
      events := [Own] + rest;
      assert events[1..] == rest;
    }
  }

  /** `k` stale footers have been dropped from the front, and the next one is not stale. */
  predicate TrimmedAt(q: Queue, before: seq<PendingFooter>, after: seq<PendingFooter>, now: real, k: nat) {
    && k <= |before| && after == before[k..]
    && (forall i | 0 <= i < k :: Stale(q, before[i], now))
    && (k < |before| ==> !Stale(q, before[k], now))
  }

  ghost predicate Trimmed(q: Queue, before: seq<PendingFooter>, after: seq<PendingFooter>, now: real) {
    exists k :: TrimmedAt(q, before, after, now, k)
  }

  lemma {:induction false} DropsToTrimmed(s: System, after: seq<PendingFooter>, k: nat)
    requires s.sender.Checking? && TrimmedAt(s.queue, s.footers, after, s.sender.now, k)
    ensures Finish(s) == Finish(s.(footers := after))
    decreases k
  {
    if k > 0 {
      var t := OwnStep(s);
      assert forall i | 0 <= i < |t.footers| :: t.footers[i] == s.footers[i + 1];
      DropsToTrimmed(t, after, k - 1);
      assert t.(footers := after) == s.(footers := after);
    } else {
      assert s.(footers := after) == s;
    }
  }

  /** The busy test and the decision behind it, as the sender's steps carried to their end. */
  lemma TrimmedDecides(s: System, after: seq<PendingFooter>)
    requires s.sender.Checking? && Trimmed(s.queue, s.footers, after, s.sender.now)
    ensures var busy := s.maxQueueSize != 0 && |after| >= s.maxQueueSize;
            var part := s.sender.part;
            Finish(s) ==
              if busy then s.(footers := after, sender := Waiting)
              else Finish(s.(footers := after, sender := SendHeader(part), accepted := s.accepted + [part]))
  {
    var k: nat :| TrimmedAt(s.queue, s.footers, after, s.sender.now, k);
    DropsToTrimmed(s, after, k);
    var t := s.(footers := after);
    assert t.footers != [] ==> t.footers[0] == s.footers[k];
    assert Finish(t) == Finish(OwnStep(t));
  }

  class MultipartStream {
    const maxQueueSize: nat
    const boundary: seq<Byte>
    const connection: ConnectionWriter
    var pendingFooters: seq<PendingFooter>
    /** The number of footers created so far names the next one. */
    var nextFooter: nat
    ghost var written: seq<real>
    ghost var log: seq<Entry>
    ghost var accepted: seq<Part>
    ghost var aborted: bool

    constructor (connection: ConnectionWriter, boundary: seq<Byte>, maxQueueSize: nat)
      requires connection.View() == IDLE
      ensures Valid() && forall clock: real :: View(clock, Waiting) == Fresh(maxQueueSize, boundary, clock)
    {
      this.maxQueueSize, this.boundary, this.connection := maxQueueSize, boundary, connection;
      pendingFooters, nextFooter := [], 0;
      written, log, accepted, aborted := [], [], [], false;
    }

    ghost predicate Valid()
      reads this
    {
      nextFooter == |written|
    }

    ghost function View(clock: real, sender: Sender): System
      reads this, connection
    {
      System(maxQueueSize, boundary, connection.View(), clock, pendingFooters, sender, written, log, accepted, aborted)
    }

    /** The weak reference to a footer is still alive. */
    predicate Alive(id: nat)
      reads connection
    {
      || Footer(id) in connection.pendingWriteResources
      || exists i | 0 <= i < |connection.operations| :: Footer(id) in connection.operations[i].resources
    }

    /** The loop drops stale footers from the front, up to the first that is not. */
    method IsBusy(now: real) returns (busy: bool)
      modifies this`pendingFooters
      ensures Trimmed(connection.View(), old(pendingFooters), pendingFooters, now)
      ensures busy == (maxQueueSize != 0 && |pendingFooters| >= maxQueueSize)
    {
      ghost var before, k: nat := pendingFooters, 0;
      while pendingFooters != []
        invariant k <= |before| && pendingFooters == before[k..]
        invariant forall i | 0 <= i < k :: Stale(connection.View(), before[i], now)
        decreases |pendingFooters|
      {
        var front := pendingFooters[0];
        assert Alive(front.id) == Held(connection.View(), Footer(front.id));
        if !Alive(front.id) {
          pendingFooters := pendingFooters[1..];
        } else if now - front.stamp > 0.5 {
          pendingFooters := pendingFooters[1..];
        } else {
          break;
        }
        k := k + 1;
      }
      assert TrimmedAt(connection.View(), before, pendingFooters, now, k);
      return maxQueueSize != 0 && |pendingFooters| >= maxQueueSize;
    }

    method PutBytes(bytes: seq<Byte>, owner: Option<Resource>, ghost now: real, ghost sender: Sender)
      returns (thrown: bool)
      modifies this`log, this`aborted, connection
      ensures (View(now, sender), thrown) == Put(old(View(now, sender)), bytes, owner)
    {
      thrown := connection.WriteBuffers([Buffer(bytes, owner)], owner);
      log := log + [Entry(true, bytes)];
      aborted := aborted || thrown;
    }

    /** `send_part`: the effect of an uninterrupted call. */
    method SendPart(part: Part, now: real) returns (thrown: bool)
      requires Valid()
      modifies this, connection
      ensures Valid()
      ensures View(now, Waiting) == Finish(After(old(View(now, Waiting)), Begin(part)))
      ensures thrown ==> aborted
    {
      ghost var s := View(now, Checking(part, now));
      var busy := IsBusy(now);
      TrimmedDecides(s, pendingFooters);
      if busy {
        return false;
      }
      accepted := accepted + [part];
      thrown := SendPartHeader(part, now);
      if !thrown {
        thrown := SendPayloadAndFooter(part, now);
      }
    }

    method SendPartHeader(part: Part, ghost now: real) returns (thrown: bool)
      requires Valid()
      modifies this`log, this`aborted, connection
      ensures Valid() && (thrown ==> aborted)
      ensures View(now, if thrown then Waiting else SendPayload(part)) == OwnStep(old(View(now, SendHeader(part))))
    {
      thrown := PutBytes(part.header, Some(Foreign(part.headerOwner)), now, SendHeader(part));
    }

    /** The rest of a call: payload, then footer. */
    method SendPayloadAndFooter(part: Part, ghost now: real) returns (thrown: bool)
      requires Valid()
      modifies this, connection
      ensures Valid() && (thrown ==> aborted)
      ensures View(now, Waiting) == Finish(old(View(now, SendPayload(part))))
    {
      thrown := PutBytes(part.payload, if part.payloadOwner.Some? then Some(Foreign(part.payloadOwner.value)) else None,
                         now, SendPayload(part));
      if !thrown {
        thrown := SendPartFooter(part, now);
      }
    }

    method SendPartFooter(part: Part, ghost now: real) returns (thrown: bool)
      requires Valid()
      modifies this, connection
      ensures Valid() && (thrown ==> aborted)
      ensures View(now, Waiting) == Finish(old(View(now, SendFooter(part))))
    {
      ghost var s0 := View(now, SendFooter(part));
      ghost var s1 := OwnStep(s0);
      var id := nextFooter;
      nextFooter := nextFooter + 1;
      written := written + [part.stamp];
      thrown := PutBytes(FooterText(boundary), Some(Footer(id)), now, SendFooter(part));
      if !thrown && maxQueueSize > 0 {
        pendingFooters := pendingFooters + [PendingFooter(part.stamp, id)];
      }
      assert View(now, Waiting) == if thrown then s1 else OwnStep(s1);
      assert Finish(s1) == if thrown then s1 else OwnStep(s1);
    }
  }
}
