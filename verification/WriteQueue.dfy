/** The writing side of a connection: a lock-protected pending list in front of one
    asynchronous write at a time. Each critical section is one atomic step; the
    socket's progress and its completions are steps of the environment. */
module WriteQueue {
  import opened Bytes

  /** Memory that a buffer points into, kept alive by being listed as a resource. */
  datatype Resource = Footer(id: nat) | Foreign(id: nat)

  datatype Buffer = Buffer(bytes: seq<Byte>, owner: Option<Resource>)

  /** An `async_write` that has been started: its buffers, the resources its handler
      holds, and how many bytes the socket has taken. */
  datatype Operation = Operation(buffers: seq<Buffer>, resources: seq<Resource>, taken: nat) {
    function Left(): seq<Byte> {
      var all := Flat(buffers);
      if taken <= |all| then all[taken..] else []
    }
  }

  /** `sent` is what reached the socket, `submitted` everything ever handed to
      `write`, in lock order; `starts` counts the asynchronous writes started. */
  datatype Queue = Queue(
    pending: seq<Buffer>,
    pendingResources: seq<Resource>,
    inProgress: bool,
    lastError: bool,
    operations: seq<Operation>,
    sent: seq<Byte>,
    submitted: seq<Byte>,
    starts: nat,
    writeFailed: bool)

  function Flat(bs: seq<Buffer>): seq<Byte> {
    if bs == [] then [] else bs[0].bytes + Flat(bs[1..])
  }

  lemma {:induction false} FlatAppend(a: seq<Buffer>, b: seq<Buffer>)
    ensures Flat(a + b) == Flat(a) + Flat(b)
    decreases |a|
  {
    if a == [] {
      assert a + b == b;
    } else {
      assert (a + b)[1..] == a[1..] + b;
      FlatAppend(a[1..], b);
    }
  }

  const IDLE: Queue := Queue([], [], false, false, [], [], [], 0, false)

  /** `write_pending`; the flag says whether it threw. */
  function StartWrite(q: Queue): (Queue, bool) {
    if q.lastError then (q, true)
    else
      (q.(inProgress := true,
          operations := q.operations + [Operation(q.pending, q.pendingResources, 0)],
          starts := q.starts + 1,
          pending := [], pendingResources := []), false)
  }

  /** `write`. The buffers are queued even when it throws. */
  function Write(q: Queue, buffers: seq<Buffer>, resource: Option<Resource>): (Queue, bool) {
    var q1 := q.(pending := q.pending + buffers,
                 pendingResources := q.pendingResources + (if resource.Some? then [resource.value] else []),
                 submitted := q.submitted + Flat(buffers));
    if q.inProgress then (q1, false) else StartWrite(q1)
  }

  /** `handle_write` for the operation at position `i`. */
  function HandleWrite(q: Queue, i: nat, error: bool): (Queue, bool)
    requires i < |q.operations|
  {
    var q1 := q.(inProgress := false, operations := q.operations[..i] + q.operations[i + 1..]);
    if error then (q1.(lastError := true, writeFailed := true), false)
    else if q1.pending != [] then StartWrite(q1)
    else (q1, false)
  }

  datatype Step =
    | WriteStep(buffers: seq<Buffer>, resource: Option<Resource>)
    | Transfer(i: nat, n: nat)
    | Complete(i: nat)
    | Fail(i: nat)
    | ReadError

  /** Every buffer of a write call points into the resource that comes with it. */
  predicate Enabled(q: Queue, e: Step) {
    match e
    case WriteStep(buffers, resource) => forall b | b in buffers :: b.owner.Some? ==> b.owner == resource
    case Transfer(i, n) => i < |q.operations| && n <= |q.operations[i].Left()|
    case Complete(i) => i < |q.operations| && q.operations[i].Left() == []
    case Fail(i) => i < |q.operations|
    case ReadError => true
  }

  function Next(q: Queue, e: Step): Queue
    requires Enabled(q, e)
  {
    match e
    case WriteStep(buffers, resource) => Write(q, buffers, resource).0
    case Transfer(i, n) =>
      var op := q.operations[i];
      q.(sent := q.sent + op.Left()[..n], operations := q.operations[i := op.(taken := op.taken + n)])
    case Complete(i) => HandleWrite(q, i, false).0
    case Fail(i) => HandleWrite(q, i, true).0
    case ReadError => q.(lastError := true)
  }

  /** The states reached by a run of enabled steps. */
  ghost predicate Reaches(q: Queue, steps: seq<Step>, r: Queue)
    decreases |steps|
  {
    if steps == [] then q == r else Enabled(q, steps[0]) && Reaches(Next(q, steps[0]), steps[1..], r)
  }

  // ---------------------------------------------------------------- invariant

  predicate Owned(bs: seq<Buffer>, rs: seq<Resource>) {
    forall b | b in bs && b.owner.Some? :: b.owner.value in rs
  }

  function InFlight(q: Queue): seq<Byte> {
    if q.operations == [] then [] else q.operations[0].Left()
  }

  predicate AtMostOne(q: Queue) {
    && |q.operations| <= 1
    && (q.inProgress <==> |q.operations| == 1)
    && (!q.lastError && !q.inProgress ==> q.pending == [])
  }

  predicate Held(q: Queue, r: Resource) {
    r in q.pendingResources || exists i | 0 <= i < |q.operations| :: r in q.operations[i].resources
  }

  predicate AllOwned(q: Queue) {
    && Owned(q.pending, q.pendingResources)
    && forall i | 0 <= i < |q.operations| :: Owned(q.operations[i].buffers, q.operations[i].resources)
  }

  predicate Conserved(q: Queue) {
    if q.writeFailed then q.lastError && q.operations == [] && q.sent <= q.submitted
    else q.sent + InFlight(q) + Flat(q.pending) == q.submitted
  }

  predicate Invariant(q: Queue) {
    AtMostOne(q) && AllOwned(q) && Conserved(q)
  }

  lemma ConservedStart(q: Queue)
    requires q.operations == [] && !q.writeFailed && q.sent + Flat(q.pending) == q.submitted
    ensures Conserved(StartWrite(q).0)
  {
    assert q.sent + [] == q.sent;
    assert Operation(q.pending, q.pendingResources, 0).Left() == Flat(q.pending);
    assert q.sent + Flat(q.pending) + Flat([]) == q.sent + Flat(q.pending);
  }

  lemma ConservedWrite(q: Queue, buffers: seq<Buffer>, resource: Option<Resource>)
    requires AtMostOne(q) && Conserved(q)
    ensures Conserved(Write(q, buffers, resource).0)
  {
    FlatAppend(q.pending, buffers);
    if !q.writeFailed {
      assert q.sent + InFlight(q) + (Flat(q.pending) + Flat(buffers))
          == q.sent + InFlight(q) + Flat(q.pending) + Flat(buffers);
      if !q.inProgress {
        assert q.sent + [] == q.sent;
        ConservedStart(q.(pending := q.pending + buffers,
                          pendingResources := q.pendingResources + (if resource.Some? then [resource.value] else []),
                          submitted := q.submitted + Flat(buffers)));
      }
    }
  }

  /** The bytes taken move from what is left to what is sent. */
  lemma TransferMoves(sent: seq<Byte>, all: seq<Byte>, taken: nat, n: nat)
    requires taken + n <= |all|
    ensures sent + all[taken..][..n] + all[taken + n..] == sent + all[taken..]
  {
  }

  lemma ConservedTransfer(q: Queue, n: nat)
    requires AtMostOne(q) && Conserved(q) && Enabled(q, Transfer(0, n))
    ensures Conserved(Next(q, Transfer(0, n)))
  {
    var op := q.operations[0];
    if n == 0 {
      assert op.Left()[..0] == [] && q.sent + [] == q.sent;
    } else {
      TransferMoves(q.sent, Flat(op.buffers), op.taken, n);
    }
  }

  lemma ConservedHandle(q: Queue, error: bool)
    requires AtMostOne(q) && Conserved(q) && |q.operations| == 1
    requires !error ==> q.operations[0].Left() == []
    ensures Conserved(HandleWrite(q, 0, error).0)
  {
    var q1 := q.(inProgress := false, operations := q.operations[..0] + q.operations[1..]);
    assert q1.operations == [];
    assert q.sent <= q.submitted;
    if !error {
      assert q.sent + [] == q.sent;
      if q1.pending != [] {
        ConservedStart(q1);
      }
    }
  }

  lemma OwnedStep(q: Queue, e: Step)
    requires AllOwned(q) && AtMostOne(q) && Enabled(q, e)
    ensures AllOwned(Next(q, e)) && AtMostOne(Next(q, e))
  {
  }

  /** Every step keeps the invariant. */
  lemma InvariantStep(q: Queue, e: Step)
    requires Invariant(q) && Enabled(q, e)
    ensures Invariant(Next(q, e))
  {
    OwnedStep(q, e);
    match e {
      case WriteStep(buffers, resource) => ConservedWrite(q, buffers, resource);
      case Transfer(i, n) => ConservedTransfer(q, n);
      case Complete(i) => ConservedHandle(q, false);
      case Fail(i) => ConservedHandle(q, true);
      case ReadError =>
    }
  }

  lemma {:induction false} InvariantRun(q: Queue, steps: seq<Step>, r: Queue)
    requires Invariant(q) && Reaches(q, steps, r)
    ensures Invariant(r)
    decreases |steps|
  {
    if steps != [] {
      InvariantStep(q, steps[0]);
      InvariantRun(Next(q, steps[0]), steps[1..], r);
    }
  }

  // ---------------------------------------------------------------- theorems over runs

  /** In every reachable state: at most one asynchronous write, exactly when the flag
      is set; nothing waits behind an idle, healthy socket; all memory still needed is held. */
  lemma WriteSafety(steps: seq<Step>, q: Queue)
    requires Reaches(IDLE, steps, q)
    ensures |q.operations| <= 1 && (q.inProgress <==> |q.operations| == 1)
    ensures !q.lastError && !q.inProgress ==> q.pending == []
    ensures forall b | b in q.pending && b.owner.Some? :: Held(q, b.owner.value)
    ensures forall i, b | 0 <= i < |q.operations| && b in q.operations[i].buffers && b.owner.Some? ::
      Held(q, b.owner.value)
  {
    InvariantRun(IDLE, steps, q);
  }

  /** Nothing is lost, repeated or reordered: until a write fails, sent, in flight and
      pending make up what was submitted; always, what reached the socket is a prefix of it. */
  lemma WriteConservation(steps: seq<Step>, q: Queue)
    requires Reaches(IDLE, steps, q)
    ensures q.sent <= q.submitted
    ensures !q.writeFailed ==> q.sent + InFlight(q) + Flat(q.pending) == q.submitted
    ensures !q.lastError && !q.inProgress ==> q.sent == q.submitted
  {
    InvariantRun(IDLE, steps, q);
  }

  /** After any read or write error no further asynchronous write is started, and with
      none outstanding nothing more reaches the socket. */
  lemma {:induction false} ErrorIsFinal(q: Queue, steps: seq<Step>, r: Queue)
    requires Invariant(q) && q.lastError && Reaches(q, steps, r)
    ensures r.lastError && r.starts == q.starts
    ensures q.operations == [] ==> r.operations == [] && r.sent == q.sent
    decreases |steps|
  {
    if steps != [] {
      var q1 := Next(q, steps[0]);
      InvariantStep(q, steps[0]);
      assert q1.lastError && q1.starts == q.starts;
      ErrorIsFinal(q1, steps[1..], r);
    }
  }

  predicate IsError(e: Step) { e.ReadError? || e.Fail? }

  predicate HasFailed(steps: seq<Step>) {
    exists i | 0 <= i < |steps| :: IsError(steps[i])
  }

  lemma {:induction false} ErrorSeen(q: Queue, steps: seq<Step>, r: Queue)
    requires Reaches(q, steps, r)
    ensures r.lastError <==> q.lastError || HasFailed(steps)
    decreases |steps|
  {
    if steps != [] {
      ErrorSeen(Next(q, steps[0]), steps[1..], r);
      FailedFirst(steps);
    }
  }

  lemma FailedFirst(steps: seq<Step>)
    requires steps != []
    ensures HasFailed(steps) <==> IsError(steps[0]) || HasFailed(steps[1..])
  {
    if HasFailed(steps) {
      var i :| 0 <= i < |steps| && IsError(steps[i]);
      assert i > 0 ==> IsError(steps[1..][i - 1]);
    }
    if HasFailed(steps[1..]) {
      var i :| 0 <= i < |steps[1..]| && IsError(steps[1..][i]);
      assert IsError(steps[i + 1]);
    }
  }

  /** In every reachable state, a write call throws if and only if a read or a write has
      failed and no write is outstanding, and the completion of a write throws if and
      only if a read has failed meanwhile and something is pending. */
  lemma ThrowsExactly(steps: seq<Step>, q: Queue, buffers: seq<Buffer>, resource: Option<Resource>)
    requires Reaches(IDLE, steps, q)
    ensures Write(q, buffers, resource).1 <==> HasFailed(steps) && q.operations == []
    ensures q.operations != [] ==> (HandleWrite(q, 0, false).1 <==> HasFailed(steps) && q.pending != [])
  {
    ErrorSeen(IDLE, steps, q);
    InvariantRun(IDLE, steps, q);
  }

  /** Only a write call makes a resource held; completions only release. */
  lemma HeldStep(q: Queue, e: Step, r: Resource)
    requires Enabled(q, e) && Held(Next(q, e), r)
    ensures Held(q, r) || (e.WriteStep? && e.resource == Some(r))
  {
  }

  /** With at most one write outstanding, held means pending or handed to that write. */
  lemma HeldIff(q: Queue, r: Resource)
    requires |q.operations| <= 1
    ensures Held(q, r) <==> r in q.pendingResources || (q.operations != [] && r in q.operations[0].resources)
  {
    if q.operations != [] && r in q.operations[0].resources {
      assert Held(q, r);
    }
  }

  // ---------------------------------------------------------------- release of memory

  /** A resource has been left waiting without a buffer: by a call that hands over only a
      resource while a write is in progress and nothing is pending. The next call that
      hands over a buffer, or that starts a write, takes it along. */
  predicate StrayAfterStep(q: Queue, stray: bool, e: Step) {
    match e
    case WriteStep(buffers, resource) =>
      if buffers != [] || (!q.inProgress && !q.lastError) then false
      else stray || (resource.Some? && q.inProgress && q.pending == [])
    case _ => stray
  }

  predicate StrayAfter(q: Queue, stray: bool, steps: seq<Step>)
    decreases |steps|
  {
    if steps == [] || !Enabled(q, steps[0]) then stray
    else StrayAfter(Next(q, steps[0]), StrayAfterStep(q, stray, steps[0]), steps[1..])
  }

  /** Until an error: what waits without a buffer is what the bit says. */
  predicate Strays(q: Queue, stray: bool) {
    q.lastError || if q.pending == [] then stray <==> q.pendingResources != [] else !stray
  }

  lemma StraysStep(q: Queue, stray: bool, e: Step)
    requires AtMostOne(q) && Strays(q, stray) && Enabled(q, e)
    ensures Strays(Next(q, e), StrayAfterStep(q, stray, e))
  {
  }

  lemma {:induction false} StraysRun(q: Queue, stray: bool, steps: seq<Step>, r: Queue)
    requires Invariant(q) && Strays(q, stray) && Reaches(q, steps, r)
    ensures Strays(r, StrayAfter(q, stray, steps))
    decreases |steps|
  {
    if steps != [] {
      InvariantStep(q, steps[0]);
      StraysStep(q, stray, steps[0]);
      StraysRun(Next(q, steps[0]), StrayAfterStep(q, stray, steps[0]), steps[1..], r);
    }
  }

  /** An idle healthy connection has released every resource if and only if none has been
      left waiting without a buffer. */
  lemma IdleHoldsNothing(steps: seq<Step>, q: Queue)
    requires Reaches(IDLE, steps, q) && !q.lastError && !q.inProgress
    ensures (forall r :: !Held(q, r)) <==> !StrayAfter(IDLE, false, steps)
  {
    InvariantRun(IDLE, steps, q);
    StraysRun(IDLE, false, steps, q);
    if q.pendingResources != [] {
      assert Held(q, q.pendingResources[0]);
    }
  }

  /** No resource is left waiting when every call hands over a buffer, as all calls in
      the repository do. */
  lemma {:induction false} BuffersLeaveNoStray(q: Queue, steps: seq<Step>)
    requires forall i | 0 <= i < |steps| :: steps[i].WriteStep? ==> steps[i].buffers != []
    ensures !StrayAfter(q, false, steps)
    decreases |steps|
  {
    if steps != [] && Enabled(q, steps[0]) {
      BuffersLeaveNoStray(Next(q, steps[0]), steps[1..]);
    }
  }

  /** The condition can fail: a resource without a buffer, queued behind a write, is
      still held when everything has been sent. */
  lemma ResourceOnlyLingers(b: Buffer, r: Resource) returns (steps: seq<Step>, q: Queue)
    requires b.owner == None && b.bytes == []
    ensures Reaches(IDLE, steps, q) && !q.lastError && !q.inProgress && q.pending == [] && Held(q, r)
  {
    var e0 := WriteStep([b], None);
    var q0 := Next(IDLE, e0);
    var e1 := WriteStep([], Some(r));
    var q1 := Next(q0, e1);
    assert [b][1..] == [] && Flat([b]) == b.bytes + Flat([b][1..]) == [];
    assert [] + [b] == [b] && q1.operations == [Operation([b], [], 0)];
    q := Next(q1, Complete(0));
    steps := [e0, e1, Complete(0)];
    assert steps[1..] == [e1, Complete(0)] && steps[1..][1..] == [Complete(0)] && steps[1..][1..][1..] == [];
    assert Reaches(q1, [Complete(0)], q);
    assert Reaches(q0, steps[1..], q);
    assert q.pending == [] && q.pendingResources == [r];
  }

  // ---------------------------------------------------------------- the object

  class ConnectionWriter {
    var pendingWriteBuffers: seq<Buffer>
    var pendingWriteResources: seq<Resource>
    var writeInProgress: bool
    var lastError: bool
    /** The asynchronous writes the socket has been given and not completed. */
    var operations: seq<Operation>
    ghost var sent: seq<Byte>
    ghost var submitted: seq<Byte>
    ghost var starts: nat
    ghost var writeFailed: bool

    constructor ()
      ensures View() == IDLE
    {
      pendingWriteBuffers, pendingWriteResources, writeInProgress, lastError, operations := [], [], false, false, [];
      sent, submitted, starts, writeFailed := [], [], 0, false;
    }

    ghost function View(): Queue
      reads this
    {
      Queue(pendingWriteBuffers, pendingWriteResources, writeInProgress, lastError, operations,
            sent, submitted, starts, writeFailed)
    }

    method WriteBuffers(buffers: seq<Buffer>, resource: Option<Resource>) returns (thrown: bool)
      modifies this
      ensures (View(), thrown) == Write(old(View()), buffers, resource)
    {
      pendingWriteBuffers := pendingWriteBuffers + buffers;
      if resource.Some? {
        pendingWriteResources := pendingWriteResources + [resource.value];
      }
      submitted := submitted + Flat(buffers);
      assert resource.None? ==> pendingWriteResources == old(pendingWriteResources) + [];
      thrown := false;
      if !writeInProgress {
        thrown := WritePending();
      }
    }

    method WritePending() returns (thrown: bool)
      modifies this
      ensures (View(), thrown) == StartWrite(old(View()))
    {
      if lastError {
        return true;
      }
      writeInProgress := true;
      operations := operations + [Operation(pendingWriteBuffers, pendingWriteResources, 0)];
      starts := starts + 1;
      pendingWriteBuffers := [];
      pendingWriteResources := [];
      return false;
    }

    method HandleWriteDone(i: nat, error: bool) returns (thrown: bool)
      requires i < |operations|
      modifies this
      ensures (View(), thrown) == HandleWrite(old(View()), i, error)
    {
      operations := operations[..i] + operations[i + 1..];
      writeInProgress := false;
      thrown := false;
      if !error {
        if pendingWriteBuffers != [] {
          thrown := WritePending();
        }
      } else {
        lastError := true;
        writeFailed := true;
      }
    }

    method HandleReadRaw(error: bool)
      modifies this
      ensures View() == if error then Next(old(View()), ReadError) else old(View())
    {
      if error {
        lastError := true;
      }
    }
  }
}
