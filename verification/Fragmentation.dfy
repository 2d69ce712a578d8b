/** Fragmentation (section 5.4 of RFC 6455): the reassembly buffer against a
    reference receiver that keeps a half-received message apart from control frames. */
module Fragmentation {
  import opened Bytes
  import opened Incremental
  import opened WebsocketMessages

  predicate IsData(f: Fragment) { f.opcode == 1 || f.opcode == 2 }

  predicate IsControl(f: Fragment) { f.opcode == 8 || f.opcode == 9 || f.opcode == 10 }

  predicate IsContinuation(f: Fragment) { f.opcode == 0 }

  predicate IsReserved(f: Fragment) { !IsContinuation(f) && !IsData(f) && !IsControl(f) }

  /** The frame sequences RFC 6455 lets a peer send; `open` says whether a
      fragmented message is under way. */
  predicate Legal(open: bool, fs: seq<Fragment>)
    decreases |fs|
  {
    fs == [] ||
    (var f := fs[0];
     if IsControl(f) then f.fin && Legal(open, fs[1..])
     else if IsData(f) then !open && Legal(!f.fin, fs[1..])
     else IsContinuation(f) && open && Legal(!f.fin, fs[1..]))
  }

  /** The reference receiver: control frames are delivered at once and leave the
      half-received message alone. */
  function Reference(open: Option<Message>, fs: seq<Fragment>): seq<Message>
    requires Legal(open.Some?, fs)
    decreases |fs|
  {
    if fs == [] then []
    else
      var f := fs[0];
      if IsControl(f) then [Message(KindOf(f.opcode), f.content)] + Reference(open, fs[1..])
      else if IsData(f) then
        var m := Message(KindOf(f.opcode), f.content);
        if f.fin then [m] + Reference(None, fs[1..]) else Reference(Some(m), fs[1..])
      else
        var m := open.value.(content := open.value.content + f.content);
        if f.fin then [m] + Reference(None, fs[1..]) else Reference(Some(m), fs[1..])
  }

  /** No message that is completed has had a control frame between its fragments;
      `hit` says whether the message under way already has. */
  predicate Undisturbed(open: bool, hit: bool, fs: seq<Fragment>)
    decreases |fs|
  {
    fs == [] ||
    (var f := fs[0];
     if IsControl(f) then Undisturbed(open, open, fs[1..])
     else if IsContinuation(f) then (f.fin ==> !hit) && Undisturbed(!f.fin, hit && !f.fin, fs[1..])
     else Undisturbed(!f.fin, false, fs[1..]))
  }

  predicate IsControlKind(k: MessageType) { k == Close || k == Ping || k == Pong }

  predicate IsDataKind(k: MessageType) { k == Text || k == Binary }

  /** How the one message buffer relates to the reference's half-received message. */
  predicate Related(m: Message, open: Option<Message>, hit: bool) {
    match open
    case None => !hit
    case Some(x) => IsDataKind(x.kind) && if hit then IsControlKind(m.kind) else m == x
  }

  /** For every legal frame sequence, the buffer delivers what the reference
      delivers if and only if no completed message was interrupted by a control frame. */
  lemma {:induction false} BufferMeetsReference(m: Message, open: Option<Message>, hit: bool, fs: seq<Fragment>)
    requires Legal(open.Some?, fs) && Related(m, open, hit)
    ensures Deliver(m, fs).1 == Reference(open, fs) <==> Undisturbed(open.Some?, hit, fs)
    decreases |fs|
  {
    if fs != [] {
      var f := fs[0];
      var (m1, o1) := MessageStep(m, f);
      var rest := Deliver(m1, fs[1..]).1;
      assert Deliver(m, fs).1 == o1 + rest;
      if IsControl(f) {
        BufferMeetsReference(m1, open, open.Some?, fs[1..]);
        SameHead(o1[0], o1[0], rest, Reference(open, fs[1..]));
      } else {
        var whole := if IsData(f) then Message(KindOf(f.opcode), f.content)
                     else open.value.(content := open.value.content + f.content);
        var hit' := hit && IsContinuation(f) && !f.fin;
        var open' := if f.fin then None else Some(whole);
        BufferMeetsReference(m1, open', hit', fs[1..]);
        if f.fin {
          SameHead(o1[0], whole, rest, Reference(None, fs[1..]));
        } else {
          assert o1 + rest == rest;
        }
      }
    }
  }

  lemma SameHead(x: Message, y: Message, a: seq<Message>, b: seq<Message>)
    ensures [x] + a == [y] + b <==> x == y && a == b
  {
    assert ([x] + a)[1..] == a && ([y] + b)[1..] == b;
    assert ([x] + a)[0] == x && ([y] + b)[0] == y;
  }

  /** From a message boundary, with anything left in the buffer. */
  lemma DeliversLegalStreams(m: Message, fs: seq<Fragment>)
    requires Legal(false, fs)
    ensures Deliver(m, fs).1 == Reference(None, fs) <==> Undisturbed(false, false, fs)
  {
    BufferMeetsReference(m, None, false, fs);
  }

  /** A ping between the two halves of a text: the text's tail is delivered as part of the ping. */
  lemma PingOverwritesText(m: Message, a: seq<Byte>, p: seq<Byte>, b: seq<Byte>)
    ensures var fs := [Fragment(1, false, a), Fragment(9, true, p), Fragment(0, true, b)];
            && Legal(false, fs)
            && Deliver(m, fs).1 == [Message(Ping, p), Message(Ping, p + b)]
            && Reference(None, fs) == [Message(Ping, p), Message(Text, a + b)]
  {
    var fs := [Fragment(1, false, a), Fragment(9, true, p), Fragment(0, true, b)];
    assert fs[1..] == [Fragment(9, true, p), Fragment(0, true, b)];
    assert fs[1..][1..] == [Fragment(0, true, b)];
    assert fs[1..][1..][1..] == [];
    OneFragment(Message(Ping, p), fs[2]);
    assert Deliver(Message(Text, a), fs[1..]).1 == [Message(Ping, p)] + [Message(Ping, p + b)];
    assert Reference(Some(Message(Text, a)), fs[1..][1..]) == [Message(Text, a + b)];
  }

  /** A fragmented message is under way after the frames. */
  predicate OpenAfter(open: bool, fs: seq<Fragment>)
    decreases |fs|
  {
    if fs == [] then open else OpenAfter(if IsControl(fs[0]) then open else !fs[0].fin, fs[1..])
  }

  /** A legal sequence that leaves nothing under way ends with a delivery, and the
      buffer still holds the message delivered. */
  lemma {:induction false} ClosedEndsDelivered(m: Message, open: bool, fs: seq<Fragment>)
    requires Legal(open, fs) && !OpenAfter(open, fs) && fs != [] && (open ==> m.kind != Unknown)
    ensures var (m', out) := Deliver(m, fs);
            out != [] && out[|out| - 1] == m' && m'.kind != Unknown
    decreases |fs|
  {
    RunFirst(MessageStep, m, fs);
    if |fs| > 1 {
      var f := fs[0];
      ClosedEndsDelivered(MessageStep(m, f).0, if IsControl(f) then open else !f.fin, fs[1..]);
    } else {
      assert fs[1..] == [];
    }
  }

  lemma {:induction false} StrayIsIllegal(open: bool, fs: seq<Fragment>, f: Fragment)
    requires Legal(open, fs) && !OpenAfter(open, fs) && IsContinuation(f)
    ensures !Legal(open, fs + [f])
    decreases |fs|
  {
    if fs == [] {
      assert fs + [f] == [f];
    } else {
      assert (fs + [f])[1..] == fs[1..] + [f];
      StrayIsIllegal(if IsControl(fs[0]) then open else !fs[0].fin, fs[1..], f);
    }
  }

  /** Outside the legal sequences: behind a legal sequence that leaves nothing under way, a
      final continuation is delivered as another message, the last one with the stray
      content behind it. It delivers nothing if and only if there is no last one: no
      frame has come, and the buffer held no message before. */
  lemma StrayContinuation(m: Message, fs: seq<Fragment>, c: seq<Byte>)
    requires Legal(false, fs) && !OpenAfter(false, fs)
    ensures var stray := fs + [Fragment(0, true, c)];
            var before := Deliver(m, fs);
            var last := if before.1 == [] then m else before.1[|before.1| - 1];
            && !Legal(false, stray)
            && (Deliver(m, stray).1 == before.1 <==> fs == [] && m.kind == Unknown)
            && (last.kind != Unknown ==> Deliver(m, stray).1 == before.1 + [last.(content := last.content + c)])
  {
    var f := Fragment(0, true, c);
    StrayIsIllegal(false, fs, f);
    RunAppend(MessageStep, m, fs, [f]);
    OneFragment(Deliver(m, fs).0, f);
    if fs != [] {
      ClosedEndsDelivered(m, false, fs);
    }
  }

  // ---------------------------------------------------------------- whole messages

  /** A message cut into parts: the first frame names the type, only the last has FIN. */
  function Split(kind: MessageType, parts: seq<seq<Byte>>): seq<Fragment>
    requires kind != Unknown
  {
    seq(|parts|, i requires 0 <= i < |parts| =>
      Fragment(if i == 0 then OpcodeOf(kind) else 0, i == |parts| - 1, parts[i]))
  }

  /** The fragments after the first. */
  function Tail(parts: seq<seq<Byte>>): seq<Fragment> {
    seq(|parts|, i requires 0 <= i < |parts| => Fragment(0, i == |parts| - 1, parts[i]))
  }

  lemma {:induction false} TailDelivered(m: Message, parts: seq<seq<Byte>>)
    requires m.kind != Unknown && parts != []
    ensures var whole := m.(content := m.content + Concat(parts));
            Deliver(m, Tail(parts)) == (whole, [whole])
    decreases |parts|
  {
    var m1 := m.(content := m.content + parts[0]);
    RunFirst(MessageStep, m, Tail(parts));
    assert Tail(parts)[1..] == Tail(parts[1..]);
    assert Concat(parts) == parts[0] + Concat(parts[1..]);
    assert m1.content + Concat(parts[1..]) == m.content + Concat(parts);
    if |parts| == 1 {
      assert Concat(parts[1..]) == [] && Tail(parts)[1..] == [];
      assert Concat(parts) == parts[0];
    } else {
      TailDelivered(m1, parts[1..]);
    }
  }

  lemma SplitTail(kind: MessageType, parts: seq<seq<Byte>>)
    requires kind != Unknown && parts != []
    ensures Split(kind, parts)[1..] == Tail(parts[1..])
    ensures |parts| == 1 ==> Concat(parts) == parts[0]
  {
    assert |parts| == 1 ==> Concat(parts[1..]) == [];
  }

  lemma SplitDelivered(m: Message, kind: MessageType, parts: seq<seq<Byte>>)
    requires kind != Unknown && parts != []
    ensures var whole := Message(kind, Concat(parts)); Deliver(m, Split(kind, parts)) == (whole, [whole])
  {
    var m1 := Message(kind, parts[0]);
    RunFirst(MessageStep, m, Split(kind, parts));
    SplitTail(kind, parts);
    if |parts| > 1 {
      TailDelivered(m1, parts[1..]);
    }
  }

  datatype Outgoing = Outgoing(kind: MessageType, parts: seq<seq<Byte>>)

  predicate WellFormed(ms: seq<Outgoing>) {
    forall i | 0 <= i < |ms| :: ms[i].kind != Unknown && ms[i].parts != []
  }

  function SplitAll(ms: seq<Outgoing>): seq<Fragment>
    requires WellFormed(ms)
  {
    if ms == [] then [] else Split(ms[0].kind, ms[0].parts) + SplitAll(ms[1..])
  }

  function Joined(ms: seq<Outgoing>): seq<Message> {
    seq(|ms|, i requires 0 <= i < |ms| => Message(ms[i].kind, Concat(ms[i].parts)))
  }

  /** However each message of a list is cut into fragments, it is delivered once, whole. */
  lemma {:induction false} FragmentsReassemble(m: Message, ms: seq<Outgoing>)
    requires WellFormed(ms)
    ensures Deliver(m, SplitAll(ms)).1 == Joined(ms)
    decreases |ms|
  {
    if ms != [] {
      var whole := Message(ms[0].kind, Concat(ms[0].parts));
      SplitDelivered(m, ms[0].kind, ms[0].parts);
      FragmentsReassemble(whole, ms[1..]);
      RunAppend(MessageStep, m, Split(ms[0].kind, ms[0].parts), SplitAll(ms[1..]));
      assert Joined(ms) == [whole] + Joined(ms[1..]);
    }
  }

  /** A frame with a reserved opcode, and any continuations after it, deliver nothing. */
  lemma {:induction false} ReservedNeverDelivered(m: Message, f: Fragment, cs: seq<Fragment>)
    requires IsReserved(f) && forall i | 0 <= i < |cs| :: IsContinuation(cs[i])
    ensures Deliver(m, [f] + cs) == (m.(kind := Unknown), [])
  {
    RunFirst(MessageStep, m, [f] + cs);
    assert ([f] + cs)[1..] == cs;
    ContinuationsIgnored(m.(kind := Unknown), cs);
  }

  lemma {:induction false} ContinuationsIgnored(m: Message, cs: seq<Fragment>)
    requires m.kind == Unknown && forall i | 0 <= i < |cs| :: IsContinuation(cs[i])
    ensures Deliver(m, cs) == (m, [])
    decreases |cs|
  {
    if cs != [] {
      RunFirst(MessageStep, m, cs);
      ContinuationsIgnored(m, cs[1..]);
    }
  }
}
