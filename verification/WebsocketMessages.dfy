/** Messages over frames: the reassembly buffer, the connection that feeds it, and
    what a peer's byte stream is delivered as. */
module WebsocketMessages {
  import opened Bytes
  import opened Incremental
  import opened WebsocketFrames
  import opened WebsocketWire

  datatype MessageType = Unknown | Text | Binary | Close | Ping | Pong

  datatype Message = Message(kind: MessageType, content: seq<Byte>)

  /** What reassembly looks at in a frame. */
  datatype Fragment = Fragment(opcode: nat, fin: bool, content: seq<Byte>)

  function KindOf(opcode: nat): MessageType {
    if opcode == 1 then Text else if opcode == 2 then Binary else if opcode == 8 then Close
    else if opcode == 9 then Ping else if opcode == 10 then Pong else Unknown
  }

  function FragmentOf(f: Frame): Fragment {
    Fragment(f.Opcode(), f.Fin(), f.content)
  }

  /** One frame into the reassembly buffer. */
  function Reassemble(m: Message, f: Fragment): (Message, Tribool) {
    if f.opcode == 0 then
      if m.kind == Unknown then (m, No)
      else (m.(content := m.content + f.content), if f.fin then Yes else Indeterminate)
    else if KindOf(f.opcode) == Unknown then (m.(kind := Unknown), No)
    else (Message(KindOf(f.opcode), f.content), if f.fin then Yes else Indeterminate)
  }

  /** One frame in, at most one message out. */
  function MessageStep(m: Message, f: Fragment): (Message, seq<Message>) {
    var (m', r) := Reassemble(m, f);
    (m', if r.Yes? then [m'] else [])
  }

  function Deliver(m: Message, fs: seq<Fragment>): (Message, seq<Message>) {
    Run(MessageStep, m, fs)
  }

  // ---------------------------------------------------------------- the connection

  datatype Connection = Connection(parser: FrameMemory, message: Message)

  function AcceptFrame(f: Frame, m: Message): (Connection, seq<Message>) {
    var (m', out) := MessageStep(m, FragmentOf(f));
    (Connection(Start(f), m'), out)
  }

  /** One byte through parser and reassembly. */
  function ConnectionStep(c: Connection, b: Byte): (Connection, seq<Message>) {
    var (p, r) := Consume(c.parser, b);
    match r
    case Indeterminate => (Connection(p, c.message), [])
    case Yes => AcceptFrame(p.frame, c.message)
    case No => (Connection(Start(p.frame), c.message.(kind := Unknown)), [])
  }

  function Receive(c: Connection, s: seq<Byte>): (Connection, seq<Message>) {
    Run(ConnectionStep, c, s)
  }

  /** The connection once a `parse` has left `c` and answered. */
  function AfterParse(c: Connection, r: Tribool): (Connection, seq<Message>) {
    match r
    case Indeterminate => (c, [])
    case Yes => AcceptFrame(c.parser.frame, c.message)
    case No => (Connection(Start(c.parser.frame), c.message.(kind := Unknown)), [])
  }

  /** The loop of a read callback: one `parse`, its handling, and on with what is left
      of the chunk. */
  function FrameLoop(c: Connection, chunk: seq<Byte>): (Connection, seq<Message>)
    decreases |chunk|
  {
    if chunk == [] then (c, [])
    else
      var o := ParseFrame(c.parser, chunk);
      var (c1, o1) := AfterParse(Connection(o.memory, c.message), o.result);
      var (c2, o2) := FrameLoop(c1, chunk[o.consumed..]);
      (c2, o1 + o2)
  }

  /** A call of `parse` and its handling is a stretch of the byte-by-byte run. */
  lemma {:induction false} ReceiveParsed(c: Connection, s: seq<Byte>)
    ensures var o := ParseFrame(c.parser, s);
            Receive(c, s[..o.consumed]) == AfterParse(Connection(o.memory, c.message), o.result)
    decreases |s|
  {
    if s != [] {
      FirstByte(Consume, c.parser, s);
      var (p, r) := Consume(c.parser, s[0]);
      var o := ParseFrame(c.parser, s);
      RunFirst(ConnectionStep, c, s[..o.consumed]);
      if r.Indeterminate? {
        ReceiveParsed(Connection(p, c.message), s[1..]);
        assert s[..o.consumed][1..] == s[1..][..o.consumed - 1];
      } else {
        assert s[..1][1..] == [];
      }
    }
  }

  /** The callback's loop does to a chunk what the bytes would do one at a time. */
  lemma {:induction false} LoopIsRun(c: Connection, chunk: seq<Byte>)
    ensures FrameLoop(c, chunk) == Receive(c, chunk)
    decreases |chunk|
  {
    if chunk != [] {
      var o := ParseFrame(c.parser, chunk);
      var c1 := AfterParse(Connection(o.memory, c.message), o.result).0;
      ReceiveParsed(c, chunk);
      LoopIsRun(c1, chunk[o.consumed..]);
      RunAppend(ConnectionStep, c, chunk[..o.consumed], chunk[o.consumed..]);
      assert chunk == chunk[..o.consumed] + chunk[o.consumed..];
    }
  }

  // ---------------------------------------------------------------- bytes refine frames

  predicate Readable(ws: seq<WireFrame>) {
    forall i | 0 <= i < |ws| :: ws[i].Fits() && !ws[i].Swallows()
  }

  function EncodeAll(ws: seq<WireFrame>): seq<Byte>
    requires Readable(ws)
  {
    if ws == [] then [] else ws[0].Encode() + EncodeAll(ws[1..])
  }

  function WireFragment(w: WireFrame): Fragment {
    Fragment(w.head % 16, w.head >= 128, w.payload)
  }

  function WireFragments(ws: seq<WireFrame>): seq<Fragment> {
    seq(|ws|, i requires 0 <= i < |ws| => WireFragment(ws[i]))
  }

  /** Bytes that spell frames are delivered as the frames would be: masking, length
      forms and header layout disappear, and the parser is back at a frame boundary. */
  lemma {:induction false} BytesRefineFrames(c: Connection, ws: seq<WireFrame>)
    requires c.parser.state == HeaderByte1 && Readable(ws)
    ensures var (c', out) := Receive(c, EncodeAll(ws));
            c'.parser.state == HeaderByte1 && (c'.message, out) == Deliver(c.message, WireFragments(ws))
    decreases |ws|
  {
    if ws != [] {
      var s := ws[0].Encode();
      FrameAccepted(ws[0], c.parser.frame);
      ReceiveParsed(c, s);
      assert s[..|s|] == s;
      var (c1, o1) := Receive(c, s);
      BytesRefineFrames(c1, ws[1..]);
      RunAppend(ConnectionStep, c, s, EncodeAll(ws[1..]));
      assert WireFragments(ws)[1..] == WireFragments(ws[1..]);
      assert FragmentOf(Decoded(ws[0], c.parser.frame)) == WireFragment(ws[0]);
    }
  }

  // ---------------------------------------------------------------- arbitrary bytes

  /** A stretch of the stream with the frame it spells. */
  datatype Stretch = Stretch(frame: WireFrame, bytes: seq<Byte>)

  ghost predicate AllSpell(xs: seq<Stretch>) {
    forall i | 0 <= i < |xs| :: Spells(xs[i].frame, xs[i].bytes)
  }

  function StretchBytes(xs: seq<Stretch>): seq<Byte> {
    if xs == [] then [] else xs[0].bytes + StretchBytes(xs[1..])
  }

  /** A swallowing frame carries the byte behind it. */
  function StretchFragment(x: Stretch): Fragment {
    var w := x.frame;
    Fragment(w.head % 16, w.head >= 128, if w.Swallows() && x.bytes != [] then [x.bytes[|x.bytes| - 1]] else w.payload)
  }

  function StretchFragments(xs: seq<Stretch>): seq<Fragment> {
    seq(|xs|, i requires 0 <= i < |xs| => StretchFragment(xs[i]))
  }

  /** The first answer on a stream comes behind a stretch that spells a frame. */
  lemma FirstStretch(c: Connection, s: seq<Byte>) returns (x: Stretch)
    requires c.parser.state == HeaderByte1 && ParseFrame(c.parser, s).result != Indeterminate
    ensures var n := ParseFrame(c.parser, s).consumed;
            && n > 0 && x.bytes == s[..n] && Spells(x.frame, x.bytes)
            && Receive(c, s[..n]).0.parser.state == HeaderByte1
            && (Receive(c, s[..n]).0.message, Receive(c, s[..n]).1) == MessageStep(c.message, StretchFragment(x))
  {
    var f, o := c.parser.frame, ParseFrame(c.parser, s);
    var bytes := s[..o.consumed];
    assert c.parser == Start(f);
    AnswerIsOfThePrefix(Consume, c.parser, s);
    var w := AnsweredIsSpelled(bytes, f);
    SpelledIsAccepted(w, bytes, f);
    ReceiveParsed(c, s);
    x := Stretch(w, bytes);
    assert FragmentOf(Held(w, bytes, f)) == StretchFragment(x);
  }

  lemma StretchesFirst(x: Stretch, more: seq<Stretch>, tail: seq<Byte>)
    requires Spells(x.frame, x.bytes) && AllSpell(more)
    ensures AllSpell([x] + more)
    ensures StretchBytes([x] + more) + tail == x.bytes + (StretchBytes(more) + tail)
  {
    assert ([x] + more)[1..] == more;
    AppendAssociates(x.bytes, StretchBytes(more), tail);
  }

  lemma DeliverFirst(m: Message, x: Stretch, more: seq<Stretch>)
    ensures var (m1, o1) := MessageStep(m, StretchFragment(x));
            var (m2, o2) := Deliver(m1, StretchFragments(more));
            Deliver(m, StretchFragments([x] + more)) == (m2, o1 + o2)
  {
    var fs := StretchFragments([x] + more);
    assert fs[1..] == StretchFragments(more) && fs[0] == StretchFragment(x);
    RunFirst(MessageStep, m, fs);
  }

  lemma ReceiveBehind(c: Connection, head: seq<Byte>, rest: seq<Byte>, s: seq<Byte>)
    requires |head| <= |s| && head == s[..|head|] && rest == s[|head|..]
    ensures var (c1, o1) := Receive(c, head);
            var (c2, o2) := Receive(c1, rest);
            s == head + rest && Receive(c, s) == (c2, o1 + o2)
  {
    assert s == head + rest;
    RunAppend(ConnectionStep, c, head, rest);
  }

  /** Every byte stream whatever, read from a frame boundary, is a row of stretches that
      spell frames and a tail on which the parser is still undecided; what is delivered is
      what these frames deliver. */
  lemma {:induction false} EveryStreamIsDelivered(c: Connection, s: seq<Byte>)
    returns (xs: seq<Stretch>, tail: seq<Byte>, f: Frame)
    requires c.parser.state == HeaderByte1
    ensures AllSpell(xs) && s == StretchBytes(xs) + tail
    ensures var (c', out) := Receive(c, s);
            && (c'.message, out) == Deliver(c.message, StretchFragments(xs))
            && Passes(Consume, Start(f), tail, c'.parser)
    decreases |s|
  {
    var o := ParseFrame(c.parser, s);
    if o.result == Indeterminate {
      xs, tail, f := [], s, c.parser.frame;
      ReceiveParsed(c, s);
      assert s[..|s|] == s;
    } else {
      var x := FirstStretch(c, s);
      var head, rest := s[..o.consumed], s[o.consumed..];
      var c1 := Receive(c, head).0;
      var more;
      more, tail, f := EveryStreamIsDelivered(c1, rest);
      xs := [x] + more;
      ReceiveBehind(c, head, rest, s);
      StretchesFirst(x, more, tail);
      DeliverFirst(c.message, x, more);
    }
  }

  // ---------------------------------------------------------------- sending

  const MAX_LENGTH: nat := 0x1_0000_0000_0000_0000

  function OpcodeOf(kind: MessageType): Byte
    requires kind != Unknown
  {
    match kind case Text => 1 case Binary => 2 case Close => 8 case Ping => 9 case Pong => 10
  }

  predicate Sendable(m: Message) {
    m.kind != Unknown && |m.content| < MAX_LENGTH
  }

  /** The single unmasked frame a server sends for a message. */
  function ServerFrame(m: Message): (w: WireFrame)
    requires Sendable(m)
    ensures w.Minimal() && !w.Swallows()
  {
    var n := |m.content|;
    WireFrame(128 + OpcodeOf(m.kind), if n < 126 then Short else if n < 0x1_0000 then Medium else Long, None, m.content)
  }

  /** What `sendMessage` hands to the connection: nothing for an unsendable message. */
  function Sent(m: Message): seq<Byte> {
    if Sendable(m) then ServerFrame(m).Encode() else []
  }

  function SentAll(ms: seq<Message>): seq<Byte> {
    if ms == [] then [] else Sent(ms[0]) + SentAll(ms[1..])
  }

  function Filter(ms: seq<Message>): seq<Message> {
    if ms == [] then [] else (if Sendable(ms[0]) then [ms[0]] else []) + Filter(ms[1..])
  }

  lemma SentDelivered(c: Connection, m: Message)
    requires c.parser.state == HeaderByte1 && Sendable(m)
    ensures var (c', out) := Receive(c, Sent(m)); out == [m] && c'.parser.state == HeaderByte1
  {
    var w := ServerFrame(m);
    BytesRefineFrames(c, [w]);
    assert [w][1..] == [] && w.Encode() + [] == w.Encode();
    assert EncodeAll([w]) == Sent(m);
    assert WireFragments([w]) == [WireFragment(w)];
    OneFragment(c.message, WireFragment(w));
    assert KindOf(OpcodeOf(m.kind)) == m.kind;
  }

  /** Sending any list of messages and reading the bytes back delivers exactly the
      sendable ones, in order, whatever the receiver held before. */
  lemma {:induction false} MessagesRoundTrip(c: Connection, ms: seq<Message>)
    requires c.parser.state == HeaderByte1
    ensures var (c', out) := Receive(c, SentAll(ms));
            out == Filter(ms) && c'.parser.state == HeaderByte1
    decreases |ms|
  {
    if ms != [] {
      RunAppend(ConnectionStep, c, Sent(ms[0]), SentAll(ms[1..]));
      if Sendable(ms[0]) {
        SentDelivered(c, ms[0]);
      }
      MessagesRoundTrip(Receive(c, Sent(ms[0])).0, ms[1..]);
    }
  }

  lemma OneFragment(m: Message, f: Fragment)
    ensures Deliver(m, [f]) == MessageStep(m, f)
  {
    RunFirst(MessageStep, m, [f]);
  }
}
