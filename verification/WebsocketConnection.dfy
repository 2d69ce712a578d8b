/** The WebSocket objects as the connection updates them in place, each method
    proved against the functions on values. */
module WebsocketConnection {
  import opened Bytes
  import opened Incremental
  import opened WebsocketFrames
  import opened WebsocketMessages

  /** What `serialize` writes for a frame, or nothing when the length is too big. */
  function Serialized(f: Frame): Option<seq<Byte>> {
    if f.length < 126 then Some([f.header0, f.length] + f.content)
    else if f.length < 0x1_0000 then Some([f.header0, 126] + BigEndian(f.length, 2) + f.content)
    else if f.length < MAX_LENGTH then Some([f.header0, 127] + BigEndian(f.length, 8) + f.content)
    else None
  }

  /** Filling a frame from a message and serializing it gives the frame a peer can read. */
  lemma SerializedMessage(m: Message, f: Frame)
    requires m.kind != Unknown
    requires f.header0 == 128 + OpcodeOf(m.kind) && f.length == |m.content| && f.content == m.content
    ensures Serialized(f) == if Sendable(m) then Some(Sent(m)) else None
  {
    if Sendable(m) {
      var w := ServerFrame(m);
      assert w.Prefix() == [w.head, w.Second()] + BigEndian(|m.content|, w.form.Extra());
      if w.form == Short {
        assert w.Prefix() == [w.head, w.Second()];
      }
    }
  }

  lemma BigEndian2(n: nat)
    ensures BigEndian(n, 2) == [n / 0x100 % 256, n % 256]
  {
    assert BigEndian(n / 256, 1) == [n / 256 % 256];
  }

  lemma BigEndian4(n: nat)
    ensures BigEndian(n, 4) == [n / 0x100_0000 % 256, n / 0x1_0000 % 256, n / 0x100 % 256, n % 256]
  {
    BigEndian2(n / 0x1_0000);
    assert n / 256 / 256 == n / 0x1_0000;
    assert BigEndian(n / 256, 3) == BigEndian(n / 256 / 256, 2) + [n / 256 % 256];
  }

  lemma BigEndian8(n: nat)
    ensures BigEndian(n, 8) ==
              [n / 0x100_0000_0000_0000 % 256, n / 0x1_0000_0000_0000 % 256,
               n / 0x100_0000_0000 % 256, n / 0x1_0000_0000 % 256,
               n / 0x100_0000 % 256, n / 0x1_0000 % 256, n / 0x100 % 256, n % 256]
  {
    var n1, n2, n3, n4 := n / 0x100, n / 0x1_0000, n / 0x100_0000, n / 0x1_0000_0000;
    BigEndian4(n4);
    LowerDivisions(n);
    UpperDivisions(n);
    assert BigEndian(n3, 5) == BigEndian(n4, 4) + [n3 % 256];
    assert BigEndian(n2, 6) == BigEndian(n3, 5) + [n2 % 256];
    assert BigEndian(n1, 7) == BigEndian(n2, 6) + [n1 % 256];
    assert BigEndian(n, 8) == BigEndian(n1, 7) + [n % 256];
  }

  lemma LowerDivisions(n: nat)
    ensures n / 0x100 / 256 == n / 0x1_0000
    ensures n / 0x1_0000 / 256 == n / 0x100_0000
    ensures n / 0x100_0000 / 256 == n / 0x1_0000_0000
  {
  }

  lemma UpperDivisions(n: nat)
    ensures n / 0x1_0000_0000 / 0x100 == n / 0x100_0000_0000
    ensures n / 0x1_0000_0000 / 0x1_0000 == n / 0x1_0000_0000_0000
    ensures n / 0x1_0000_0000 / 0x100_0000 == n / 0x100_0000_0000_0000
  {
  }

  /** Going on from `c`, with `log` handled and `rest` to read, ends at `end`. */
  predicate LeadsTo(c: Connection, log: seq<Message>, rest: seq<Byte>, end: (Connection, seq<Message>)) {
    end == (FrameLoop(c, rest).0, log + FrameLoop(c, rest).1)
  }

  /** One turn of the loop, from position `from` of the chunk to position `to`. */
  lemma LoopTurn(c: Connection, log: seq<Message>, chunk: seq<Byte>, from: nat, to: nat,
                 end: (Connection, seq<Message>))
    requires from < |chunk| && LeadsTo(c, log, chunk[from..], end)
    requires to == from + ParseFrame(c.parser, chunk[from..]).consumed
    ensures var o := ParseFrame(c.parser, chunk[from..]);
            var (c1, o1) := AfterParse(Connection(o.memory, c.message), o.result);
            to <= |chunk| && LeadsTo(c1, log + o1, chunk[to..], end)
  {
    var o := ParseFrame(c.parser, chunk[from..]);
    var (c1, o1) := AfterParse(Connection(o.memory, c.message), o.result);
    DropDrop(chunk, from, o.consumed);
    AppendAssociates(log, o1, FrameLoop(c1, chunk[to..]).1);
  }

  lemma NothingLeft(c: Connection, log: seq<Message>, end: (Connection, seq<Message>))
    requires LeadsTo(c, log, [], end)
    ensures end == (c, log)
  {
    assert log + [] == log;
  }

  class WebsocketMessage {
    var kind: MessageType
    var content: seq<Byte>

    constructor ()
      ensures View() == Message(Unknown, [])
    {
      kind := Unknown;
      content := [];
    }

    function View(): Message
      reads this
    {
      Message(kind, content)
    }
  }

  class WebsocketFrame {
    var header0: Byte
    var header1: Byte
    var length: nat
    const mask: array<Byte>
    var content: seq<Byte>

    constructor ()
      ensures Valid() && fresh(mask) && View() == Frame(0, 0, 0, [0, 0, 0, 0], [])
    {
      header0, header1, length, content := 0, 0, 0, [];
      mask := new Byte[4](i => 0);
      new;
      assert mask[..] == [0, 0, 0, 0];
    }

    ghost predicate Valid() {
      mask.Length == 4
    }

    ghost function View(): Frame
      reads this, mask
      requires Valid()
    {
      Frame(header0, header1, length, mask[..], content)
    }

    method FromMessage(message: WebsocketMessage) returns (ok: bool)
      requires Valid()
      modifies this
      ensures ok == (message.kind != Unknown)
      ensures ok ==>
        header0 == 128 + OpcodeOf(message.kind) && length == |message.content| && content == message.content
      ensures View() == old(View()).(header0 := header0, length := length, content := content)
      ensures !ok ==> View() == old(View())
    {
      if message.kind == Text {
        header0 := 1;
      } else if message.kind == Binary {
        header0 := 2;
      } else if message.kind == Close {
        header0 := 8;
      } else if message.kind == Ping {
        header0 := 9;
      } else if message.kind == Pong {
        header0 := 10;
      } else {
        return false;
      }
      header0 := 128 + header0;
      content := message.content;
      length := |message.content|;
      return true;
    }

    method Serialize() returns (ok: bool, buffer: array<Byte>)
      requires Valid()
      modifies this`header1
      ensures ok == Serialized(old(View())).Some?
      ensures ok ==> fresh(buffer) && buffer[..] == Serialized(old(View())).value
    {
      buffer := new Byte[0];
      var headerSize := 2;
      if length < 126 {
        header1 := length;
      } else if length < 0x1_0000 {
        header1 := 126;
        headerSize := headerSize + 2;
      } else if length < MAX_LENGTH {
        header1 := 127;
        headerSize := headerSize + 8;
      } else {
        return false, buffer;
      }
      buffer := new Byte[headerSize + |content|](i => 0);
      buffer[0] := header0;
      buffer[1] := header1;
      if length < 126 {
      } else if length < 0x1_0000 {
        WriteLength2(buffer, length);
      } else {
        WriteLength8(buffer, length);
      }
      ghost var header := if length < 126 then [header0, length]
                          else if length < 0x1_0000 then [header0, 126] + BigEndian(length, 2)
                          else [header0, 127] + BigEndian(length, 8);
      assert buffer[..headerSize] == header;
      CopyContent(buffer, headerSize, content);
      return true, buffer;
    }
  }

  method WriteLength2(buffer: array<Byte>, length: nat)
    requires buffer.Length >= 4
    modifies buffer
    ensures buffer[..4] == old(buffer[..2]) + BigEndian(length, 2)
  {
    buffer[2] := length / 0x100 % 256;
    buffer[3] := length % 256;
    BigEndian2(length);
  }

  method WriteLength8(buffer: array<Byte>, length: nat)
    requires buffer.Length >= 10
    modifies buffer
    ensures buffer[..10] == old(buffer[..2]) + BigEndian(length, 8)
  {
    buffer[2] := length / 0x100_0000_0000_0000 % 256;
    buffer[3] := length / 0x1_0000_0000_0000 % 256;
    buffer[4] := length / 0x100_0000_0000 % 256;
    buffer[5] := length / 0x1_0000_0000 % 256;
    buffer[6] := length / 0x100_0000 % 256;
    buffer[7] := length / 0x1_0000 % 256;
    buffer[8] := length / 0x100 % 256;
    buffer[9] := length % 256;
    BigEndian8(length);
    assert buffer[2..10] == BigEndian(length, 8);
    assert buffer[..10] == buffer[..2] + buffer[2..10];
  }

  method CopyContent(buffer: array<Byte>, at: nat, content: seq<Byte>)
    requires buffer.Length == at + |content|
    modifies buffer
    ensures buffer[..] == old(buffer[..at]) + content
  {
    forall i | 0 <= i < |content| {
      buffer[at + i] := content[i];
    }
  }

  class WebsocketFrameParser {
    var state: FrameState

    constructor ()
      ensures state == HeaderByte1
    {
      state := HeaderByte1;
    }

    ghost function Memory(frame: WebsocketFrame): FrameMemory
      reads this, frame, frame.mask
      requires frame.Valid()
    {
      FrameMemory(state, frame.View())
    }

    method Reset()
      modifies this
      ensures state == HeaderByte1
    {
      state := HeaderByte1;
    }

    method ConsumeByte(frame: WebsocketFrame, input: Byte) returns (r: Tribool)
      requires frame.Valid()
      modifies this, frame, frame.mask
      ensures (Memory(frame), r) == Consume(old(Memory(frame)), input)
    {
      r := Indeterminate;
      match state {
        case HeaderByte1 =>
          frame.header0 := input;
          state := HeaderByte2;
        case HeaderByte2 =>
          frame.header1 := input;
          if input % 128 < 126 {
            frame.length := input % 128;
            frame.content := [];
            if input >= 128 {
              state := MaskByte1;
            } else if frame.length > 0 {
              state := Body;
            } else {
              r := Yes;
            }
          } else if input % 128 == 126 {
            frame.length := 0;
            state := Length2;
          } else {
            frame.length := 0;
            state := Length8;
          }
        case Length8 =>
          frame.length := Or(frame.length, input * 0x100_0000_0000_0000);
          state := Length7;
        case Length7 =>
          frame.length := Or(frame.length, input * 0x1_0000_0000_0000);
          state := Length6;
        case Length6 =>
          frame.length := Or(frame.length, input * 0x100_0000_0000);
          state := Length5;
        case Length5 =>
          frame.length := Or(frame.length, input * 0x1_0000_0000);
          state := Length4;
        case Length4 =>
          frame.length := Or(frame.length, input * 0x100_0000);
          state := Length3;
        case Length3 =>
          frame.length := Or(frame.length, input * 0x1_0000);
          state := Length2;
        case Length2 =>
          frame.length := Or(frame.length, input * 0x100);
          state := Length1;
        case Length1 =>
          frame.length := Or(frame.length, input);
          frame.content := [];
          state := if frame.header1 >= 128 then MaskByte1 else Body;
        case MaskByte1 =>
          frame.mask[0] := input;
          state := MaskByte2;
          assert frame.mask[..] == old(frame.mask[..])[0 := input];
        case MaskByte2 =>
          frame.mask[1] := input;
          state := MaskByte3;
          assert frame.mask[..] == old(frame.mask[..])[1 := input];
        case MaskByte3 =>
          frame.mask[2] := input;
          state := MaskByte4;
          assert frame.mask[..] == old(frame.mask[..])[2 := input];
        case MaskByte4 =>
          frame.mask[3] := input;
          if frame.length > 0 {
            state := Body;
          } else {
            r := Yes;
          }
          assert frame.mask[..] == old(frame.mask[..])[3 := input];
        case Body =>
          frame.content := frame.content + [input];
          if |frame.content| >= frame.length {
            if frame.header1 >= 128 {
              UnmaskInPlace(frame);
            }
            r := Yes;
          }
      }
    }

    /** The unmasking loop of the body state. */
    method UnmaskInPlace(frame: WebsocketFrame)
      requires frame.Valid() && frame.length <= |frame.content|
      modifies frame`content
      ensures frame.content == Unmask(old(frame.content), frame.mask[..], frame.length)
    {
      ghost var before := frame.content;
      var i := 0;
      while i < frame.length
        invariant i <= frame.length && frame.content == Unmask(before, frame.mask[..], i)
      {
        frame.content := frame.content[i := XorByte(frame.content[i], frame.mask[i % 4])];
        i := i + 1;
      }
    }

    /** Consumes from `begin` until an answer or the end of the input. */
    method Parse(frame: WebsocketFrame, input: seq<Byte>, begin: nat) returns (r: Tribool, end: nat)
      requires frame.Valid() && begin <= |input|
      modifies this, frame, frame.mask
      ensures var o := ParseFrame(old(Memory(frame)), input[begin..]);
              Memory(frame) == o.memory && r == o.result && end == begin + o.consumed
    {
      ghost var start := Memory(frame);
      end := begin;
      r := Indeterminate;
      while end != |input|
        invariant begin <= end <= |input| && r == Indeterminate
        invariant var o := ParseFrame(Memory(frame), input[end..]);
                  ParseFrame(start, input[begin..]) == o.(consumed := end - begin + o.consumed)
        decreases |input| - end
      {
        FirstByte(Consume, Memory(frame), input[end..]);
        r := ConsumeByte(frame, input[end]);
        end := end + 1;
        assert input[end - 1..][1..] == input[end..];
        if r != Indeterminate {
          return;
        }
      }
    }
  }

  class WebsocketFrameBuffer {
    constructor () {
    }

    method ConsumeFrame(message: WebsocketMessage, frame: WebsocketFrame) returns (r: Tribool)
      requires frame.Valid()
      modifies message
      ensures (message.View(), r) == Reassemble(old(message.View()), FragmentOf(old(frame.View())))
    {
      var opcode := frame.header0 % 16;
      if opcode == 0 {
        if message.kind == Unknown {
          return No;
        }
        message.content := message.content + frame.content;
      } else {
        message.kind := KindOf(opcode);
        if message.kind == Unknown {
          return No;
        }
        message.content := frame.content;
      }
      return if frame.header0 >= 128 then Yes else Indeterminate;
    }
  }

  class WebsocketConnection {
    const frame: WebsocketFrame
    const message: WebsocketMessage
    const parser: WebsocketFrameParser
    const buffer: WebsocketFrameBuffer
    /** The messages the handler has been called with. */
    var handled: seq<Message>
    /** The bytes handed to the HTTP connection's write queue. */
    var outbox: seq<Byte>

    constructor ()
      ensures Valid() && fresh(Footprint())
      ensures handled == [] && outbox == []
      ensures View() == Connection(Start(Frame(0, 0, 0, [0, 0, 0, 0], [])), Message(Unknown, []))
    {
      frame := new WebsocketFrame();
      message := new WebsocketMessage();
      parser := new WebsocketFrameParser();
      buffer := new WebsocketFrameBuffer();
      handled, outbox := [], [];
    }

    ghost predicate Valid() {
      frame.Valid()
    }

    ghost function Footprint(): set<object> {
      {this, frame, frame.mask, message, parser}
    }

    ghost function View(): Connection
      reads Footprint()
      requires Valid()
    {
      Connection(parser.Memory(frame), message.View())
    }

    /** One read callback. */
    method HandleRead(chunk: seq<Byte>)
      requires Valid()
      modifies Footprint()
      ensures (View(), handled) == (var (c, out) := FrameLoop(old(View()), chunk); (c, old(handled) + out))
      ensures outbox == old(outbox)
    {
      ghost var end := (FrameLoop(View(), chunk).0, handled + FrameLoop(View(), chunk).1);
      var parseEnd := 0;
      assert chunk[0..] == chunk;
      while parseEnd < |chunk|
        invariant parseEnd <= |chunk| && outbox == old(outbox)
        invariant LeadsTo(View(), handled, chunk[parseEnd..], end)
      {
        ghost var c, log, from := View(), handled, parseEnd;
        var frameResult;
        frameResult, parseEnd := parser.Parse(frame, chunk, parseEnd);
        LoopTurn(c, log, chunk, from, parseEnd, end);
        HandleFrame(frameResult);
      }
      assert chunk[parseEnd..] == [];
      NothingLeft(View(), handled, end);
    }

    /** What the loop does with the answer of one `parse`. */
    method HandleFrame(frameResult: Tribool)
      requires Valid()
      modifies Footprint()
      ensures outbox == old(outbox)
      ensures (View(), handled) == (var (c, out) := AfterParse(old(View()), frameResult); (c, old(handled) + out))
    {
      ghost var log := handled;
      assert log + [] == log;
      if frameResult == Yes {
        parser.Reset();
        var messageResult := buffer.ConsumeFrame(message, frame);
        if messageResult == Yes {
          handled := handled + [message.View()];
        }
      } else if frameResult == No {
        parser.Reset();
        message.kind := Unknown;
      }
    }

    method SendMessage(m: WebsocketMessage) returns (ok: bool)
      modifies this`outbox
      ensures ok == Sendable(m.View())
      ensures outbox == old(outbox) + Sent(m.View())
    {
      var f := new WebsocketFrame();
      var filled := f.FromMessage(m);
      if filled {
        SerializedMessage(m.View(), f.View());
        ok := SendFrame(f);
      } else {
        ok := false;
      }
    }

    method SendFrame(f: WebsocketFrame) returns (ok: bool)
      requires f.Valid()
      modifies this`outbox, f`header1
      ensures ok == Serialized(old(f.View())).Some?
      ensures outbox == old(outbox) + (if ok then Serialized(old(f.View())).value else [])
    {
      var bytes;
      ok, bytes := f.Serialize();
      if ok {
        outbox := outbox + bytes[..];
      }
    }
  }
}
