/** The opcodes, lengths and examples of sections 5.2 and 5.7 of RFC 6455, in literal bytes. */
module WebsocketExamples {
  import opened Bytes
  import opened Incremental
  import opened WebsocketFrames
  import opened WebsocketWire
  import opened WebsocketMessages

  /** The first byte of a whole message. */
  function FirstByteOf(k: MessageType): Byte
    requires k != Unknown
  {
    match k case Text => 0x81 case Binary => 0x82 case Close => 0x88 case Ping => 0x89 case Pong => 0x8A
  }

  /** What is sent for a message, for every type and length: 7, 7 + 16 or 7 + 64 length bits. */
  lemma SentLiterally(m: Message)
    ensures Sent(m) != [] <==> m.kind != Unknown && |m.content| < 0x1_0000_0000_0000_0000
    ensures m.kind != Unknown && |m.content| < 126 ==>
      Sent(m) == [FirstByteOf(m.kind), |m.content|] + m.content
    ensures m.kind != Unknown && 126 <= |m.content| < 0x1_0000 ==>
      Sent(m) == [FirstByteOf(m.kind), 126] + [|m.content| / 256, |m.content| % 256] + m.content
    ensures m.kind != Unknown && 0x1_0000 <= |m.content| < 0x1_0000_0000_0000_0000 ==>
      Sent(m) == [FirstByteOf(m.kind), 127] + BigEndian(|m.content|, 8) + m.content
  {
    var n := |m.content|;
    if Sendable(m) {
      var w := ServerFrame(m);
      assert w.Prefix() == [w.head, w.Second()] + BigEndian(n, w.form.Extra());
      if w.form == Short {
        assert BigEndian(n, 0) == [];
      } else if w.form == Medium {
        assert BigEndian(n / 256, 1) == [] + [n / 256 % 256];
        assert BigEndian(n, 2) == [n / 256, n % 256];
      }
    }
  }

  /** An unfragmented frame from a client, with the key it chose, delivers its message
      whatever the receiver held before; any other opcode above zero delivers nothing. */
  lemma ClientFrame(c: Connection, head: Byte, key: MaskKey, payload: seq<Byte>)
    requires c.parser.state == HeaderByte1 && |payload| < 126 && 0x81 <= head <= 0x8F
    ensures var out := Receive(c, [head, 128 + |payload|] + key + Unmask(payload, key, |payload|)).1;
            && (head == 0x81 ==> out == [Message(Text, payload)])
            && (head == 0x82 ==> out == [Message(Binary, payload)])
            && (head == 0x88 ==> out == [Message(Close, payload)])
            && (head == 0x89 ==> out == [Message(Ping, payload)])
            && (head == 0x8A ==> out == [Message(Pong, payload)])
            && (head !in [0x81, 0x82, 0x88, 0x89, 0x8A] ==> out == [])
  {
    var w := WireFrame(head, Short, Some(key), payload);
    assert w.Prefix() == [head, 128 + |payload|] + key;
    OneWireFrame(c, w);
  }

  lemma OneWireFrame(c: Connection, w: WireFrame)
    requires c.parser.state == HeaderByte1 && w.Fits() && !w.Swallows()
    ensures var (c', out) := Receive(c, w.Encode());
            c'.parser.state == HeaderByte1 && (c'.message, out) == MessageStep(c.message, WireFragment(w))
  {
    BytesRefineFrames(c, [w]);
    assert EncodeAll([w]) == w.Encode() + EncodeAll([w][1..]) == w.Encode();
    assert WireFragments([w]) == [WireFragment(w)];
    OneFragment(c.message, WireFragment(w));
  }

  lemma XorBit(a: nat, b: nat, x: nat, y: nat)
    requires x < 2 && y < 2
    ensures Xor(2 * a + x, 2 * b + y) == 2 * Xor(a, b) + if x == y then 0 else 1
  {
    Doubled(a, x);
    Doubled(b, y);
    XorHalf(2 * a + x, 2 * b + y);
    ParityOfSum(2 * a + x, 2 * b + y);
  }

  lemma Doubled(a: nat, x: nat)
    requires x < 2
    ensures (2 * a + x) / 2 == a && (2 * a + x) % 2 == x
  {
  }

  /** Exclusive or by hexadecimal digits, each given by its four bits. */
  lemma XorDigit(a: nat, b: nat, x3: nat, x2: nat, x1: nat, x0: nat, y3: nat, y2: nat, y1: nat, y0: nat)
    requires x3 < 2 && x2 < 2 && x1 < 2 && x0 < 2 && y3 < 2 && y2 < 2 && y1 < 2 && y0 < 2
    ensures Xor(16 * a + 8 * x3 + 4 * x2 + 2 * x1 + x0, 16 * b + 8 * y3 + 4 * y2 + 2 * y1 + y0)
         == 16 * Xor(a, b) + (if x3 == y3 then 0 else 8) + (if x2 == y2 then 0 else 4)
              + (if x1 == y1 then 0 else 2) + (if x0 == y0 then 0 else 1)
  {
    XorBit(a, b, x3, y3);
    XorBit(2 * a + x3, 2 * b + y3, x2, y2);
    XorBit(4 * a + 2 * x3 + x2, 4 * b + 2 * y3 + y2, x1, y1);
    XorBit(8 * a + 4 * x3 + 2 * x2 + x1, 8 * b + 4 * y3 + 2 * y2 + y1, x0, y0);
  }

  // The numerals are handed over as variables, so that they are not computed with.

  lemma XorH(a: Byte, b: Byte)
    requires a == 0x48 && b == 0x37
    ensures XorByte(a, b) == 0x7f
  {
    XorDigit(0, 0, 0, 1, 0, 0, 0, 0, 1, 1);
    XorDigit(4, 3, 1, 0, 0, 0, 0, 1, 1, 1);
  }

  lemma XorE(a: Byte, b: Byte)
    requires a == 0x65 && b == 0xfa
    ensures XorByte(a, b) == 0x9f
  {
    XorDigit(0, 0, 0, 1, 1, 0, 1, 1, 1, 1);
    XorDigit(6, 15, 0, 1, 0, 1, 1, 0, 1, 0);
  }

  lemma XorL(a: Byte, b: Byte)
    requires a == 0x6c && b == 0x21
    ensures XorByte(a, b) == 0x4d
  {
    XorDigit(0, 0, 0, 1, 1, 0, 0, 0, 1, 0);
    XorDigit(6, 2, 1, 1, 0, 0, 0, 0, 0, 1);
  }

  lemma XorSecondL(a: Byte, b: Byte)
    requires a == 0x6c && b == 0x3d
    ensures XorByte(a, b) == 0x51
  {
    XorDigit(0, 0, 0, 1, 1, 0, 0, 0, 1, 1);
    XorDigit(6, 3, 1, 1, 0, 0, 1, 1, 0, 1);
  }

  lemma XorO(a: Byte, b: Byte)
    requires a == 0x6f && b == 0x37
    ensures XorByte(a, b) == 0x58
  {
    XorDigit(0, 0, 0, 1, 1, 0, 0, 0, 1, 1);
    XorDigit(6, 3, 1, 1, 1, 1, 0, 1, 1, 1);
  }

  /** The text, the key, and the masked payload of the examples. */
  predicate IsExample(hello: seq<Byte>, key: MaskKey, cipher: seq<Byte>) {
    && hello == [0x48, 0x65, 0x6c, 0x6c, 0x6f] && key == [0x37, 0xfa, 0x21, 0x3d]
    && cipher == [0x7f, 0x9f, 0x4d, 0x51, 0x58]
  }

  lemma UnmaskFive(s: seq<Byte>, key: MaskKey, t: seq<Byte>)
    requires |s| == |t| == 5
    requires XorByte(s[0], key[0]) == t[0] && XorByte(s[1], key[1]) == t[1] && XorByte(s[2], key[2]) == t[2]
    requires XorByte(s[3], key[3]) == t[3] && XorByte(s[4], key[0]) == t[4]
    ensures Unmask(s, key, 5) == t
  {
  }

  lemma MaskedHello(hello: seq<Byte>, key: MaskKey, cipher: seq<Byte>)
    requires IsExample(hello, key, cipher)
    ensures Unmask(hello, key, 5) == cipher && hello == Ascii("Hello")
  {
    XorH(hello[0], key[0]);
    XorE(hello[1], key[1]);
    XorL(hello[2], key[2]);
    XorSecondL(hello[3], key[3]);
    XorO(hello[4], key[0]);
    UnmaskFive(hello, key, cipher);
  }

  lemma Plain(c: Connection, head: Byte, payload: seq<Byte>)
    requires c.parser.state == HeaderByte1 && |payload| < 126
    ensures var (c', out) := Receive(c, [head, |payload|] + payload);
            && c'.parser.state == HeaderByte1
            && (c'.message, out) == MessageStep(c.message, Fragment(head % 16, head >= 128, payload))
  {
    var w := WireFrame(head, Short, None, payload);
    assert w.Encode() == [head, |payload|] + payload;
    OneWireFrame(c, w);
  }

  /** The single frames of section 5.7: text, unmasked */
  lemma TextExample(c: Connection, s: seq<Byte>)
    requires c.parser.state == HeaderByte1 && s == [0x81, 0x05, 0x48, 0x65, 0x6c, 0x6c, 0x6f]
    ensures Receive(c, s).1 == [Message(Text, Ascii("Hello"))]
  {
    var hello := s[2..];
    MaskedHello(hello, [0x37, 0xfa, 0x21, 0x3d], [0x7f, 0x9f, 0x4d, 0x51, 0x58]);
    Plain(c, s[0], hello);
    assert [s[0], |hello|] + hello == s;
  }

  /** and masked, */
  lemma MaskedTextExample(c: Connection, s: seq<Byte>)
    requires c.parser.state == HeaderByte1
    requires s == [0x81, 0x85, 0x37, 0xfa, 0x21, 0x3d, 0x7f, 0x9f, 0x4d, 0x51, 0x58]
    ensures Receive(c, s).1 == [Message(Text, Ascii("Hello"))]
  {
    var hello: seq<Byte> := [0x48, 0x65, 0x6c, 0x6c, 0x6f];
    MaskedHello(hello, s[2..6], s[6..]);
    assert [s[0], 128 + |hello|] + s[2..6] + s[6..] == s;
    ClientFrame(c, s[0], s[2..6], hello);
  }

  /** a ping, */
  lemma PingExample(c: Connection, s: seq<Byte>)
    requires c.parser.state == HeaderByte1 && s == [0x89, 0x05, 0x48, 0x65, 0x6c, 0x6c, 0x6f]
    ensures Receive(c, s).1 == [Message(Ping, Ascii("Hello"))]
  {
    var hello := s[2..];
    MaskedHello(hello, [0x37, 0xfa, 0x21, 0x3d], [0x7f, 0x9f, 0x4d, 0x51, 0x58]);
    Plain(c, s[0], hello);
    assert [s[0], |hello|] + hello == s;
  }

  /** and the masked pong that answers it. */
  lemma MaskedPongExample(c: Connection, s: seq<Byte>)
    requires c.parser.state == HeaderByte1
    requires s == [0x8a, 0x85, 0x37, 0xfa, 0x21, 0x3d, 0x7f, 0x9f, 0x4d, 0x51, 0x58]
    ensures Receive(c, s).1 == [Message(Pong, Ascii("Hello"))]
  {
    var hello: seq<Byte> := [0x48, 0x65, 0x6c, 0x6c, 0x6f];
    MaskedHello(hello, s[2..6], s[6..]);
    assert [s[0], 128 + |hello|] + s[2..6] + s[6..] == s;
    ClientFrame(c, s[0], s[2..6], hello);
  }

  lemma TwoPlain(c: Connection, h1: Byte, a: seq<Byte>, h2: Byte, b: seq<Byte>)
    requires c.parser.state == HeaderByte1 && |a| < 126 && |b| < 126
    ensures var (m1, o1) := MessageStep(c.message, Fragment(h1 % 16, h1 >= 128, a));
            var (m2, o2) := MessageStep(m1, Fragment(h2 % 16, h2 >= 128, b));
            Receive(c, [h1, |a|] + a + ([h2, |b|] + b)).1 == o1 + o2
  {
    var s: seq<Byte>, t: seq<Byte> := [h1, |a|] + a, [h2, |b|] + b;
    Plain(c, h1, a);
    Plain(Receive(c, s).0, h2, b);
    RunAppend(ConnectionStep, c, s, t);
  }

  /** The fragmented text of section 5.7, "Hel" and "lo". */
  lemma FragmentedExample(c: Connection, s: seq<Byte>, t: seq<Byte>)
    requires c.parser.state == HeaderByte1
    requires s == [0x01, 0x03, 0x48, 0x65, 0x6c] && t == [0x80, 0x02, 0x6c, 0x6f]
    ensures Receive(c, s + t).1 == [Message(Text, Ascii("Hello"))]
  {
    var a, b := s[2..], t[2..];
    MaskedHello(a + b, [0x37, 0xfa, 0x21, 0x3d], [0x7f, 0x9f, 0x4d, 0x51, 0x58]);
    assert [s[0], |a|] + a == s && [t[0], |b|] + b == t;
    TwoPlain(c, s[0], a, t[0], b);
  }
}
