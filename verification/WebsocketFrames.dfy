/** WebSocket frames: the byte-driven frame parser as a function on values, and
    the wire format of section 5.2 of RFC 6455 it is measured against. */
module WebsocketFrames {
  import opened Bytes
  import opened Incremental

  type MaskKey = s: seq<Byte> | |s| == 4 witness [0, 0, 0, 0]

  datatype FrameState =
    | HeaderByte1 | HeaderByte2
    | Length8 | Length7 | Length6 | Length5 | Length4 | Length3 | Length2 | Length1
    | MaskByte1 | MaskByte2 | MaskByte3 | MaskByte4
    | Body

  /** The two header bytes are kept as they are; the accessors are the bit fields
      laid over them. */
  datatype Frame = Frame(header0: Byte, header1: Byte, length: nat, mask: MaskKey, content: seq<Byte>) {
    function Opcode(): nat { header0 % 16 }
    predicate Fin() { header0 >= 128 }
    function Len(): nat { header1 % 128 }
    predicate Masked() { header1 >= 128 }
  }

  datatype FrameMemory = FrameMemory(state: FrameState, frame: Frame)

  /** A parser that has just been reset. */
  function Start(f: Frame): FrameMemory {
    FrameMemory(HeaderByte1, f)
  }

  /** The first `n` bytes are combined with the key, the rest are left alone. */
  function Unmask(content: seq<Byte>, key: MaskKey, n: nat): (r: seq<Byte>)
    ensures |r| == |content|
  {
    seq(|content|, i requires 0 <= i < |content| =>
      if i < n then XorByte(content[i], key[i % 4]) else content[i])
  }

  /** One byte through the frame parser. */
  function Consume(p: FrameMemory, b: Byte): (FrameMemory, Tribool) {
    var f := p.frame;
    match p.state
    case HeaderByte1 => (FrameMemory(HeaderByte2, f.(header0 := b)), Indeterminate)
    case HeaderByte2 =>
      var g := f.(header1 := b);
      if g.Len() < 126 then
        var h := g.(length := g.Len(), content := []);
        if h.Masked() then (FrameMemory(MaskByte1, h), Indeterminate)
        else if h.length > 0 then (FrameMemory(Body, h), Indeterminate)
        else (FrameMemory(HeaderByte2, h), Yes)
      else if g.Len() == 126 then (FrameMemory(Length2, g.(length := 0)), Indeterminate)
      else (FrameMemory(Length8, g.(length := 0)), Indeterminate)
    case Length8 => (FrameMemory(Length7, f.(length := Or(f.length, b * 0x100_0000_0000_0000))), Indeterminate)
    case Length7 => (FrameMemory(Length6, f.(length := Or(f.length, b * 0x1_0000_0000_0000))), Indeterminate)
    case Length6 => (FrameMemory(Length5, f.(length := Or(f.length, b * 0x100_0000_0000))), Indeterminate)
    case Length5 => (FrameMemory(Length4, f.(length := Or(f.length, b * 0x1_0000_0000))), Indeterminate)
    case Length4 => (FrameMemory(Length3, f.(length := Or(f.length, b * 0x100_0000))), Indeterminate)
    case Length3 => (FrameMemory(Length2, f.(length := Or(f.length, b * 0x1_0000))), Indeterminate)
    case Length2 => (FrameMemory(Length1, f.(length := Or(f.length, b * 0x100))), Indeterminate)
    case Length1 =>
      var g := f.(length := Or(f.length, b), content := []);
      (FrameMemory(if g.Masked() then MaskByte1 else Body, g), Indeterminate)
    case MaskByte1 => (FrameMemory(MaskByte2, f.(mask := f.mask[0 := b])), Indeterminate)
    case MaskByte2 => (FrameMemory(MaskByte3, f.(mask := f.mask[1 := b])), Indeterminate)
    case MaskByte3 => (FrameMemory(MaskByte4, f.(mask := f.mask[2 := b])), Indeterminate)
    case MaskByte4 =>
      var g := f.(mask := f.mask[3 := b]);
      if g.length > 0 then (FrameMemory(Body, g), Indeterminate) else (FrameMemory(MaskByte4, g), Yes)
    case Body =>
      var g := f.(content := f.content + [b]);
      if |g.content| < g.length then (FrameMemory(Body, g), Indeterminate)
      else (FrameMemory(Body, if g.Masked() then g.(content := Unmask(g.content, g.mask, g.length)) else g), Yes)
  }

  function ParseFrame(p: FrameMemory, s: seq<Byte>): Outcome<FrameMemory> {
    Parse(Consume, p, s)
  }

  // ---------------------------------------------------------------- wire format

  datatype LengthForm = Short | Medium | Long {
    /** Bytes of extended length, and the exclusive bound they can express. */
    function Extra(): nat { match this case Short => 0 case Medium => 2 case Long => 8 }
  }

  /** A frame as a peer puts it on the wire: `head` is the first byte (FIN, the
      reserved bits and the opcode). */
  datatype WireFrame = WireFrame(head: Byte, form: LengthForm, key: Option<MaskKey>, payload: seq<Byte>) {
    /** The length form can express the payload length. It need not be minimal. */
    predicate Fits() {
      match form
      case Short => |payload| < 126
      case Medium => |payload| < 0x1_0000
      case Long => |payload| < 0x1_0000_0000_0000_0000
    }

    /** The shortest form that can express the length, as section 5.2 requires. */
    predicate Minimal() {
      Fits() && (form.Medium? ==> |payload| >= 126) && (form.Long? ==> |payload| >= 0x1_0000)
    }

    function Second(): Byte
      requires Fits()
    {
      (if key.Some? then 128 else 0) +
      (match form case Short => |payload| case Medium => 126 case Long => 127)
    }

    function Prefix(): seq<Byte>
      requires Fits()
    {
      [head, Second()] + BigEndian(|payload|, form.Extra()) + (if key.Some? then key.value else [])
    }

    function Encode(): seq<Byte>
      requires Fits()
    {
      Prefix() + (if key.Some? then Unmask(payload, key.value, |payload|) else payload)
    }

    /** An unmasked empty payload under an extended length form. */
    predicate Swallows() {
      key.None? && form != Short && payload == []
    }
  }

  /** The `k` low-order bytes of `n`, most significant first. */
  function BigEndian(n: nat, k: nat): (s: seq<Byte>)
    ensures |s| == k
  {
    if k == 0 then [] else BigEndian(n / 256, k - 1) + [n % 256]
  }

  function BigEndianValue(s: seq<Byte>): nat {
    if s == [] then 0 else BigEndianValue(s[..|s| - 1]) * 256 + s[|s| - 1]
  }

  function Pow256(k: nat): (p: nat)
    ensures p > 0
  {
    if k == 0 then 1 else 256 * Pow256(k - 1)
  }

  lemma {:induction false} BigEndianRoundTrip(n: nat, k: nat)
    requires n < Pow256(k)
    ensures BigEndianValue(BigEndian(n, k)) == n
  {
    if k > 0 {
      BigEndianRoundTrip(n / 256, k - 1);
      assert BigEndian(n, k)[..k - 1] == BigEndian(n / 256, k - 1);
    }
  }

  lemma {:induction false} BigEndianOnto(s: seq<Byte>)
    ensures BigEndianValue(s) < Pow256(|s|)
    ensures BigEndian(BigEndianValue(s), |s|) == s
  {
    if s != [] {
      var t := s[..|s| - 1];
      BigEndianOnto(t);
      assert BigEndianValue(s) / 256 == BigEndianValue(t);
      assert s == t + [s[|s| - 1]];
    }
  }

  lemma Pow256Values()
    ensures Pow256(1) == 0x100 && Pow256(2) == 0x1_0000 && Pow256(3) == 0x100_0000
    ensures Pow256(4) == 0x1_0000_0000 && Pow256(5) == 0x100_0000_0000
    ensures Pow256(6) == 0x1_0000_0000_0000 && Pow256(7) == 0x100_0000_0000_0000
    ensures Pow256(8) == 0x1_0000_0000_0000_0000
  {
    assert Pow256(1) == 256 * Pow256(0);
    assert Pow256(2) == 256 * Pow256(1);
    assert Pow256(3) == 256 * Pow256(2);
    assert Pow256(4) == 256 * Pow256(3);
    assert Pow256(5) == 256 * Pow256(4);
    assert Pow256(6) == 256 * Pow256(5);
    assert Pow256(7) == 256 * Pow256(6);
    assert Pow256(8) == 256 * Pow256(7);
  }

  /** Masking with the same key twice restores the payload. */
  lemma UnmaskInvolution(s: seq<Byte>, key: MaskKey, n: nat)
    ensures Unmask(Unmask(s, key, n), key, n) == s
  {
    forall i | 0 <= i < |s|
      ensures Unmask(Unmask(s, key, n), key, n)[i] == s[i]
    {
      XorInvolution(s[i], key[i % 4]);
    }
  }

  // ---------------------------------------------------------------- one frame through the parser

  function LengthState(k: nat): FrameState
    requires 1 <= k <= 8
  {
    if k == 8 then Length8 else if k == 7 then Length7 else if k == 6 then Length6 else if k == 5 then Length5
    else if k == 4 then Length4 else if k == 3 then Length3 else if k == 2 then Length2 else Length1
  }

  lemma {:induction false} Pow256IsPow2(k: nat)
    ensures Pow256(k) == Pow2(8 * k)
  {
    if k > 0 {
      Pow256IsPow2(k - 1);
      var n := 8 * (k - 1);
      assert Pow2(n + 2) == 4 * Pow2(n);
      assert Pow2(n + 4) == 4 * Pow2(n + 2);
      assert Pow2(n + 6) == 4 * Pow2(n + 4);
      assert Pow2(n + 8) == 4 * Pow2(n + 6);
    }
  }

  /** The next length byte lands below the ones already placed. */
  lemma OrPlacesByte(high: nat, k: nat, b: Byte)
    requires k >= 1
    ensures Or(high * Pow256(k), b * Pow256(k - 1)) == (high * 256 + b) * Pow256(k - 1)
  {
    Pow256IsPow2(k);
    var w := Pow256(k - 1);
    assert b * w < 256 * w by { MulStrict(b, 256, w); }
    OrDisjoint(high, 8 * k, b * w);
    Distribute(high, b, w);
  }

  lemma MulAssoc(a: int, b: int, c: int)
    ensures a * (b * c) == a * b * c
  {
  }

  lemma Distribute(a: int, b: int, c: int)
    ensures (a * 256 + b) * c == a * (256 * c) + b * c
  {
    assert (a * 256 + b) * c == (a * 256) * c + b * c;
    MulAssoc(a, 256, c);
  }

  lemma MulStrict(a: int, b: int, c: int)
    requires a < b && c > 0
    ensures a * c < b * c
  {
  }

  lemma LengthStep(k: nat, f: Frame, b: Byte)
    requires 1 <= k <= 8
    ensures Consume(FrameMemory(LengthState(k), f), b) ==
              (var n := Or(f.length, b * Pow256(k - 1));
               if k > 1 then (FrameMemory(LengthState(k - 1), f.(length := n)), Indeterminate)
               else (FrameMemory(if f.Masked() then MaskByte1 else Body,
                                 f.(length := n, content := [])), Indeterminate))
  {
    Pow256Values();
  }

  function AfterLength(f: Frame, n: nat): FrameMemory {
    FrameMemory(if f.Masked() then MaskByte1 else Body, f.(length := n, content := []))
  }

  lemma ShiftIn(high: nat, b: Byte, k: nat, tail: nat, value: nat)
    requires value == b * Pow256(k) + tail
    ensures (high * 256 + b) * Pow256(k) + tail == high * Pow256(k + 1) + value
  {
    ShiftArithmetic(high, b, Pow256(k), Pow256(k + 1), tail, value);
  }

  lemma ShiftArithmetic(high: int, b: int, w: int, w': int, tail: int, value: int)
    requires w' == 256 * w && value == b * w + tail
    ensures (high * 256 + b) * w + tail == high * w' + value
  {
    Distribute(high, b, w);
  }

  lemma LengthByte(k: nat, f: Frame, high: nat, b: Byte)
    requires 1 <= k <= 8 && f.length == high * Pow256(k)
    ensures var n := (high * 256 + b) * Pow256(k - 1);
            Consume(FrameMemory(LengthState(k), f), b) ==
              (if k > 1 then FrameMemory(LengthState(k - 1), f.(length := n)) else AfterLength(f, n), Indeterminate)
  {
    LengthStep(k, f, b);
    OrPlacesByte(high, k, b);
  }

  /** The extended-length states read a big-endian number behind what is already there. */
  lemma {:induction false} LengthBytesPass(k: nat, f: Frame, high: nat, s: seq<Byte>, value: nat)
    requires 1 <= k <= 8 && |s| == k && f.length == high * Pow256(k)
    requires value == high * Pow256(k) + BigEndianValue(s)
    ensures Passes(Consume, FrameMemory(LengthState(k), f), s, AfterLength(f, value))
    decreases k
  {
    var high' := high * 256 + s[0];
    FirstByte(Consume, FrameMemory(LengthState(k), f), s);
    LengthByte(k, f, high, s[0]);
    ValueFromFront(s);
    ShiftIn(high, s[0], k - 1, BigEndianValue(s[1..]), BigEndianValue(s));
    if k > 1 {
      LengthBytesPass(k - 1, f.(length := high' * Pow256(k - 1)), high', s[1..], value);
    } else {
      assert s[1..] == [];
    }
  }

  lemma {:induction false} ValueFromFront(s: seq<Byte>)
    requires s != []
    ensures BigEndianValue(s) == s[0] * Pow256(|s| - 1) + BigEndianValue(s[1..])
  {
    if |s| > 1 {
      var t := s[..|s| - 1];
      ValueFromFront(t);
      assert s[1..][..|s| - 2] == t[1..];
      MulAssoc(s[0], Pow256(|s| - 2), 256);
      assert Pow256(|s| - 1) == Pow256(|s| - 2) * 256;
    }
  }

  lemma MaskBytesPass(f: Frame, key: MaskKey)
    ensures ParseFrame(FrameMemory(MaskByte1, f), key) ==
              Outcome(FrameMemory(if f.length > 0 then Body else MaskByte4, f.(mask := key)),
                      if f.length > 0 then Indeterminate else Yes, 4)
  {
    var m1 := f.mask[0 := key[0]];
    var m2 := m1[1 := key[1]];
    var m3 := m2[2 := key[2]];
    assert m3[3 := key[3]] == key;
    FirstByte(Consume, FrameMemory(MaskByte1, f), key);
    FirstByte(Consume, FrameMemory(MaskByte2, f.(mask := m1)), key[1..]);
    FirstByte(Consume, FrameMemory(MaskByte3, f.(mask := m2)), key[1..][1..]);
    FirstByte(Consume, FrameMemory(MaskByte4, f.(mask := m3)), key[1..][1..][1..]);
    assert key[1..][1..][1..][1..] == [];
  }

  function Finish(f: Frame, content: seq<Byte>): Frame {
    f.(content := if f.Masked() then Unmask(content, f.mask, f.length) else content)
  }

  /** The body state collects exactly the announced number of bytes. */
  lemma {:induction false} BodyAccepts(f: Frame, s: seq<Byte>)
    requires s != [] && |f.content| + |s| == f.length
    ensures ParseFrame(FrameMemory(Body, f), s) ==
              Outcome(FrameMemory(Body, Finish(f, f.content + s)), Yes, |s|)
    decreases |s|
  {
    FirstByte(Consume, FrameMemory(Body, f), s);
    var g := f.(content := f.content + [s[0]]);
    if |s| == 1 {
      assert s == [s[0]];
    } else {
      BodyAccepts(g, s[1..]);
      assert g.content + s[1..] == f.content + s;
    }
  }
}
