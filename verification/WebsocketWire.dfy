/** What the frame parser makes of the bytes of section 5.2 of RFC 6455: which
    byte strings it accepts as one frame, and what it decodes them to. */
module WebsocketWire {
  import opened Bytes
  import opened Incremental
  import opened WebsocketFrames

  /** The frame the bytes of `w` stand for. An unmasked frame leaves the old key in place. */
  function Decoded(w: WireFrame, before: Frame): Frame
    requires w.Fits()
  {
    Frame(w.head, w.Second(), |w.payload|, if w.key.Some? then w.key.value else before.mask, w.payload)
  }

  function LengthPart(w: WireFrame): seq<Byte>
    requires w.Fits()
  {
    [w.head, w.Second()] + BigEndian(|w.payload|, w.form.Extra())
  }

  lemma HeaderBytes(w: WireFrame, f: Frame)
    requires w.Fits()
    ensures var g := f.(header0 := w.head, header1 := w.Second());
            var h := g.(length := |w.payload|, content := []);
            ParseFrame(Start(f), [w.head, w.Second()]) ==
              match w.form
              case Medium => Outcome(FrameMemory(Length2, g.(length := 0)), Indeterminate, 2)
              case Long => Outcome(FrameMemory(Length8, g.(length := 0)), Indeterminate, 2)
              case Short =>
                if w.key.Some? then Outcome(FrameMemory(MaskByte1, h), Indeterminate, 2)
                else if w.payload != [] then Outcome(FrameMemory(Body, h), Indeterminate, 2)
                else Outcome(FrameMemory(HeaderByte2, h), Yes, 2)
  {
    var s := [w.head, w.Second()];
    FirstByte(Consume, Start(f), s);
    assert s[1..] == [w.Second()];
    FirstByte(Consume, FrameMemory(HeaderByte2, f.(header0 := w.head)), s[1..]);
    assert s[1..][1..] == [];
  }

  lemma LengthPartPasses(w: WireFrame, f: Frame)
    requires w.Fits()
    ensures var h := Frame(w.head, w.Second(), |w.payload|, f.mask, []);
            ParseFrame(Start(f), LengthPart(w)) ==
              if w.key.Some? then Outcome(FrameMemory(MaskByte1, h), Indeterminate, |LengthPart(w)|)
              else if w.form == Short && w.payload == [] then Outcome(FrameMemory(HeaderByte2, h), Yes, |LengthPart(w)|)
              else Outcome(FrameMemory(Body, h), Indeterminate, |LengthPart(w)|)
  {
    HeaderBytes(w, f);
    var k := w.form.Extra();
    var s := BigEndian(|w.payload|, k);
    if k == 0 {
      assert LengthPart(w) == [w.head, w.Second()];
    } else {
      Pow256Values();
      BigEndianRoundTrip(|w.payload|, k);
      var g := f.(header0 := w.head, header1 := w.Second(), length := 0);
      LengthBytesPass(k, g, 0, s, |w.payload|);
      Continue(Consume, Start(f), [w.head, w.Second()], FrameMemory(LengthState(k), g), s);
    }
  }

  /** Header, length and key together, when payload bytes remain to be read or a
      frame is already complete. */
  lemma PrefixPasses(w: WireFrame, f: Frame)
    requires w.Fits()
    ensures var h := Decoded(w, f).(content := []);
            var o := ParseFrame(Start(f), w.Prefix());
            o.consumed == |w.Prefix()| && o.memory.frame == h &&
            if w.payload == [] && !w.Swallows() then o.result == Yes
            else o.result == Indeterminate && o.memory.state == Body
  {
    LengthPartPasses(w, f);
    var h := Frame(w.head, w.Second(), |w.payload|, f.mask, []);
    if w.key.Some? {
      assert w.Prefix() == LengthPart(w) + w.key.value;
      Continue(Consume, Start(f), LengthPart(w), FrameMemory(MaskByte1, h), w.key.value);
      MaskBytesPass(h, w.key.value);
    } else {
      assert w.Prefix() == LengthPart(w);
    }
  }

  /** Every frame is accepted after exactly its own bytes, in every length form,
      masked or not, and decodes to its payload; the one exception is the unmasked
      empty frame under an extended length. */
  lemma FrameAccepted(w: WireFrame, f: Frame)
    requires w.Fits() && !w.Swallows()
    ensures var o := ParseFrame(Start(f), w.Encode());
            o.result == Yes && o.consumed == |w.Encode()| && o.memory.frame == Decoded(w, f)
  {
    PrefixPasses(w, f);
    var h := Decoded(w, f).(content := []);
    var wire := if w.key.Some? then Unmask(w.payload, w.key.value, |w.payload|) else w.payload;
    if w.payload == [] {
      assert w.Encode() == w.Prefix();
    } else {
      Continue(Consume, Start(f), w.Prefix(), FrameMemory(Body, h), wire);
      BodyAccepts(h, wire);
      assert h.content + wire == wire;
      if w.key.Some? {
        UnmaskInvolution(w.payload, w.key.value, |w.payload|);
      }
    }
  }

  /** The masking rule of section 5.3 of RFC 6455, byte for byte: what a masked frame puts
      on the wire behind its header and key, */
  lemma MaskedOnWire(w: WireFrame, i: nat)
    requires w.Fits() && w.key.Some? && i < |w.payload|
    ensures |w.Prefix()| + i < |w.Encode()|
    ensures w.Encode()[|w.Prefix()| + i] == XorByte(w.payload[i], w.key.value[i % 4])
  {
  }

  lemma SamePrefix(w: WireFrame, u: WireFrame, wire: seq<Byte>)
    requires w.Fits() && |wire| == |w.payload|
    requires u == w.(payload := if w.key.Some? then Unmask(wire, w.key.value, |wire|) else wire)
    ensures u.Fits() && u.Encode() == w.Prefix() + wire
  {
    if w.key.Some? {
      UnmaskInvolution(wire, w.key.value, |wire|);
    }
  }

  /** and what the parser makes of any bytes behind a header and key: byte `i` is combined
      with byte `i` modulo 4 of the key. Without a key they are taken as they are. */
  lemma PayloadOnArrival(w: WireFrame, wire: seq<Byte>, f: Frame, i: nat)
    requires w.Fits() && |wire| == |w.payload| && i < |wire|
    ensures var o := ParseFrame(Start(f), w.Prefix() + wire);
            && o.result == Yes && o.consumed == |w.Prefix() + wire| && |o.memory.frame.content| == |wire|
            && o.memory.frame.content[i] == if w.key.Some? then XorByte(wire[i], w.key.value[i % 4]) else wire[i]
  {
    var u := w.(payload := if w.key.Some? then Unmask(wire, w.key.value, |wire|) else wire);
    SamePrefix(w, u, wire);
    FrameAccepted(u, f);
  }

  /** The exception waits for one more byte, whatever it is, and takes it as payload. */
  lemma FrameSwallows(w: WireFrame, f: Frame, b: Byte)
    requires w.Fits() && w.Swallows()
    ensures ParseFrame(Start(f), w.Encode()).result == Indeterminate
    ensures var o := ParseFrame(Start(f), w.Encode() + [b]);
            o.result == Yes && o.consumed == |w.Encode()| + 1 && o.memory.frame == Decoded(w, f).(content := [b])
  {
    PrefixPasses(w, f);
    assert w.Encode() == w.Prefix();
    var h := Decoded(w, f).(content := []);
    Continue(Consume, Start(f), w.Prefix(), FrameMemory(Body, h), [b]);
    FirstByte(Consume, FrameMemory(Body, h), [b]);
    assert h.content + [b] == [b];
  }

  /** A wire frame is read back from its own bytes if and only if it is not an
      unmasked empty frame in a non-minimal length form. */
  lemma FrameRoundTripExactly(w: WireFrame, f: Frame)
    requires w.Fits()
    ensures var o := ParseFrame(Start(f), w.Encode());
            (o.result == Yes && o.consumed == |w.Encode()| && o.memory.frame == Decoded(w, f)) <==> !w.Swallows()
    ensures w.Minimal() ==> !w.Swallows()
  {
    if w.Swallows() {
      FrameSwallows(w, f, 0);
    } else {
      FrameAccepted(w, f);
    }
  }

  // ---------------------------------------------------------------- the other direction

  /** What the bytes consumed by an accepted frame look like. */
  ghost predicate Spells(w: WireFrame, s: seq<Byte>) {
    w.Fits() && if w.Swallows() then |s| > 0 && s[..|s| - 1] == w.Encode() else s == w.Encode()
  }

  function Padding(n: nat): seq<Byte> {
    seq(n, i => 0)
  }

  /** Read the wire frame off the front of a byte string that is long enough. */
  lemma FramePrefix(t: seq<Byte>) returns (w: WireFrame)
    requires |t| >= 14
    ensures w.Fits() && w.Prefix() <= t && w.payload == Padding(|w.payload|)
  {
    var marker := t[1] % 128;
    var form := if marker < 126 then Short else if marker == 126 then Medium else Long;
    var k := form.Extra();
    var s := t[2..2 + k];
    BigEndianOnto(s);
    Pow256Values();
    var n := if form.Short? then marker else BigEndianValue(s);
    var key := if t[1] >= 128 then Some(t[2 + k..6 + k]) else None;
    w := WireFrame(t[0], form, key, Padding(n));
    assert w.Second() == t[1];
    assert BigEndian(n, k) == s;
    PrefixSlices(t, k);
    assert w.Prefix() == [t[0], t[1]] + s + (if t[1] >= 128 then t[2 + k..6 + k] else []);
  }

  lemma PrefixSlices(t: seq<Byte>, k: nat)
    requires |t| >= 6 + k
    ensures [t[0], t[1]] + t[2..2 + k] + [] <= t
    ensures [t[0], t[1]] + t[2..2 + k] + t[2 + k..6 + k] <= t
  {
    assert [t[0], t[1]] + t[2..2 + k] + [] == t[..2 + k];
    assert [t[0], t[1]] + t[2..2 + k] + t[2 + k..6 + k] == t[..6 + k];
  }

  function Needed(p: WireFrame): nat
    requires p.Fits()
  {
    |p.Prefix()| + |p.payload| + (if p.Swallows() then 1 else 0)
  }

  /** Replace the payload of `p` by the one that `t` carries behind the same prefix. */
  lemma FillPayload(t: seq<Byte>, p: WireFrame) returns (w: WireFrame)
    requires p.Fits() && p.Prefix() <= t && |t| >= Needed(p)
    ensures Spells(w, t[..Needed(p)])
  {
    var n := |p.Prefix()|;
    var wire := t[n..n + |p.payload|];
    w := p.(payload := if p.key.Some? then Unmask(wire, p.key.value, |wire|) else wire);
    if p.key.Some? {
      UnmaskInvolution(wire, p.key.value, |wire|);
    }
    assert w.Prefix() == p.Prefix();
    assert w.Encode() == t[..n + |p.payload|];
    assert t[..Needed(p)][..n + |p.payload|] == t[..n + |p.payload|];
  }

  /** Any byte string is the start of, or starts with, the spelling of some frame. */
  lemma EveryStreamIsFramed(s: seq<Byte>) returns (w: WireFrame, x: seq<Byte>, pad: seq<Byte>)
    ensures Spells(w, x) && x <= s + pad && (pad != [] ==> |s| <= |x|)
  {
    var p := FramePrefix(s + Padding(14));
    pad := if |s| >= Needed(p) then [] else Padding(Needed(p) - |s|);
    PrefixInPadding(s, pad, p.Prefix(), Padding(14));
    w := FillPayload(s + pad, p);
    x := (s + pad)[..Needed(p)];
  }

  lemma PrefixInPadding(s: seq<Byte>, pad: seq<Byte>, p: seq<Byte>, zeros: seq<Byte>)
    requires p <= s + zeros && |p| <= |s + pad|
    requires pad == Padding(|pad|) && zeros == Padding(|zeros|)
    ensures p <= s + pad
  {
    forall i | 0 <= i < |p| ensures p[i] == (s + pad)[i] {
      assert p[i] == (s + zeros)[i];
    }
  }

  /** The frame that is held when `w` has been spelled by `x`. */
  ghost function Held(w: WireFrame, x: seq<Byte>, f: Frame): Frame
    requires Spells(w, x)
  {
    if w.Swallows() then Decoded(w, f).(content := [x[|x| - 1]]) else Decoded(w, f)
  }

  lemma SpelledIsAccepted(w: WireFrame, x: seq<Byte>, f: Frame)
    requires Spells(w, x)
    ensures var o := ParseFrame(Start(f), x);
            o.result == Yes && o.consumed == |x| && o.memory.frame == Held(w, x, f)
  {
    if w.Swallows() {
      var b := x[|x| - 1];
      FrameSwallows(w, f, b);
      assert x == w.Encode() + [b];
    } else {
      FrameAccepted(w, f);
    }
  }

  /** The parser never answers no, and when it answers after exactly `s`, `s` spells a frame. */
  lemma AnsweredIsSpelled(s: seq<Byte>, f: Frame) returns (w: WireFrame)
    ensures var o := ParseFrame(Start(f), s);
            o.result != No && (o.result == Yes && o.consumed == |s| ==> Spells(w, s))
  {
    var x, pad;
    w, x, pad := EveryStreamIsFramed(s);
    var t := s + pad;
    SpelledIsAccepted(w, x, f);
    ParseAppend(Consume, Start(f), s, pad);
    assert t == x + t[|x|..];
    ParseAppend(Consume, Start(f), x, t[|x|..]);
    if ParseFrame(Start(f), s).result != Indeterminate && ParseFrame(Start(f), s).consumed == |s| {
      EqualPrefixes(s, x, t);
    }
  }

  lemma EqualPrefixes(a: seq<Byte>, b: seq<Byte>, t: seq<Byte>)
    requires a <= t && b <= t && |a| == |b|
    ensures a == b
  {
    assert a == t[..|a|] == b;
  }

  /** The parser answers yes after exactly `s` if and only if `s` spells a frame,
      it then holds that frame, and it never answers no. */
  lemma FrameLanguage(s: seq<Byte>, f: Frame)
    ensures var o := ParseFrame(Start(f), s);
            && o.result != No
            && ((o.result == Yes && o.consumed == |s|) <==> exists w :: Spells(w, s))
            && (forall w :: Spells(w, s) ==> o.memory.frame == Held(w, s, f))
  {
    var o := ParseFrame(Start(f), s);
    forall w | Spells(w, s)
      ensures o.result == Yes && o.consumed == |s| && o.memory.frame == Held(w, s, f)
    {
      SpelledIsAccepted(w, s, f);
    }
    var w := AnsweredIsSpelled(s, f);
  }
}
