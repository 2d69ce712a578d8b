/** The serial protocol of the drive board: STX / body / ETX / LRC frames and decimal fields. */
module SerialLink {
  import opened Bytes
  import opened Decimals

  const STX: Byte := 2
  const ETX: Byte := 3
  const FLAG_OK: Byte := 48
  const MINUS: Byte := 45
  const SEMICOLON: Byte := 59

  // ---------------------------------------------------------------- checksum

  /** The exclusive or of all bytes. */
  function Lrc(s: seq<Byte>): Byte {
    if s == [] then 0 else XorByte(Lrc(s[..|s| - 1]), s[|s| - 1])
  }

  /** Each bit of the checksum is the parity of that bit over the bytes. */
  lemma {:induction false} LrcIsParity(s: seq<Byte>, k: nat)
    ensures Bit(Lrc(s), k) == Ones(s, k) % 2
    decreases |s|
  {
    if s == [] {
      NoBits(k);
    } else {
      var n := |s| - 1;
      LrcIsParity(s[..n], k);
      XorBits(Lrc(s[..n]), s[n], k);
      ParityOfSum(Ones(s[..n], k), Bit(s[n], k));
      BitParity(s[n], k);
    }
  }

  /** The number of bytes in which the bit is set. */
  function Ones(s: seq<Byte>, k: nat): nat
    decreases |s|
  {
    if s == [] then 0 else Ones(s[..|s| - 1], k) + if Bit(s[|s| - 1], k) == 1 then 1 else 0
  }

  lemma {:induction false} BitParity(a: nat, k: nat)
    ensures Bit(a, k) < 2
    decreases k
  {
    if k > 0 {
      BitParity(a / 2, k - 1);
    }
  }

  lemma {:induction false} NoBits(k: nat)
    ensures Bit(0, k) == 0
  {
    if k > 0 {
      NoBits(k - 1);
    }
  }

  lemma {:induction false} XorSelf(a: nat)
    ensures Xor(a, a) == 0
  {
    if a > 0 {
      XorSelf(a / 2);
    }
  }

  /** A stretch followed by its own checksum has checksum zero. */
  lemma LrcCloses(s: seq<Byte>)
    ensures Lrc(s + [Lrc(s)]) == 0
  {
    assert (s + [Lrc(s)])[..|s|] == s;
    XorSelf(Lrc(s));
  }

  lemma XorByteCommutes(a: Byte, b: Byte)
    ensures XorByte(a, b) == XorByte(b, a)
  {
    XorCommutes(a, b);
  }

  /** Changing exactly one byte changes the checksum. */
  lemma {:induction false} LrcDetects(s: seq<Byte>, k: nat, b: Byte)
    requires k < |s| && b != s[k]
    ensures Lrc(s[k := b]) != Lrc(s)
    decreases |s|
  {
    var n := |s| - 1;
    var t := s[k := b];
    if k == n {
      assert t[..n] == s[..n];
      if Lrc(t) == Lrc(s) {
        XorByteCommutes(Lrc(s[..n]), b);
        XorByteCommutes(Lrc(s[..n]), s[k]);
        XorByteCancels(b, s[k], Lrc(s[..n]));
      }
    } else {
      LrcDetects(s[..n], k, b);
      assert t[..n] == s[..n][k := b];
      if Lrc(t) == Lrc(s) {
        XorByteCancels(Lrc(t[..n]), Lrc(s[..n]), s[n]);
      }
    }
  }

  method MakeLrc(data: array<Byte>, from: nat, num: nat) returns (tmp: Byte)
    requires from + num <= data.Length
    ensures tmp == Lrc(data[from..from + num])
  {
    tmp := 0;
    for i := 0 to num
      invariant tmp == Lrc(data[from..from + i])
    {
      tmp := XorByte(tmp, data[from + i]);
      assert data[from..from + i + 1][..i] == data[from..from + i];
    }
  }

  // ---------------------------------------------------------------- receiving

  /** What a call of `get_response` makes of the bytes waiting on the line. `frame` is
      what it leaves in the buffer when it has read a whole frame. */
  datatype Response = Response(ok: bool, consumed: nat, frame: seq<Byte>)

  function Respond(s: seq<Byte>): (r: Response)
    ensures r.consumed <= |s|
  {
    var i := Find(s, STX);
    var j := Find(s[i..], ETX);
    if i == |s| || j + 1 >= |s[i..]| then Response(false, |s|, [])
    else
      var frame := s[i..i + j + 2];
      Response(frame[1] == FLAG_OK && frame[j + 1] == Lrc(frame[1..j + 1]), i + j + 2, frame)
  }

  /** How many bytes a call stores when the line, from the STX on, is `t`: through the
      byte behind the first ETX, or all there is. */
  function Stored(t: seq<Byte>): (n: nat)
    ensures n <= |t|
  {
    if Find(t, ETX) + 1 < |t| then Find(t, ETX) + 2 else |t|
  }

  class SerialPort {
    var incoming: seq<Byte>

    constructor (bytes: seq<Byte>)
      ensures incoming == bytes
    {
      incoming := bytes;
    }

    /** read(fd, &b, 1): a count of zero or less when nothing arrives. */
    method Read() returns (ret: int, b: Byte)
      modifies this
      ensures old(incoming) == [] ==> ret == 0 && incoming == []
      ensures old(incoming) != [] ==> ret == 1 && b == old(incoming)[0] && incoming == old(incoming)[1..]
    {
      if incoming == [] {
        return 0, 0;
      }
      ret, b := 1, incoming[0];
      incoming := incoming[1..];
    }
  }

  /** The first loop: drops bytes up to and including an STX. */
  method Synchronise(port: SerialPort, data: array<Byte>) returns (found: bool)
    requires data.Length > 0
    modifies port, data
    ensures var s := old(port.incoming);
            var i := Find(s, STX);
            && found == (i < |s|)
            && port.incoming == (if found then s[i + 1..] else [])
            && (found ==> data[0] == STX)
  {
    ghost var s := port.incoming;
    ghost var n := 0;
    FindIsFirst(s, STX);
    while true
      invariant n <= |s| && port.incoming == s[n..] && n <= Find(s, STX)
      decreases |port.incoming|
    {
      var ret, b := port.Read();
      if ret <= 0 {
        return false;
      }
      data[0] := b;
      if b == STX {
        return true;
      }
      n := n + 1;
    }
  }

  /** The second loop: reads up to and including the byte after the first ETX. `t` is
      the line from the STX on. */
  method ReadFrame(port: SerialPort, data: array<Byte>, ghost t: seq<Byte>) returns (index: nat, ok: bool)
    requires t != [] && Stored(t) <= data.Length && data[0] == t[0] && t[0] == STX && port.incoming == t[1..]
    modifies port, data
    ensures ok == (Find(t, ETX) + 1 < |t|)
    ensures ok ==> index == Find(t, ETX) + 2 && index <= |t| && data[..index] == t[..index]
    ensures port.incoming == if ok then t[index..] else []
  {
    index := 1;
    FindIsFirst(t, ETX);
    while true
      invariant 1 <= index <= |t| && index <= Find(t, ETX) + 1 && data[..index] == t[..index]
      invariant port.incoming == t[index..]
      decreases |t| - index
    {
      var n, b := port.Read();
      if n <= 0 {
        return index, false;
      }
      assert b == t[index];
      data[index] := b;
      index := index + 1;
      assert data[..index] == data[..index - 1] + [b];
      assert data[index - 2] == data[..index][index - 2] == t[index - 2];
      if data[index - 2] == ETX {
        return index, true;
      }
    }
  }

  /** `get_response`. The buffer must have room for the frame, or for the part of one
      that is on the line; what lies behind the frame needs none. */
  method GetResponse(port: SerialPort, data: array<Byte>) returns (ret: int)
    requires data.Length > 0 && Stored(port.incoming[Find(port.incoming, STX)..]) <= data.Length
    modifies port, data
    ensures var r := Respond(old(port.incoming));
            && ret == (if r.ok then 0 else -1)
            && port.incoming == old(port.incoming)[r.consumed..]
            && (r.frame != [] ==> |r.frame| <= data.Length && data[..|r.frame|] == r.frame)
  {
    ghost var s := port.incoming;
    ghost var i := Find(s, STX);
    FindIsFirst(s, STX);
    var found := Synchronise(port, data);
    if !found {
      return -1;
    }
    ghost var t := s[i..];
    var index, ok := ReadFrame(port, data, t);
    if !ok {
      return -1;
    }
    ghost var frame := t[..index];
    RespondAt(s, i, index, frame);
    var lrc := MakeLrc(data, 1, index - 2);
    assert data[1..1 + (index - 2)] == data[..index][1..index - 1];
    assert data[1] == data[..index][1] && data[index - 1] == data[..index][index - 1];
    if data[1] != FLAG_OK {
      return -1;
    }
    return if data[index - 1] != lrc then -1 else 0;
  }

  /** The answer in terms of where the frame starts and ends. */
  lemma RespondAt(s: seq<Byte>, i: nat, n: nat, frame: seq<Byte>)
    requires i == Find(s, STX) && i < |s| && n == Find(s[i..], ETX) + 2 && n <= |s[i..]| && frame == s[i..][..n]
    ensures |frame| == n && n >= 3
    ensures Respond(s) == Response(frame[1] == FLAG_OK && frame[n - 1] == Lrc(frame[1..n - 1]), i + n, frame)
    ensures s[i..][n..] == s[i + n..]
  {
    FindHits(s, STX);
    EtxLater(s[i..]);
    SliceOfDrop(s, i, n);
  }

  lemma EtxLater(t: seq<Byte>)
    requires t != [] && t[0] == STX
    ensures Find(t, ETX) > 0
  {
  }

  lemma SliceOfDrop(s: seq<Byte>, i: nat, n: nat)
    requires i + n <= |s|
    ensures s[i..i + n] == s[i..][..n] && s[i..][n..] == s[i + n..]
  {
  }

  /** A well-formed answer. */
  function Frame(body: seq<Byte>): seq<Byte> {
    [STX] + body + [ETX, Lrc(body + [ETX])]
  }

  predicate Good(body: seq<Byte>) {
    body != [] && body[0] == FLAG_OK && ETX !in body
  }

  /** Noise, then STX, an ETX-free body, ETX and one more byte: the call takes exactly
      these, and succeeds exactly when the flag and the checksum are right. */
  lemma RespondFrame(noise: seq<Byte>, body: seq<Byte>, lrc: Byte, rest: seq<Byte>)
    requires 0x02 !in noise && 0x03 !in body
    ensures var f := [0x02] + body + [0x03, lrc];
            Respond(noise + f + rest) ==
              Response(body != [] && body[0] == '0' as int && lrc == Lrc(body + [0x03]), |noise| + |f|, f)
  {
    var f := [STX] + body + [ETX, lrc];
    var i, j := |noise|, |body| + 1;
    FrameSlices(noise, body, lrc, rest);
    FindUnique(noise + f + rest, STX, i);
    FindUnique(f + rest, ETX, j);
    RespondAt(noise + f + rest, i, j + 2, f);
  }

  lemma FrameSlices(noise: seq<Byte>, body: seq<Byte>, lrc: Byte, rest: seq<Byte>)
    ensures var f := [STX] + body + [ETX, lrc];
            var s := noise + f + rest;
            && s[|noise|..] == f + rest && s[|noise|] == STX && (f + rest)[..|f|] == f
            && f[1..|body| + 2] == body + [ETX] && f[|body| + 2] == lrc
            && (f + rest)[|body| + 1] == ETX && (body != [] ==> f[1] == body[0])
            && (forall k | 0 <= k < |noise| :: s[k] == noise[k])
            && (forall k | 0 < k <= |body| :: (f + rest)[k] == body[k - 1])
            && (f + rest)[0] == STX && (body == [] ==> f[1] == ETX)
  {
  }

  datatype Answer = Answer(noise: seq<Byte>, body: seq<Byte>)

  predicate GoodAnswer(x: Answer) {
    STX !in x.noise && Good(x.body)
  }

  predicate AllGood(xs: seq<Answer>) {
    forall x | x in xs :: GoodAnswer(x)
  }

  function Line(xs: seq<Answer>): seq<Byte> {
    if xs == [] then [] else xs[0].noise + Frame(xs[0].body) + Line(xs[1..])
  }

  /** `n` calls, one after another. */
  function Calls(s: seq<Byte>, n: nat): (seq<Response>, seq<Byte>) {
    if n == 0 then ([], s)
    else
      var r := Respond(s);
      var (rs, rest) := Calls(s[r.consumed..], n - 1);
      ([r] + rs, rest)
  }

  /** Success with exactly the frame of the answer, after its noise. */
  function Expected(x: Answer): Response {
    Response(true, |x.noise| + |Frame(x.body)|, Frame(x.body))
  }

  function AllExpected(xs: seq<Answer>): seq<Response> {
    if xs == [] then [] else [Expected(xs[0])] + AllExpected(xs[1..])
  }

  lemma FirstCall(xs: seq<Answer>, tail: seq<Byte>)
    requires xs != [] && GoodAnswer(xs[0])
    ensures var (rs, rest) := Calls(Line(xs[1..]) + tail, |xs| - 1);
            Calls(Line(xs) + tail, |xs|) == ([Expected(xs[0])] + rs, rest)
  {
    FirstAnswer(xs[0], Line(xs[1..]), tail);
  }

  /** A sequence of frames with STX-free noise before each: every call succeeds with its
      own frame, and together they read the line to its end. */
  lemma {:induction false} Resynchronises(xs: seq<Answer>, tail: seq<Byte>)
    requires AllGood(xs)
    ensures Calls(Line(xs) + tail, |xs|) == (AllExpected(xs), tail)
    decreases |xs|
  {
    if xs == [] {
      assert Line(xs) + tail == tail;
    } else {
      FirstCall(xs, tail);
      Resynchronises(xs[1..], tail);
    }
  }

  lemma FirstAnswer(x: Answer, more: seq<Byte>, tail: seq<Byte>)
    requires GoodAnswer(x)
    ensures var s := x.noise + Frame(x.body) + more + tail;
            Respond(s) == Expected(x) && s[Expected(x).consumed..] == more + tail
  {
    LineSplit(x.noise, Frame(x.body), more, tail);
    RespondFrame(x.noise, x.body, Lrc(x.body + [ETX]), more + tail);
  }

  lemma LineSplit(noise: seq<Byte>, f: seq<Byte>, more: seq<Byte>, tail: seq<Byte>)
    ensures noise + f + more + tail == noise + f + (more + tail)
    ensures (noise + f + more + tail)[|noise| + |f|..] == more + tail
  {
  }

  /** One body byte changed to another non-ETX value: the call fails, and the line is
      still read exactly to the end of that frame. */
  lemma CorruptBodyDetected(noise: seq<Byte>, body: seq<Byte>, k: nat, b: Byte, rest: seq<Byte>)
    requires STX !in noise && Good(body) && k < |body| && b != body[k] && b != ETX
    ensures var f := Frame(body)[k + 1 := b];
            var r := Respond(noise + f + rest);
            !r.ok && r.consumed == |noise| + |f|
  {
    var body' := body[k := b];
    assert Frame(body)[k + 1 := b] == [STX] + body' + [ETX, Lrc(body + [ETX])];
    LrcDetects(body + [ETX], k, b);
    assert (body + [ETX])[k := b] == body' + [ETX];
    RespondFrame(noise, body', Lrc(body + [ETX]), rest);
  }

  /** A changed checksum byte makes the call fail. */
  lemma CorruptChecksumDetected(noise: seq<Byte>, body: seq<Byte>, lrc: Byte, rest: seq<Byte>)
    requires STX !in noise && Good(body) && lrc != Lrc(body + [ETX])
    ensures var r := Respond(noise + ([STX] + body + [ETX, lrc]) + rest);
            !r.ok && r.consumed == |noise| + |Frame(body)|
  {
    RespondFrame(noise, body, lrc, rest);
  }
}
