/** Uniting gyroscope and accelerometer samples: the streaming interpolation against
    one piecewise-linear interpolation of the whole input. Times are reals. */
module ImuInterpolation {
  import opened Bytes
  import opened Incremental

  datatype Vector = Vector(x: real, y: real, z: real)

  datatype Kind = Gyro | Accel

  datatype ImuData = ImuData(kind: Kind, data: Vector, time: real) {
    predicate IsSet() { time > 0.0 }
  }

  /** A united message: the gyroscope's time and rates, an interpolated acceleration. It is
      no number when the two accelerometer samples have the same time. */
  datatype United = United(time: real, angular: Vector, linear: Option<Vector>)

  /** A default-constructed sample, with no time yet. */
  const UNSET: ImuData := ImuData(Gyro, Vector(0.0, 0.0, 0.0), -1.0)

  function Lerp(a: Vector, b: Vector, t: real): Vector {
    Vector(a.x * (1.0 - t) + b.x * t, a.y * (1.0 - t) + b.y * t, a.z * (1.0 - t) + b.z * t)
  }

  /** Where `t` lies between two accelerometer samples. */
  function Weight(a: ImuData, b: ImuData, t: real): real
    requires a.time != b.time
  {
    (t - a.time) / (b.time - a.time)
  }

  function Blend(a: ImuData, b: ImuData, t: real): Option<Vector> {
    if a.time == b.time then None else Some(Lerp(a.data, b.data, Weight(a, b, t)))
  }

  function Unite(a: ImuData, b: ImuData, g: ImuData): United {
    United(g.time, g.data, Blend(a, b, g.time))
  }

  function UniteAll(a: ImuData, b: ImuData, gs: seq<ImuData>): (r: seq<United>)
    ensures |r| == |gs|
  {
    seq(|gs|, i requires 0 <= i < |gs| => Unite(a, b, gs[i]))
  }

  /** What the scan of the history remembers. */
  datatype Scan = Scan(accel0: ImuData, gyros: seq<ImuData>)

  /** One sample of the history. */
  function Absorb(s: Scan, c: ImuData): (Scan, seq<United>) {
    if c.kind == Accel then
      if s.accel0.IsSet() then (Scan(c, []), UniteAll(s.accel0, c, s.gyros))
      else (Scan(c, s.gyros), [])
    else if s.accel0.IsSet() && c.time >= s.accel0.time then (s.(gyros := s.gyros + [c]), [])
    else (s, [])
  }

  const BEGIN: Scan := Scan(UNSET, [])

  function ScanAll(h: seq<ImuData>): (Scan, seq<United>) {
    Run(Absorb, BEGIN, h)
  }

  /** One call: the new history and the messages. */
  function Fill(history: seq<ImuData>, c: ImuData): (seq<ImuData>, seq<United>) {
    var h := history + [c];
    if c.kind != Accel || |h| < 3 then (h, []) else ([c], ScanAll(h).1)
  }

  /** The messages so far and those the rest of a scan will add. */
  function Rest(msgs: seq<United>, accel0: ImuData, gyros: seq<ImuData>, h: seq<ImuData>): seq<United> {
    msgs + Run(Absorb, Scan(accel0, gyros), h).1
  }

  lemma RestStep(msgs: seq<United>, accel0: ImuData, gyros: seq<ImuData>, h: seq<ImuData>)
    requires h != []
    ensures var (s, out) := Absorb(Scan(accel0, gyros), h[0]);
            Rest(msgs, accel0, gyros, h) == Rest(msgs + out, s.accel0, s.gyros, h[1..]) && msgs + [] == msgs
  {
    RunFirst(Absorb, Scan(accel0, gyros), h);
    var (s, out) := Absorb(Scan(accel0, gyros), h[0]);
    assert msgs + (out + Run(Absorb, s, h[1..]).1) == msgs + out + Run(Absorb, s, h[1..]).1;
  }

  // ---------------------------------------------------------------- the node

  class BaseRealSenseNode {
    var imuHistory: seq<ImuData>

    constructor ()
      ensures imuHistory == []
    {
      imuHistory := [];
    }

    method FillImuDataLinearInterpolation(imuData: ImuData) returns (imuMsgs: seq<United>)
      modifies this
      ensures (imuHistory, imuMsgs) == Fill(old(imuHistory), imuData)
    {
      imuHistory := imuHistory + [imuData];
      imuMsgs := [];
      if imuData.kind != Accel || |imuHistory| < 3 {
        return;
      }
      ghost var h := imuHistory;
      var gyrosData: seq<ImuData> := [];
      var accel0, crnt := UNSET, UNSET;
      assert Rest([], accel0, [], h) == ScanAll(h).1;
      while imuHistory != []
        invariant if imuHistory == [] then crnt == imuData else imuHistory[|imuHistory| - 1] == imuData
        invariant ScanAll(h).1 == Rest(imuMsgs, accel0, gyrosData, imuHistory)
        decreases |imuHistory|
      {
        RestStep(imuMsgs, accel0, gyrosData, imuHistory);
        crnt := imuHistory[0];
        imuHistory := imuHistory[1..];
        if !accel0.IsSet() && crnt.kind == Accel {
          accel0 := crnt;
        } else if accel0.IsSet() && crnt.kind == Accel {
          imuMsgs := UniteGyros(accel0, crnt, gyrosData, imuMsgs);
          gyrosData := [];
          accel0 := crnt;
        } else if accel0.IsSet() && crnt.time >= accel0.time && crnt.kind == Gyro {
          gyrosData := gyrosData + [crnt];
        }
      }
      assert Rest(imuMsgs, accel0, gyrosData, []) == imuMsgs;
      imuHistory := imuHistory + [crnt];
      assert imuHistory == [imuData];
    }

    /** The inner loop: empties the gyro queue between two accelerometer samples. */
    method UniteGyros(accel0: ImuData, accel1: ImuData, gyros: seq<ImuData>, before: seq<United>)
      returns (imuMsgs: seq<United>)
      ensures imuMsgs == before + UniteAll(accel0, accel1, gyros)
    {
      var gyrosData := gyros;
      imuMsgs := before;
      while gyrosData != []
        invariant |gyrosData| <= |gyros| && gyrosData == gyros[|gyros| - |gyrosData|..]
        invariant imuMsgs == before + UniteAll(accel0, accel1, gyros)[..|gyros| - |gyrosData|]
        decreases |gyrosData|
      {
        var gyro := gyrosData[0];
        gyrosData := gyrosData[1..];
        imuMsgs := imuMsgs + [Unite(accel0, accel1, gyro)];
      }
    }
  }

  // ---------------------------------------------------------------- streaming is one scan

  function Feed(history: seq<ImuData>, xs: seq<ImuData>): (seq<ImuData>, seq<United>) {
    Run(Fill, history, xs)
  }

  predicate Timed(xs: seq<ImuData>) {
    forall i | 0 <= i < |xs| :: xs[i].time > 0.0
  }

  /** The history stands for everything seen: it scans to the same memory, and owes nothing. */
  predicate StandsFor(history: seq<ImuData>, s: Scan) {
    ScanAll(history) == (s, [])
  }

  lemma ScanSnoc(h: seq<ImuData>, c: ImuData)
    ensures var (s, out) := ScanAll(h);
            var (s', out') := Absorb(s, c);
            ScanAll(h + [c]) == (s', out + out')
    ensures ScanAll([c]) == Absorb(BEGIN, c)
  {
    RunAppend(Absorb, BEGIN, h, [c]);
    RunFirst(Absorb, BEGIN, [c]);
    RunFirst(Absorb, ScanAll(h).0, [c]);
  }

  lemma FillStandsFor(history: seq<ImuData>, s: Scan, c: ImuData)
    requires StandsFor(history, s) && c.time > 0.0
    ensures var (h', out) := Fill(history, c);
            StandsFor(h', Absorb(s, c).0) && out == Absorb(s, c).1
  {
    ScanSnoc(history, c);
    var (s', out) := Absorb(s, c);
    assert [] + out == out;
    if c.kind == Accel {
      ScanSnoc([], c);
      if |history| == 0 {
      } else if |history| == 1 {
        ScanSnoc([], history[0]);
        assert history == [history[0]];
        assert s.gyros == [];
      } else if !s.accel0.IsSet() {
        Sets(history);
      }
    }
  }

  /** Only an accelerometer sample is ever kept as `accel0`; gyros are queued only behind a set one. */
  lemma {:induction false} Sets(h: seq<ImuData>)
    ensures ScanAll(h).0.accel0.IsSet() || ScanAll(h).0.gyros == []
    decreases |h|
  {
    if h != [] {
      var before := h[..|h| - 1];
      Sets(before);
      ScanSnoc(before, h[|h| - 1]);
      assert h == before + [h[|h| - 1]];
    }
  }

  /** All calls together emit what a single scan of the whole input emits. */
  lemma {:induction false} FeedIsScan(history: seq<ImuData>, s: Scan, xs: seq<ImuData>)
    requires StandsFor(history, s) && Timed(xs)
    ensures var (h', out) := Feed(history, xs);
            StandsFor(h', Run(Absorb, s, xs).0) && out == Run(Absorb, s, xs).1
    decreases |xs|
  {
    if xs != [] {
      FillStandsFor(history, s, xs[0]);
      FeedIsScan(Fill(history, xs[0]).0, Absorb(s, xs[0]).0, xs[1..]);
    }
  }

  // ---------------------------------------------------------------- the batch

  function Accels(xs: seq<ImuData>): (r: seq<ImuData>) {
    if xs == [] then []
    else Accels(xs[..|xs| - 1]) + (if xs[|xs| - 1].kind == Accel then [xs[|xs| - 1]] else [])
  }

  function Gyros(xs: seq<ImuData>): (r: seq<ImuData>) {
    if xs == [] then []
    else Gyros(xs[..|xs| - 1]) + (if xs[|xs| - 1].kind == Gyro then [xs[|xs| - 1]] else [])
  }

  /** The position of the first accelerometer sample, or the length. */
  function FirstAccel(xs: seq<ImuData>): (i: nat)
    ensures i <= |xs| && (i < |xs| ==> xs[i].kind == Accel)
  {
    if xs == [] || xs[0].kind == Accel then 0 else FirstAccel(xs[1..]) + 1
  }

  /** One past the position of the last accelerometer sample, or zero. */
  function LastAccel(xs: seq<ImuData>): (i: nat)
    ensures i <= |xs| && (i > 0 ==> xs[i - 1].kind == Accel)
    decreases |xs|
  {
    if xs == [] then 0 else if xs[|xs| - 1].kind == Accel then |xs| else LastAccel(xs[..|xs| - 1])
  }

  lemma {:induction false} NoAccelBefore(xs: seq<ImuData>, k: nat)
    requires k < FirstAccel(xs)
    ensures xs[k].kind != Accel
    decreases |xs|
  {
    if k > 0 {
      NoAccelBefore(xs[1..], k - 1);
    }
  }

  lemma {:induction false} NoAccelBehind(xs: seq<ImuData>, k: nat)
    requires LastAccel(xs) <= k < |xs|
    ensures xs[k].kind != Accel
    decreases |xs|
  {
    if k < |xs| - 1 {
      NoAccelBehind(xs[..|xs| - 1], k);
    }
  }

  /** From the first accelerometer sample to the last. */
  function Window(xs: seq<ImuData>): seq<ImuData> {
    if FirstAccel(xs) < LastAccel(xs) then xs[FirstAccel(xs)..LastAccel(xs)] else []
  }

  /** The samples that arrived behind the last accelerometer sample. */
  function Since(xs: seq<ImuData>): seq<ImuData> {
    xs[LastAccel(xs)..]
  }

  /** The gyroscope samples that arrived between the first and the last accelerometer sample. */
  function Between(xs: seq<ImuData>): seq<ImuData> {
    Gyros(Window(xs))
  }

  /** The piecewise-linear curve through accelerometer samples. */
  function Interpolate(knots: seq<ImuData>, t: real): Option<Vector>
    requires knots != []
    decreases |knots|
  {
    if |knots| == 1 then Some(knots[0].data)
    else if t <= knots[1].time then Blend(knots[0], knots[1], t)
    else Interpolate(knots[1..], t)
  }

  /** Gyro samples placed on a curve. */
  function Draw(gs: seq<ImuData>, knots: seq<ImuData>): (r: seq<United>)
    requires gs == [] || knots != []
    ensures |r| == |gs|
  {
    seq(|gs|, i requires 0 <= i < |gs| => United(gs[i].time, gs[i].data, Interpolate(knots, gs[i].time)))
  }

  /** The whole input at once: every gyro sample between, on the curve through all accelerations. */
  function Batch(xs: seq<ImuData>): seq<United> {
    KnotEnds(xs);
    Draw(Between(xs), Accels(xs))
  }

  predicate Increasing(knots: seq<ImuData>) {
    forall i, j | 0 <= i < j < |knots| :: knots[i].time < knots[j].time
  }

  /** Positive times that never go back, and accelerometer times that always advance. */
  predicate ValidInput(xs: seq<ImuData>) {
    && Timed(xs)
    && (forall i, j | 0 <= i < j < |xs| :: xs[i].time <= xs[j].time)
    && (forall i, j | 0 <= i < j < |xs| && xs[i].kind == Accel && xs[j].kind == Accel :: xs[i].time < xs[j].time)
  }

  lemma {:induction false} GyrosAppend(a: seq<ImuData>, b: seq<ImuData>)
    ensures Gyros(a + b) == Gyros(a) + Gyros(b)
    decreases |b|
  {
    if b == [] {
      assert a + b == a;
    } else {
      var b' := b[..|b| - 1];
      GyrosAppend(a, b');
      assert (a + b)[..|a + b| - 1] == a + b';
    }
  }

  lemma {:induction false} GyrosAreSamples(s: seq<ImuData>)
    ensures forall g | g in Gyros(s) :: g in s && g.kind == Gyro
    decreases |s|
  {
    if s != [] {
      GyrosAreSamples(s[..|s| - 1]);
    }
  }

  // How one more sample changes the functions of the input.

  lemma AccelsSnoc(b: seq<ImuData>, c: ImuData)
    ensures Accels(b + [c]) == Accels(b) + (if c.kind == Accel then [c] else [])
  {
    assert (b + [c])[..|b|] == b;
  }

  lemma GyrosSnoc(b: seq<ImuData>, c: ImuData)
    ensures Gyros(b + [c]) == Gyros(b) + (if c.kind == Gyro then [c] else [])
  {
    assert (b + [c])[..|b|] == b;
  }

  lemma LastSnoc(b: seq<ImuData>, c: ImuData)
    ensures LastAccel(b + [c]) == if c.kind == Accel then |b| + 1 else LastAccel(b)
  {
    assert (b + [c])[..|b|] == b;
  }

  lemma {:induction false} FirstSnoc(b: seq<ImuData>, c: ImuData)
    ensures FirstAccel(b + [c]) ==
              if FirstAccel(b) < |b| || c.kind == Accel then FirstAccel(b) else |b| + 1
    decreases |b|
  {
    if b == [] {
      assert b + [c] == [c] && [c][1..] == [];
    } else {
      assert (b + [c])[1..] == b[1..] + [c];
      FirstSnoc(b[1..], c);
    }
  }

  /** The knots start at the first accelerometer sample and end at the last. */
  lemma {:induction false} KnotEnds(xs: seq<ImuData>)
    ensures (Accels(xs) == []) <==> LastAccel(xs) == 0
    ensures LastAccel(xs) == 0 <==> FirstAccel(xs) == |xs|
    ensures LastAccel(xs) > 0 ==>
      (var ks := Accels(xs);
       FirstAccel(xs) < LastAccel(xs) && ks[0] == xs[FirstAccel(xs)] && ks[|ks| - 1] == xs[LastAccel(xs) - 1])
    decreases |xs|
  {
    if xs != [] {
      var b, c := xs[..|xs| - 1], xs[|xs| - 1];
      assert xs == b + [c];
      KnotEnds(b);
      AccelsSnoc(b, c);
      LastSnoc(b, c);
      FirstSnoc(b, c);
    }
  }

  lemma {:induction false} KnotsIncrease(xs: seq<ImuData>)
    requires ValidInput(xs)
    ensures Increasing(Accels(xs))
    decreases |xs|
  {
    if xs != [] {
      var b, c := xs[..|xs| - 1], xs[|xs| - 1];
      ValidPrefix(xs);
      KnotsIncrease(b);
      assert xs == b + [c];
      AccelsSnoc(b, c);
      if c.kind == Accel && LastAccel(b) > 0 {
        KnotEnds(b);
        Later(xs, LastAccel(b) - 1, |xs| - 1);
        IncreasingSnoc(Accels(b), c);
      } else {
        KnotEnds(b);
        AtMostOneIncreases(Accels(b), c);
      }
    }
  }

  lemma AtMostOneIncreases(ks: seq<ImuData>, c: ImuData)
    ensures ks == [] ==> Increasing(ks + [c])
    ensures ks + [] == ks
  {
  }

  lemma Later(xs: seq<ImuData>, i: nat, j: nat)
    requires ValidInput(xs) && i < j < |xs|
    ensures xs[i].time <= xs[j].time
    ensures xs[i].kind == Accel && xs[j].kind == Accel ==> xs[i].time < xs[j].time
  {
  }

  lemma IncreasingSnoc(knots: seq<ImuData>, c: ImuData)
    requires Increasing(knots) && knots != [] && knots[|knots| - 1].time < c.time
    ensures Increasing(knots + [c])
  {
    forall i | 0 <= i < |knots| ensures knots[i].time < c.time {
      assert i < |knots| - 1 ==> knots[i].time < knots[|knots| - 1].time;
    }
  }

  /** How one more sample moves the window. */
  lemma WindowSnoc(b: seq<ImuData>, c: ImuData)
    ensures c.kind == Gyro ==> Window(b + [c]) == Window(b) && Since(b + [c]) == Since(b) + [c]
    ensures c.kind == Accel ==> Since(b + [c]) == []
    ensures c.kind == Accel ==> Window(b + [c]) == (if LastAccel(b) == 0 then [c] else Window(b) + Since(b) + [c])
  {
    LastSnoc(b, c);
    FirstSnoc(b, c);
    KnotEnds(b);
    var f, l := FirstAccel(b), LastAccel(b);
    Slices(b, c, if l == 0 then 0 else f, l);
  }

  lemma Slices(b: seq<ImuData>, c: ImuData, f: nat, l: nat)
    requires f <= l <= |b|
    ensures (b + [c])[l..] == b[l..] + [c]
    ensures (b + [c])[f..l] == b[f..l]
    ensures (b + [c])[f..|b| + 1] == b[f..l] + b[l..] + [c]
    ensures (b + [c])[|b| + 1..] == []
    ensures (b + [c])[|b|..|b| + 1] == [c]
  {
  }

  /** The scan's memory: the latest accelerometer sample and the gyros behind it. */
  lemma {:induction false} MemoryOf(xs: seq<ImuData>)
    requires ValidInput(xs)
    ensures ScanAll(xs).0 == Memory(xs)
    decreases |xs|
  {
    if xs != [] {
      var b, c := xs[..|xs| - 1], xs[|xs| - 1];
      assert xs == b + [c];
      ValidPrefix(xs);
      MemoryOf(b);
      ScanSnoc(b, c);
      if c.kind == Gyro {
        MemoryGyro(b, c);
      } else {
        MemoryAccel(b, c);
      }
    }
  }

  function Memory(xs: seq<ImuData>): Scan {
    var l := LastAccel(xs);
    if l == 0 then BEGIN else Scan(xs[l - 1], Gyros(Since(xs)))
  }

  lemma MemoryGrows(b: seq<ImuData>, c: ImuData)
    requires c.kind == Gyro
    ensures Memory(b + [c]) ==
              if LastAccel(b) == 0 then BEGIN else Memory(b).(gyros := Memory(b).gyros + [c])
  {
    var l := LastAccel(b);
    LastSnoc(b, c);
    if l > 0 {
      SincePushed(b, c, l);
      GyrosSnoc(b[l..], c);
    }
  }

  /** The sample remembered is set, and not later than the next one. */
  lemma MemoryIsSet(b: seq<ImuData>, c: ImuData)
    requires ValidInput(b + [c]) && LastAccel(b) > 0
    ensures Memory(b).accel0.IsSet() && Memory(b).accel0.time <= c.time
  {
    var l := LastAccel(b);
    Later(b + [c], l - 1, |b|);
    AccelIsSet(b, c, l);
  }

  lemma MemoryGyro(b: seq<ImuData>, c: ImuData)
    requires ValidInput(b + [c]) && c.kind == Gyro
    ensures Memory(b + [c]) == Absorb(Memory(b), c).0
  {
    MemoryGrows(b, c);
    if LastAccel(b) > 0 {
      MemoryIsSet(b, c);
    }
  }

  lemma MemoryAccel(b: seq<ImuData>, c: ImuData)
    requires ValidInput(b + [c]) && c.kind == Accel
    ensures Memory(b + [c]) == Scan(c, []) == Absorb(Memory(b), c).0
  {
    var l := LastAccel(b);
    LastSnoc(b, c);
    SincePushed(b, c, |b| + 1);
    if l > 0 {
      AccelIsSet(b, c, l);
    }
  }

  lemma SincePushed(b: seq<ImuData>, c: ImuData, l: nat)
    requires 0 < l <= |b| + 1
    ensures l <= |b| ==> (b + [c])[l..] == b[l..] + [c] && (b + [c])[l - 1] == b[l - 1]
    ensures l == |b| + 1 ==> (b + [c])[l..] == [] && (b + [c])[l - 1] == c
  {
  }

  lemma AccelIsSet(b: seq<ImuData>, c: ImuData, l: nat)
    requires ValidInput(b + [c]) && 0 < l <= |b|
    ensures b[l - 1].IsSet()
  {
    assert b[l - 1] == (b + [c])[l - 1];
  }

  /** The gyro samples that are not earlier than a time. */
  function NotBefore(gs: seq<ImuData>, t: real): seq<ImuData> {
    if gs == [] then []
    else NotBefore(gs[..|gs| - 1], t) + if gs[|gs| - 1].time >= t then [gs[|gs| - 1]] else []
  }

  lemma NotBeforeSnoc(gs: seq<ImuData>, c: ImuData, t: real)
    ensures NotBefore(gs + [c], t) == NotBefore(gs, t) + if c.time >= t then [c] else []
  {
    assert (gs + [c])[..|gs|] == gs;
  }

  /** What waits to be united: the gyro samples behind the last accelerometer sample that
      are not earlier than it. */
  function Waiting(xs: seq<ImuData>): Scan {
    var l := LastAccel(xs);
    if l == 0 then BEGIN else Scan(xs[l - 1], NotBefore(Gyros(Since(xs)), xs[l - 1].time))
  }

  lemma WaitingGyro(b: seq<ImuData>, c: ImuData)
    requires c.kind == Gyro && Timed(b)
    ensures Waiting(b + [c]) == Absorb(Waiting(b), c).0
  {
    var l := LastAccel(b);
    LastSnoc(b, c);
    if l > 0 {
      SincePushed(b, c, l);
      GyrosSnoc(b[l..], c);
      NotBeforeSnoc(Gyros(b[l..]), c, b[l - 1].time);
    }
  }

  lemma WaitingAccel(b: seq<ImuData>, c: ImuData)
    requires c.kind == Accel && Timed(b)
    ensures Waiting(b + [c]) == Absorb(Waiting(b), c).0
  {
    LastSnoc(b, c);
    SincePushed(b, c, |b| + 1);
  }

  /** For any times, also such as go back: just these samples wait; earlier ones are dropped. */
  lemma {:induction false} WaitingExactly(xs: seq<ImuData>)
    requires Timed(xs)
    ensures ScanAll(xs).0 == Waiting(xs)
    decreases |xs|
  {
    if xs != [] {
      var b, c := xs[..|xs| - 1], xs[|xs| - 1];
      assert xs == b + [c];
      WaitingExactly(b);
      ScanSnoc(b, c);
      if c.kind == Gyro {
        WaitingGyro(b, c);
      } else {
        WaitingAccel(b, c);
      }
    }
  }

  lemma LerpEnds(a: Vector, b: Vector)
    ensures Lerp(a, b, 0.0) == a && Lerp(a, b, 1.0) == b
  {
  }

  lemma WeightEnds(a: ImuData, b: ImuData)
    requires a.time < b.time
    ensures Weight(a, b, a.time) == 0.0 && Weight(a, b, b.time) == 1.0
  {
    QuotientOfEquals(b.time - a.time);
  }

  lemma QuotientOfEquals(d: real)
    requires d > 0.0
    ensures d / d == 1.0
  {
  }

  /** A later knot does not bend the curve before the last one. */
  lemma {:induction false} InterpolateEarlier(knots: seq<ImuData>, c: ImuData, t: real)
    requires knots != [] && Increasing(knots + [c]) && knots[0].time <= t <= knots[|knots| - 1].time
    ensures Interpolate(knots + [c], t) == Interpolate(knots, t)
    decreases |knots|
  {
    var ks := knots + [c];
    if |knots| == 1 {
      assert ks[0].time < ks[1].time;
      WeightEnds(ks[0], c);
      LerpEnds(ks[0].data, c.data);
    } else if t > knots[1].time {
      assert ks[1..] == knots[1..] + [c];
      IncreasingTail(ks);
      InterpolateEarlier(knots[1..], c, t);
    }
  }

  lemma IncreasingTail(knots: seq<ImuData>)
    requires Increasing(knots) && knots != []
    ensures Increasing(knots[1..])
  {
  }

  lemma StrictlyLater(knots: seq<ImuData>, i: nat, j: nat)
    requires Increasing(knots) && i < j < |knots|
    ensures knots[i].time < knots[j].time
  {
  }

  /** Between the last two knots the curve is the straight line the code blends. */
  lemma {:induction false} InterpolateLast(knots: seq<ImuData>, c: ImuData, t: real)
    requires knots != [] && Increasing(knots + [c]) && knots[|knots| - 1].time <= t <= c.time
    ensures Interpolate(knots + [c], t) == Blend(knots[|knots| - 1], c, t)
    decreases |knots|
  {
    var ks := knots + [c];
    var a := knots[|knots| - 1];
    assert ks[|knots| - 1].time < ks[|knots|].time;
    if |knots| > 2 {
      StrictlyLater(ks, 1, |knots| - 1);
    }
    if |knots| > 1 {
      assert ks[0].time < ks[1].time;
      if t <= ks[1].time {
        WeightEnds(ks[0], ks[1]);
        WeightEnds(a, c);
        LerpEnds(ks[0].data, ks[1].data);
        LerpEnds(a.data, c.data);
      } else {
        assert ks[1..] == knots[1..] + [c];
        IncreasingTail(ks);
        InterpolateLast(knots[1..], c, t);
      }
    }
  }

  lemma ValidPrefix(xs: seq<ImuData>)
    requires ValidInput(xs) && xs != []
    ensures ValidInput(xs[..|xs| - 1])
  {
  }

  lemma BetweenAccel(b: seq<ImuData>, c: ImuData)
    requires c.kind == Accel
    ensures Between(b + [c]) == if LastAccel(b) == 0 then [] else Between(b) + Gyros(Since(b))
    ensures LastAccel(b) == 0 ==> Between(b) == []
  {
    WindowSnoc(b, c);
    GyrosAppend(Window(b), Since(b));
    GyrosSnoc(Window(b) + Since(b), c);
    GyrosSnoc([], c);
    assert [] + [c] == [c];
  }

  predicate InTime(gs: seq<ImuData>, from: real, to: real) {
    forall i | 0 <= i < |gs| :: from <= gs[i].time <= to
  }

  lemma NotEarlier(xs: seq<ImuData>, i: nat, j: nat)
    requires ValidInput(xs) && i <= j < |xs|
    ensures xs[i].time <= xs[j].time
  {
  }

  lemma GyrosInTime(s: seq<ImuData>, from: real, to: real)
    requires InTime(s, from, to)
    ensures InTime(Gyros(s), from, to)
  {
    GyrosAreSamples(s);
    forall i | 0 <= i < |Gyros(s)| ensures from <= Gyros(s)[i].time <= to {
      assert Gyros(s)[i] in s;
    }
  }

  lemma SliceInTime(b: seq<ImuData>, f: nat, l: nat)
    requires ValidInput(b) && f < l <= |b|
    ensures InTime(Gyros(b[f..l]), b[f].time, b[l - 1].time)
  {
    var w := b[f..l];
    forall i | 0 <= i < |w| ensures b[f].time <= w[i].time <= b[l - 1].time {
      NotEarlier(b, f, f + i);
      NotEarlier(b, f + i, l - 1);
    }
    GyrosInTime(w, b[f].time, b[l - 1].time);
  }

  lemma BetweenInTime(b: seq<ImuData>)
    requires ValidInput(b) && LastAccel(b) > 0
    ensures var ks := Accels(b); ks != [] && InTime(Between(b), ks[0].time, ks[|ks| - 1].time)
  {
    KnotEnds(b);
    SliceInTime(b, FirstAccel(b), LastAccel(b));
  }

  lemma SinceInTime(b: seq<ImuData>, c: ImuData)
    requires ValidInput(b + [c]) && LastAccel(b) > 0
    ensures InTime(Gyros(Since(b)), b[LastAccel(b) - 1].time, c.time)
  {
    var xs, l := b + [c], LastAccel(b);
    forall i | 0 <= i < |Since(b)| ensures b[l - 1].time <= Since(b)[i].time <= c.time {
      Later(xs, l - 1, l + i);
      Later(xs, l + i, |b|);
    }
    GyrosInTime(Since(b), b[l - 1].time, c.time);
  }

  /** The gyros between lie, in time, on the curve drawn so far; those since, on its next piece. */
  lemma GyrosOnCurve(b: seq<ImuData>, c: ImuData)
    requires ValidInput(b + [c]) && LastAccel(b) > 0
    ensures var ks := Accels(b);
            ks != [] && InTime(Between(b), ks[0].time, ks[|ks| - 1].time)
            && InTime(Gyros(Since(b)), ks[|ks| - 1].time, c.time)
  {
    assert (b + [c])[..|b + [c]| - 1] == b;
    ValidPrefix(b + [c]);
    BetweenInTime(b);
    SinceInTime(b, c);
    KnotEnds(b);
  }

  lemma DrawEarlier(gs: seq<ImuData>, knots: seq<ImuData>, c: ImuData)
    requires knots != [] && Increasing(knots + [c]) && InTime(gs, knots[0].time, knots[|knots| - 1].time)
    ensures Draw(gs, knots + [c]) == Draw(gs, knots)
  {
    forall i | 0 <= i < |gs| ensures Draw(gs, knots + [c])[i] == Draw(gs, knots)[i] {
      InterpolateEarlier(knots, c, gs[i].time);
    }
  }

  lemma DrawLast(gs: seq<ImuData>, knots: seq<ImuData>, c: ImuData)
    requires knots != [] && Increasing(knots + [c]) && InTime(gs, knots[|knots| - 1].time, c.time)
    ensures Draw(gs, knots + [c]) == UniteAll(knots[|knots| - 1], c, gs)
  {
    forall i | 0 <= i < |gs| ensures Draw(gs, knots + [c])[i] == UniteAll(knots[|knots| - 1], c, gs)[i] {
      InterpolateLast(knots, c, gs[i].time);
    }
  }

  lemma DrawAppend(gs: seq<ImuData>, hs: seq<ImuData>, knots: seq<ImuData>)
    requires knots != []
    ensures Draw(gs + hs, knots) == Draw(gs, knots) + Draw(hs, knots)
  {
  }

  /** A further gyro sample adds nothing to the batch, an accelerometer sample adds
      the gyros since the last one. */
  lemma BatchStep(b: seq<ImuData>, c: ImuData)
    requires ValidInput(b + [c])
    ensures Batch(b + [c]) == Batch(b) + Absorb(Memory(b), c).1
  {
    if c.kind == Gyro {
      BatchGyro(b, c);
      assert Batch(b) + [] == Batch(b);
    } else {
      BatchAccel(b, c);
    }
  }

  lemma BatchGyro(b: seq<ImuData>, c: ImuData)
    requires c.kind == Gyro
    ensures Batch(b + [c]) == Batch(b)
  {
    AccelsSnoc(b, c);
    WindowSnoc(b, c);
    assert Between(b + [c]) == Between(b) && Accels(b + [c]) == Accels(b);
  }

  lemma BatchAccel(b: seq<ImuData>, c: ImuData)
    requires ValidInput(b + [c]) && c.kind == Accel
    ensures Batch(b + [c]) == Batch(b) + Absorb(Memory(b), c).1
  {
    KnotEnds(b);
    BetweenAccel(b, c);
    AccelsSnoc(b, c);
    if LastAccel(b) > 0 {
      MemoryIsSet(b, c);
      DrawNext(b, c);
    }
  }

  lemma DrawNext(b: seq<ImuData>, c: ImuData)
    requires ValidInput(b + [c]) && c.kind == Accel && LastAccel(b) > 0
    ensures Accels(b) != []
    ensures Draw(Between(b) + Gyros(Since(b)), Accels(b) + [c])
         == Draw(Between(b), Accels(b)) + UniteAll(Memory(b).accel0, c, Gyros(Since(b)))
  {
    KnotEnds(b);
    AccelsSnoc(b, c);
    KnotsIncrease(b + [c]);
    GyrosOnCurve(b, c);
    DrawMore(Between(b), Gyros(Since(b)), Accels(b), c);
  }

  /** The old points stay where they were, the new ones lie on the newest piece. */
  lemma DrawMore(gs: seq<ImuData>, hs: seq<ImuData>, ks: seq<ImuData>, c: ImuData)
    requires ks != [] && Increasing(ks + [c])
    requires InTime(gs, ks[0].time, ks[|ks| - 1].time) && InTime(hs, ks[|ks| - 1].time, c.time)
    ensures Draw(gs + hs, ks + [c]) == Draw(gs, ks) + UniteAll(ks[|ks| - 1], c, hs)
  {
    DrawAppend(gs, hs, ks + [c]);
    DrawEarlier(gs, ks, c);
    DrawLast(hs, ks, c);
  }

  lemma {:induction false} ScanIsBatch(xs: seq<ImuData>)
    requires ValidInput(xs)
    ensures ScanAll(xs).1 == Batch(xs)
    decreases |xs|
  {
    if xs == [] {
      assert Between(xs) == [];
    } else {
      var b, c := xs[..|xs| - 1], xs[|xs| - 1];
      assert xs == b + [c];
      ValidPrefix(xs);
      ScanIsBatch(b);
      MemoryOf(b);
      ScanSnoc(b, c);
      BatchStep(b, c);
    }
  }

  /** After any number of calls, what they have emitted together is the piecewise-linear
      interpolation of the whole input so far: every gyro sample between the first and
      the latest accelerometer arrival once, in order; none later is owed. */
  lemma StreamingIsBatch(xs: seq<ImuData>)
    requires ValidInput(xs)
    ensures Feed([], xs).1 == Batch(xs)
  {
    FeedIsScan([], BEGIN, xs);
    ScanIsBatch(xs);
  }

  /** Every emitted acceleration blends the two knots around the gyro's time with a weight in [0, 1]. */
  lemma {:induction false} WeightsInRange(knots: seq<ImuData>, t: real) returns (k: nat)
    requires |knots| >= 2 && Increasing(knots) && knots[0].time <= t <= knots[|knots| - 1].time
    ensures k + 1 < |knots| && knots[k].time <= t <= knots[k + 1].time && knots[k].time < knots[k + 1].time
    ensures 0.0 <= Weight(knots[k], knots[k + 1], t) <= 1.0
    ensures Interpolate(knots, t) == Blend(knots[k], knots[k + 1], t)
    decreases |knots|
  {
    assert knots[0].time < knots[1].time;
    if t <= knots[1].time {
      k := 0;
      QuotientInRange(t - knots[0].time, knots[1].time - knots[0].time);
    } else {
      IncreasingTail(knots);
      k := WeightsInRange(knots[1..], t);
      k := k + 1;
    }
  }

  lemma QuotientInRange(a: real, b: real)
    requires 0.0 <= a <= b && b > 0.0
    ensures 0.0 <= a / b <= 1.0
  {
  }

  lemma InteriorGyro(xs: seq<ImuData>, f: nat, l: nat, g: ImuData)
    requires f < l <= |xs| && xs[f].kind == Accel && g in Gyros(xs[f..l])
    ensures f < l - 1
  {
    GyrosAreSamples(xs[f..l]);
    var i :| 0 <= i < |xs[f..l]| && xs[f..l][i] == g;
    assert xs[f + i] == g;
  }

  lemma TwoEnds(xs: seq<ImuData>, f: nat, l: nat, ks: seq<ImuData>)
    requires ValidInput(xs) && f < l - 1 < |xs| && xs[f].kind == Accel && xs[l - 1].kind == Accel
    requires ks != [] && ks[0] == xs[f] && ks[|ks| - 1] == xs[l - 1]
    ensures |ks| >= 2
  {
    Later(xs, f, l - 1);
    assert ks[0].time < ks[|ks| - 1].time;
  }

  lemma EndsOf(xs: seq<ImuData>, g: ImuData) returns (f: nat, l: nat)
    requires g in Between(xs)
    ensures var ks := Accels(xs);
            && f < l - 1 < |xs| && xs[f].kind == Accel && xs[l - 1].kind == Accel
            && ks != [] && ks[0] == xs[f] && ks[|ks| - 1] == xs[l - 1]
  {
    KnotEnds(xs);
    f, l := FirstAccel(xs), LastAccel(xs);
    InteriorGyro(xs, f, l, g);
  }

  /** A gyro sample between two accelerometer arrivals needs two of them. */
  lemma TwoKnots(xs: seq<ImuData>, g: ImuData)
    requires ValidInput(xs) && g in Between(xs)
    ensures |Accels(xs)| >= 2
  {
    var f, l := EndsOf(xs, g);
    TwoEnds(xs, f, l, Accels(xs));
  }

  lemma SampleOnCurve(xs: seq<ImuData>, g: ImuData) returns (k: nat)
    requires ValidInput(xs) && g in Between(xs)
    ensures k + 1 < |Accels(xs)|
    ensures var a, b := Accels(xs)[k], Accels(xs)[k + 1];
            && a.time <= g.time <= b.time && a.time < b.time && 0.0 <= Weight(a, b, g.time) <= 1.0
            && Interpolate(Accels(xs), g.time) == Blend(a, b, g.time)
  {
    KnotsIncrease(xs);
    TwoKnots(xs, g);
    KnotEnds(xs);
    BetweenInTime(xs);
    k := WeightsInRange(Accels(xs), g.time);
  }

  /** The value at time `t` on the straight line through (t0, x0) and (t1, x1). */
  predicate OnLine(t0: real, x0: real, t1: real, x1: real, t: real, x: real) {
    (t1 - t0) * (x - x0) == (t - t0) * (x1 - x0)
  }

  lemma LerpOnLine(t0: real, x0: real, t1: real, x1: real, t: real, w: real)
    requires t0 < t1 && w == (t - t0) / (t1 - t0)
    ensures OnLine(t0, x0, t1, x1, t, x0 * (1.0 - w) + x1 * w)
  {
    var d, n, h := t1 - t0, t - t0, x1 - x0;
    Moved(x0, x1, w);
    assert d * w == n by { QuotientTimes(n, d); }
    Regroup(d, w, h);
  }

  lemma Moved(x0: real, x1: real, w: real)
    ensures x0 * (1.0 - w) + x1 * w - x0 == w * (x1 - x0)
  {
  }

  lemma QuotientTimes(n: real, d: real)
    requires d > 0.0
    ensures d * (n / d) == n
  {
  }

  lemma Regroup(d: real, w: real, h: real)
    ensures d * (w * h) == d * w * h
  {
  }

  /** `v` lies, in every coordinate, on the line from one accelerometer sample to the other. */
  predicate Collinear(a: ImuData, b: ImuData, t: real, v: Vector) {
    && OnLine(a.time, a.data.x, b.time, b.data.x, t, v.x)
    && OnLine(a.time, a.data.y, b.time, b.data.y, t, v.y)
    && OnLine(a.time, a.data.z, b.time, b.data.z, t, v.z)
  }

  lemma BlendIsCollinear(a: ImuData, b: ImuData, t: real)
    requires a.time < b.time
    ensures Blend(a, b, t).Some? && Collinear(a, b, t, Blend(a, b, t).value)
  {
    var w := Weight(a, b, t);
    LerpOnLine(a.time, a.data.x, b.time, b.data.x, t, w);
    LerpOnLine(a.time, a.data.y, b.time, b.data.y, t, w);
    LerpOnLine(a.time, a.data.z, b.time, b.data.z, t, w);
  }

  /** The sample emitted at position `i`: the gyro's own time and rates, and an acceleration
      that lies, at that time, on the straight line from one accelerometer sample to the
      next, one on each side of the gyro sample. */
  lemma EmittedSample(xs: seq<ImuData>, i: nat) returns (k: nat)
    requires ValidInput(xs) && i < |Feed([], xs).1|
    ensures i < |Between(xs)| && k + 1 < |Accels(xs)|
    ensures var g, a, b, out := Between(xs)[i], Accels(xs)[k], Accels(xs)[k + 1], Feed([], xs).1[i];
            && a.time <= g.time <= b.time && a.time < b.time
            && out.time == g.time && out.angular == g.data
            && out.linear.Some? && Collinear(a, b, g.time, out.linear.value)
            && out == Unite(a, b, g) && 0.0 <= Weight(a, b, g.time) <= 1.0
  {
    StreamingIsBatch(xs);
    KnotEnds(xs);
    k := SampleOnCurve(xs, Between(xs)[i]);
    BlendIsCollinear(Accels(xs)[k], Accels(xs)[k + 1], Between(xs)[i].time);
  }

  /** A position lies between the first and the last accelerometer arrival. */
  ghost predicate Enclosed(xs: seq<ImuData>, k: nat) {
    && (exists i | 0 <= i < k && i < |xs| :: xs[i].kind == Accel)
    && (exists j | k < j < |xs| :: xs[j].kind == Accel)
  }

  lemma WindowIsEnclosed(xs: seq<ImuData>, k: nat)
    requires k < |xs| && xs[k].kind == Gyro
    ensures Enclosed(xs, k) <==> FirstAccel(xs) < k < LastAccel(xs)
  {
    var f, l := FirstAccel(xs), LastAccel(xs);
    if i :| 0 <= i < k && xs[i].kind == Accel && k <= f {
      NoAccelBefore(xs, i);
    }
    if j :| k < j < |xs| && xs[j].kind == Accel && l <= k {
      NoAccelBehind(xs, j);
    }
    if f < k < l {
      assert xs[f].kind == Accel && xs[l - 1].kind == Accel;
    }
  }

  /** A gyro sample with an accelerometer arrival before it and one behind it is emitted,
      behind those emitted for the gyro samples before it. */
  lemma EnclosedIsEmitted(xs: seq<ImuData>, k: nat)
    requires ValidInput(xs) && k < |xs| && xs[k].kind == Gyro && Enclosed(xs, k)
    ensures FirstAccel(xs) < k < LastAccel(xs)
    ensures var i, out := |Gyros(xs[FirstAccel(xs)..k])|, Feed([], xs).1;
            && i < |out| == |Between(xs)| && Between(xs)[i] == xs[k]
            && out[i].time == xs[k].time && out[i].angular == xs[k].data
  {
    WindowIsEnclosed(xs, k);
    KnotEnds(xs);
    StreamingIsBatch(xs);
    GyroInSlice(xs, FirstAccel(xs), k, LastAccel(xs));
  }

  lemma GyroInSlice(xs: seq<ImuData>, f: nat, k: nat, l: nat)
    requires f <= k < l <= |xs| && xs[k].kind == Gyro
    ensures var i := |Gyros(xs[f..k])|; i < |Gyros(xs[f..l])| && Gyros(xs[f..l])[i] == xs[k]
  {
    assert xs[f..l] == xs[f..k] + [xs[k]] + xs[k + 1..l];
    GyrosAppend(xs[f..k] + [xs[k]], xs[k + 1..l]);
    GyrosSnoc(xs[f..k], xs[k]);
  }
}
