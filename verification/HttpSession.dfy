/** One connection from its first byte: an HTTP request, the upgrade decision, and
    the WebSocket stream that takes over the leftover bytes. */
module HttpSession {
  import opened Bytes
  import opened Incremental
  import Http = HttpParser
  import HttpGrammar
  import HttpCompleteness
  import HttpSoundness
  import WebsocketFrames
  import opened WebsocketMessages
  import Fragmentation
  import opened HttpRequests
  import Objects = WebsocketConnection

  const CONNECTION: seq<Byte> := Ascii("Connection")
  const UPGRADE: seq<Byte> := Ascii("Upgrade")
  const WEBSOCKET: seq<Byte> := Ascii("websocket")
  const WEBSOCKET_KEY: seq<Byte> := Ascii("Sec-WebSocket-Key")

  /** The first header of that exact name is at `i`. */
  predicate IsFirst(hs: seq<Http.Header>, name: seq<Byte>, i: nat) {
    i < |hs| && hs[i].name == name && forall j | 0 <= j < i :: hs[j].name != name
  }

  /** The value of the first header of that exact name, or nothing. */
  function HeaderValue(hs: seq<Http.Header>, name: seq<Byte>): (value: seq<Byte>)
    ensures (forall i | 0 <= i < |hs| :: hs[i].name != name) ==> value == []
    ensures forall i | 0 <= i < |hs| && IsFirst(hs, name, i) :: value == hs[i].value
  {
    if hs == [] then [] else if hs[0].name == name then hs[0].value else HeaderValue(hs[1..], name)
  }

  predicate Contains(s: seq<Byte>, t: seq<Byte>) {
    exists i | 0 <= i <= |s| :: t <= s[i..]
  }

  function Lower(s: seq<Byte>): seq<Byte> {
    seq(|s|, i requires 0 <= i < |s| => if 65 <= s[i] <= 90 then s[i] + 32 else s[i])
  }

  predicate IsUpgrade(r: Http.Request) {
    && Contains(HeaderValue(r.headers, CONNECTION), UPGRADE)
    && Lower(HeaderValue(r.headers, UPGRADE)) == WEBSOCKET
    && HeaderValue(r.headers, WEBSOCKET_KEY) != []
  }

  /** A header that is named somewhere has a first occurrence. */
  lemma {:induction false} FirstOccurrence(hs: seq<Http.Header>, name: seq<Byte>) returns (i: nat)
    requires HeaderValue(hs, name) != []
    ensures IsFirst(hs, name, i)
    decreases |hs|
  {
    if hs[0].name == name {
      i := 0;
    } else {
      i := FirstOccurrence(hs[1..], name);
      i := i + 1;
    }
  }

  /** `text` in any mix of cases, given in lower and in upper case. */
  predicate InAnyCase(s: seq<Byte>, lower: string, upper: string)
    requires |lower| == |upper|
  {
    |s| == |lower| && forall i | 0 <= i < |s| :: s[i] == lower[i] as int || s[i] == upper[i] as int
  }

  ghost predicate Surrounded(s: seq<Byte>, a: seq<Byte>, t: seq<Byte>, b: seq<Byte>) {
    s == a + t + b
  }

  lemma ContainsExactly(s: seq<Byte>, t: seq<Byte>)
    ensures Contains(s, t) <==> exists a, b :: Surrounded(s, a, t, b)
  {
    if Contains(s, t) {
      var i :| 0 <= i <= |s| && t <= s[i..];
      assert Surrounded(s, s[..i], t, s[i..][|t|..]);
    }
    if a, b :| Surrounded(s, a, t, b) {
      assert s[|a|..] == t + b;
      assert t <= s[|a|..];
    }
  }

  lemma LowerExactly(s: seq<Byte>, lower: string, upper: string)
    requires |lower| == |upper|
    requires forall i | 0 <= i < |lower| :: 'a' <= lower[i] <= 'z' && upper[i] as int == lower[i] as int - 32
    ensures Lower(s) == Ascii(lower) <==> InAnyCase(s, lower, upper)
  {
    if Lower(s) == Ascii(lower) {
      assert |Lower(s)| == |s|;
      forall i | 0 <= i < |s| ensures s[i] == lower[i] as int || s[i] == upper[i] as int {
        assert Lower(s)[i] == Ascii(lower)[i];
      }
    }
  }

  /** The first headers of the three names stand at `i`, `j` and `k`: "Upgrade" anywhere in
      the first, "websocket" in any mix of cases in the second, any key. */
  ghost predicate Handshake(hs: seq<Http.Header>, i: nat, j: nat, k: nat) {
    && IsFirst(hs, Ascii("Connection"), i) && IsFirst(hs, Ascii("Upgrade"), j)
    && IsFirst(hs, Ascii("Sec-WebSocket-Key"), k)
    && (exists a, b :: Surrounded(hs[i].value, a, Ascii("Upgrade"), b))
    && InAnyCase(hs[j].value, "websocket", "WEBSOCKET") && hs[k].value != []
  }

  /** What IsUpgrade looks for, at the first headers of the names. */
  predicate Qualifies(hs: seq<Http.Header>, i: nat, j: nat, k: nat) {
    && IsFirst(hs, CONNECTION, i) && IsFirst(hs, UPGRADE, j) && IsFirst(hs, WEBSOCKET_KEY, k)
    && Contains(hs[i].value, UPGRADE) && Lower(hs[j].value) == WEBSOCKET && hs[k].value != []
  }

  lemma QualifiesLiterally(hs: seq<Http.Header>, i: nat, j: nat, k: nat)
    ensures Qualifies(hs, i, j, k) <==> Handshake(hs, i, j, k)
  {
    if i < |hs| {
      ContainsExactly(hs[i].value, UPGRADE);
    }
    if j < |hs| {
      LowerExactly(hs[j].value, "websocket", "WEBSOCKET");
    }
  }

  lemma ContainsNothing(t: seq<Byte>)
    requires Contains([], t)
    ensures t == []
  {
  }

  /** A request is an upgrade if and only if it has the three headers, wherever they
      stand among others, and the first of each name says so. */
  lemma HandshakeIsUpgrade(r: Http.Request)
    ensures IsUpgrade(r) <==> exists i, j, k :: Handshake(r.headers, i, j, k)
  {
    var hs := r.headers;
    if IsUpgrade(r) {
      var i, j, k := HeadersQualify(r);
      QualifiesLiterally(hs, i, j, k);
    }
    if i, j, k :| Handshake(hs, i, j, k) {
      QualifiesLiterally(hs, i, j, k);
    }
  }

  lemma HeadersQualify(r: Http.Request) returns (i: nat, j: nat, k: nat)
    requires IsUpgrade(r)
    ensures Qualifies(r.headers, i, j, k)
  {
    var hs := r.headers;
    assert |UPGRADE| == 7 && |WEBSOCKET| == 9;
    if HeaderValue(hs, CONNECTION) == [] {
      ContainsNothing(UPGRADE);
    }
    i := FirstOccurrence(hs, CONNECTION);
    j := FirstOccurrence(hs, UPGRADE);
    k := FirstOccurrence(hs, WEBSOCKET_KEY);
  }

  lemma LettersAreToken(s: string)
    requires forall i | 0 <= i < |s| :: 'A' <= s[i] <= 'Z' || 'a' <= s[i] <= 'z' || s[i] == '-'
    ensures HttpGrammar.Token(Ascii(s)) && HttpGrammar.Printable(Ascii(s)) && |Ascii(s)| == |s|
  {
  }

  lemma LowerStays(s: string)
    requires forall i | 0 <= i < |s| :: 'a' <= s[i] <= 'z'
    ensures Lower(Ascii(s)) == Ascii(s)
  {
  }

  lemma NamesAndValues()
    ensures |CONNECTION| == 10 && |UPGRADE| == 7 && |WEBSOCKET_KEY| == 17 && |WEBSOCKET| == 9
    ensures HttpGrammar.Token(CONNECTION) && HttpGrammar.Token(UPGRADE) && HttpGrammar.Token(WEBSOCKET_KEY)
    ensures HttpGrammar.Printable(UPGRADE) && HttpGrammar.Printable(WEBSOCKET) && Lower(WEBSOCKET) == WEBSOCKET
  {
    LettersAreToken("Connection");
    LettersAreToken("Upgrade");
    LettersAreToken("websocket");
    LettersAreToken("Sec-WebSocket-Key");
    LowerStays("websocket");
  }

  lemma LinesPushed(ls: seq<HttpGrammar.Line>, a: HttpGrammar.Line, b: HttpGrammar.Line, c: HttpGrammar.Line)
    requires HttpGrammar.LinesOk(ls) && a.HeaderLine? && b.HeaderLine? && c.HeaderLine?
    requires a.WellFormed() && b.WellFormed() && c.WellFormed()
    ensures HttpGrammar.LinesOk(ls + [a] + [b] + [c])
    ensures HttpGrammar.HeadersOf(ls + [a] + [b] + [c]) == HttpGrammar.HeadersOf(ls)
              + [Http.Header(a.name, a.value)] + [Http.Header(b.name, b.value)] + [Http.Header(c.name, c.value)]
  {
    HttpSoundness.PushLine(ls, a);
    HttpSoundness.PushLine(ls + [a], b);
    HttpSoundness.PushLine(ls + [a] + [b], c);
  }

  lemma HandshakeBehind(hs: seq<Http.Header>, a: seq<Byte>, b: seq<Byte>, word: seq<Byte>, key: seq<Byte>)
    requires key != [] && Lower(word) == WEBSOCKET
    requires forall h | h in hs :: h.name != CONNECTION && h.name != UPGRADE && h.name != WEBSOCKET_KEY
    ensures Qualifies(hs + [Http.Header(CONNECTION, a + UPGRADE + b)] + [Http.Header(UPGRADE, word)]
                         + [Http.Header(WEBSOCKET_KEY, key)], |hs|, |hs| + 1, |hs| + 2)
  {
    NamesAndValues();
    ContainsExactly(a + UPGRADE + b, UPGRADE);
    assert Surrounded(a + UPGRADE + b, a, UPGRADE, b);
  }

  lemma QualifiedIsUpgrade(r: Http.Request, i: nat, j: nat, k: nat)
    requires Qualifies(r.headers, i, j, k)
    ensures IsUpgrade(r)
  {
  }

  /** Three header lines make an upgrade of any sentence that names none of them: "Upgrade"
      with anything around it, "websocket" in any mix of cases, and any key. */
  lemma HandshakeSentence(t: HttpGrammar.Sentence, a: seq<Byte>, b: seq<Byte>, word: seq<Byte>, key: seq<Byte>)
    requires HttpGrammar.WellFormed(t) && key != [] && HttpGrammar.Printable(key)
    requires HttpGrammar.Printable(a) && HttpGrammar.Printable(b) && InAnyCase(word, "websocket", "WEBSOCKET")
    requires forall h | h in HttpGrammar.HeadersOf(t.lines) ::
      h.name != Ascii("Connection") && h.name != Ascii("Upgrade") && h.name != Ascii("Sec-WebSocket-Key")
    ensures var u := t.(lines := t.lines + [HttpGrammar.HeaderLine(Ascii("Connection"), a + Ascii("Upgrade") + b)]
                                         + [HttpGrammar.HeaderLine(Ascii("Upgrade"), word)]
                                         + [HttpGrammar.HeaderLine(Ascii("Sec-WebSocket-Key"), key)]);
            HttpGrammar.WellFormed(u) && IsUpgrade(HttpGrammar.Denote(u))
  {
    NamesAndValues();
    LowerExactly(word, "websocket", "WEBSOCKET");
    WordIsPrintable(word);
    var l := HttpGrammar.HeaderLine(CONNECTION, a + UPGRADE + b);
    var m := HttpGrammar.HeaderLine(UPGRADE, word);
    var n := HttpGrammar.HeaderLine(WEBSOCKET_KEY, key);
    LinesPushed(t.lines, l, m, n);
    HandshakeBehind(HttpGrammar.HeadersOf(t.lines), a, b, word, key);
    var k := |HttpGrammar.HeadersOf(t.lines)|;
    QualifiedIsUpgrade(HttpGrammar.Denote(t.(lines := t.lines + [l] + [m] + [n])), k, k + 1, k + 2);
  }

  lemma WordIsPrintable(word: seq<Byte>)
    requires Lower(word) == WEBSOCKET && HttpGrammar.Printable(WEBSOCKET)
    ensures HttpGrammar.Printable(word)
  {
    forall i | 0 <= i < |word| ensures !Http.IsCtl(word[i]) {
      assert Lower(word)[i] == WEBSOCKET[i];
    }
  }

  /** Where a connection stands. `Refused` has been answered with a bad-request reply
      and asks for no more reads. */
  datatype Session =
    | Reading(parser: Http.HttpMemory)
    | Upgraded(request: Http.Request, websocket: Connection)
    | Refused

  datatype Event = Requested(request: Http.Request) | Delivered(message: Message) | BadRequest

  const NEW_WEBSOCKET: Connection :=
    Connection(WebsocketFrames.Start(WebsocketFrames.Frame(0, 0, 0, [0, 0, 0, 0], [])), Message(Unknown, []))

  function Deliveries(ms: seq<Message>): seq<Event> {
    seq(|ms|, i requires 0 <= i < |ms| => Delivered(ms[i]))
  }

  function Accepted(r: Http.Request): (Session, seq<Event>) {
    if IsUpgrade(r) then (Upgraded(r, NEW_WEBSOCKET), [Requested(r)]) else (Refused, [Requested(r), BadRequest])
  }

  /** One byte of the stream. */
  function SessionStep(s: Session, b: Byte): (Session, seq<Event>) {
    match s
    case Reading(p) =>
      var (q, r) := Http.Consume(p, b);
      (match r
       case Indeterminate => (Reading(q), [])
       case Yes => Accepted(q.request)
       case No => (Refused, [BadRequest]))
    case Upgraded(r, w) =>
      var (w', out) := ConnectionStep(w, b);
      (Upgraded(r, w'), Deliveries(out))
    case Refused => (Refused, [])
  }

  function Follow(s: Session, input: seq<Byte>): (Session, seq<Event>) {
    Run(SessionStep, s, input)
  }

  lemma {:induction false} FollowRefused(input: seq<Byte>)
    ensures Follow(Refused, input) == (Refused, [])
    decreases |input|
  {
    if input != [] {
      RunFirst(SessionStep, Refused, input);
      FollowRefused(input[1..]);
    }
  }

  lemma {:induction false} FollowUpgraded(r: Http.Request, w: Connection, input: seq<Byte>)
    ensures var (w', out) := Receive(w, input);
            Follow(Upgraded(r, w), input) == (Upgraded(r, w'), Deliveries(out))
    decreases |input|
  {
    if input == [] {
      assert Deliveries([]) == [];
    } else {
      var (w1, o1) := ConnectionStep(w, input[0]);
      RunFirst(SessionStep, Upgraded(r, w), input);
      RunFirst(ConnectionStep, w, input);
      FollowUpgraded(r, w1, input[1..]);
      var o2 := Receive(w1, input[1..]).1;
      assert Deliveries(o1 + o2) == Deliveries(o1) + Deliveries(o2);
    }
  }

  /** A request parse is a stretch of the byte-by-byte run. */
  lemma {:induction false} FollowParsed(p: Http.HttpMemory, s: seq<Byte>)
    ensures var o := Http.ParseRequest(p, s);
            match o.result
            case Indeterminate => Follow(Reading(p), s) == (Reading(o.memory), [])
            case Yes => Follow(Reading(p), s[..o.consumed]) == Accepted(o.memory.request)
            case No => Follow(Reading(p), s[..o.consumed]) == (Refused, [BadRequest])
    decreases |s|
  {
    if s != [] {
      FirstByte(Http.Consume, p, s);
      var (q, r) := Http.Consume(p, s[0]);
      var o := Http.ParseRequest(p, s);
      RunFirst(SessionStep, Reading(p), s[..o.consumed]);
      if r.Indeterminate? {
        FollowParsed(q, s[1..]);
        assert s[..o.consumed][1..] == s[1..][..o.consumed - 1];
        assert s[..|s|] == s;
      } else {
        assert s[..1][1..] == [];
      }
    }
  }

  /** The rest of a connection once its request is complete: an upgrade hands the bytes
      behind the blank line to a new WebSocket connection. */
  function HandleRequest(r: Http.Request, rest: seq<Byte>): (Session, seq<Event>) {
    if IsUpgrade(r) then
      var (w, out) := FrameLoop(NEW_WEBSOCKET, rest);
      (Upgraded(r, w), [Requested(r)] + Deliveries(out))
    else (Refused, [Requested(r), BadRequest])
  }

  /** One read callback, handed one chunk. */
  function ReadCallback(s: Session, chunk: seq<Byte>): (Session, seq<Event>)
    requires !s.Refused?
  {
    match s
    case Reading(p) =>
      var o := Http.ParseRequest(p, chunk);
      (match o.result
       case Indeterminate => (Reading(o.memory), [])
       case No => (Refused, [BadRequest])
       case Yes => HandleRequest(o.memory.request, chunk[o.consumed..]))
    case Upgraded(r, w) =>
      var (w', out) := FrameLoop(w, chunk);
      (Upgraded(r, w'), Deliveries(out))
  }

  /** Read callbacks, one after another; a refused connection asks for no more reads. */
  function Callbacks(s: Session, chunks: seq<seq<Byte>>): (Session, seq<Event>)
    decreases |chunks|
  {
    if chunks == [] || s.Refused? then (s, [])
    else
      var (s1, o1) := ReadCallback(s, chunks[0]);
      var (s2, o2) := Callbacks(s1, chunks[1..]);
      (s2, o1 + o2)
  }

  lemma CallbacksFirst(s: Session, chunks: seq<seq<Byte>>, log: seq<Event>)
    requires chunks != [] && !s.Refused?
    ensures var (s1, o1) := ReadCallback(s, chunks[0]);
            var (s2, o2) := Callbacks(s1, chunks[1..]);
            Callbacks(s, chunks) == (s2, o1 + o2) && log + o1 + o2 == log + (o1 + o2)
  {
    var (s1, o1) := ReadCallback(s, chunks[0]);
    AppendAssociates(log, o1, Callbacks(s1, chunks[1..]).1);
  }

  /** The callback before the upgrade, when a chunk may hold the end of the request and
      the first bytes behind it. */
  lemma HandOff(p: Http.HttpMemory, s: seq<Byte>)
    ensures ReadCallback(Reading(p), s) == Follow(Reading(p), s)
  {
    FollowParsed(p, s);
    var o := Http.ParseRequest(p, s);
    if o.result != Indeterminate {
      var a, rest := s[..o.consumed], s[o.consumed..];
      assert a + rest == s;
      RunAppend(SessionStep, Reading(p), a, rest);
      FollowRefused(rest);
      assert Follow(Reading(p), a).1 + [] == Follow(Reading(p), a).1;
      LoopIsRun(NEW_WEBSOCKET, rest);
      FollowUpgraded(o.memory.request, NEW_WEBSOCKET, rest);
    }
  }

  /** A callback, the hand-off in the middle of a chunk included, does what the bytes
      would do one at a time: the request gets the bytes through the blank line, the
      WebSocket those behind it, and nobody the bytes behind a bad request. */
  lemma CallbackIsRun(s: Session, chunk: seq<Byte>)
    requires !s.Refused?
    ensures ReadCallback(s, chunk) == Follow(s, chunk)
  {
    match s {
      case Reading(p) => HandOff(p, chunk);
      case Upgraded(r, w) =>
        LoopIsRun(w, chunk);
        FollowUpgraded(r, w, chunk);
    }
  }

  /** A series of callbacks ends where the run over all the bytes ends, after the same events. */
  lemma {:induction false} CallbacksAreRun(s: Session, chunks: seq<seq<Byte>>)
    ensures Callbacks(s, chunks) == Follow(s, Concat(chunks))
    decreases |chunks|
  {
    if s.Refused? {
      FollowRefused(Concat(chunks));
    } else if chunks != [] {
      CallbackIsRun(s, chunks[0]);
      CallbacksAreRun(ReadCallback(s, chunks[0]).0, chunks[1..]);
      RunAppend(SessionStep, s, chunks[0], Concat(chunks[1..]));
    }
  }

  /** Two ways to cut one stream into reads, empty ones included: the callbacks end in the
      same parser, frame and message state and show the handlers the same events. */
  lemma CutsDoNotMatter(s: Session, a: seq<seq<Byte>>, b: seq<seq<Byte>>)
    requires Concat(a) == Concat(b)
    ensures Callbacks(s, a) == Callbacks(s, b)
  {
    CallbacksAreRun(s, a);
    CallbacksAreRun(s, b);
  }

  /** The request and whatever follows it: the WebSocket reads exactly the rest. */
  lemma RequestThenBytes(p: Http.HttpMemory, t: HttpGrammar.Sentence, rest: seq<Byte>, chunks: seq<seq<Byte>>)
    requires Http.Fresh(p) && HttpGrammar.WellFormed(t) && IsUpgrade(HttpGrammar.Denote(t))
    requires Concat(chunks) == HttpGrammar.Render(t) + rest
    ensures var r := HttpGrammar.Denote(t);
            var (w, out) := Receive(NEW_WEBSOCKET, rest);
            Callbacks(Reading(p), chunks) == (Upgraded(r, w), [Requested(r)] + Deliveries(out))
  {
    var text := HttpGrammar.Render(t);
    CallbacksAreRun(Reading(p), chunks);
    HttpCompleteness.AcceptsEverySentence(p, t);
    ParseAppend(Http.Consume, p, text, rest);
    HandOff(p, text + rest);
    assert (text + rest)[|text|..] == rest;
    LoopIsRun(NEW_WEBSOCKET, rest);
  }

  /** An upgrade request in any spelling, followed by client frames in any readable
      encoding, cut into reads at any points: the handler sees the request the
      sentence denotes and then, message by message, what the frames carry. */
  lemma EndToEnd(p: Http.HttpMemory, t: HttpGrammar.Sentence, ws: seq<WebsocketFrames.WireFrame>,
                 chunks: seq<seq<Byte>>)
    requires Http.Fresh(p) && HttpGrammar.WellFormed(t) && IsUpgrade(HttpGrammar.Denote(t)) && Readable(ws)
    requires Concat(chunks) == HttpGrammar.Render(t) + EncodeAll(ws)
    ensures var r := HttpGrammar.Denote(t);
            var (s, events) := Callbacks(Reading(p), chunks);
            && events == [Requested(r)] + Deliveries(Deliver(NEW_WEBSOCKET.message, WireFragments(ws)).1)
            && s.Upgraded? && s.request == r && s.websocket.parser.state == WebsocketFrames.HeaderByte1
  {
    RequestThenBytes(p, t, EncodeAll(ws), chunks);
    BytesRefineFrames(NEW_WEBSOCKET, ws);
  }

  /** The same for any bytes whatever behind the request: they are a row of stretches that
      spell frames and an unfinished tail, and the handler sees what those frames carry. */
  lemma EndToEndBytes(p: Http.HttpMemory, t: HttpGrammar.Sentence, rest: seq<Byte>, chunks: seq<seq<Byte>>)
    returns (xs: seq<Stretch>, tail: seq<Byte>, f: WebsocketFrames.Frame)
    requires Http.Fresh(p) && HttpGrammar.WellFormed(t) && IsUpgrade(HttpGrammar.Denote(t))
    requires Concat(chunks) == HttpGrammar.Render(t) + rest
    ensures AllSpell(xs) && rest == StretchBytes(xs) + tail
    ensures var (s, events) := Callbacks(Reading(p), chunks);
            && events == [Requested(HttpGrammar.Denote(t))]
                           + Deliveries(Deliver(NEW_WEBSOCKET.message, StretchFragments(xs)).1)
            && s.Upgraded? && Passes(WebsocketFrames.Consume, WebsocketFrames.Start(f), tail, s.websocket.parser)
  {
    RequestThenBytes(p, t, rest, chunks);
    xs, tail, f := EveryStreamIsDelivered(NEW_WEBSOCKET, rest);
  }

  /** When the frames of such a stream carry fragmented messages, each of these is
      delivered once, whole. */
  lemma EndToEndMessages(p: Http.HttpMemory, t: HttpGrammar.Sentence, ws: seq<WebsocketFrames.WireFrame>,
                         ms: seq<Fragmentation.Outgoing>, chunks: seq<seq<Byte>>)
    requires Http.Fresh(p) && HttpGrammar.WellFormed(t) && IsUpgrade(HttpGrammar.Denote(t)) && Readable(ws)
    requires Concat(chunks) == HttpGrammar.Render(t) + EncodeAll(ws)
    ensures Fragmentation.WellFormed(ms) && WireFragments(ws) == Fragmentation.SplitAll(ms) ==>
      Callbacks(Reading(p), chunks).1
        == [Requested(HttpGrammar.Denote(t))] + Deliveries(Fragmentation.Joined(ms))
  {
    EndToEnd(p, t, ws, chunks);
    if Fragmentation.WellFormed(ms) && WireFragments(ws) == Fragmentation.SplitAll(ms) {
      Fragmentation.FragmentsReassemble(NEW_WEBSOCKET.message, ms);
    }
  }

  // ---------------------------------------------------------------- the objects

  /** The reading side of a connection. */
  class ConnectionReader {
    const request: HttpRequest
    const parser: HttpRequestParser
    var websocket: Objects.WebsocketConnection?
    /** A read has been requested and not yet called back. */
    var reading: bool
    /** The request handler has been called. */
    var requested: bool
    /** Where the connection stands, and what the handlers and the peer have seen. */
    ghost var session: Session
    ghost var events: seq<Event>

    constructor ()
      ensures Valid() && fresh(Footprint())
      ensures session.Reading? && Http.Fresh(session.parser) && events == []
    {
      request := new HttpRequest();
      parser := new HttpRequestParser();
      websocket := null;
      reading := true;
      requested := false;
      new;
      session, events := Reading(parser.Memory(request)), [];
    }

    /** The objects are where the session is, and have made the calls it lists. */
    ghost predicate Valid()
      reads this, request, parser, Footprint()
    {
      match session
      case Reading(p) =>
        reading && websocket == null && !requested && p == parser.Memory(request) && Http.HasHeader(p) && events == []
      case Upgraded(r, w) =>
        && reading && requested && r == request.View()
        && websocket != null && websocket.Valid() && w == websocket.View()
        && events == [Requested(r)] + Deliveries(websocket.handled)
      case Refused =>
        && !reading && websocket == null
        && events == (if requested then [Requested(request.View())] else []) + [BadRequest]
    }

    ghost function Footprint(): set<object>
      reads this
    {
      {this, request, parser} + if websocket == null then {} else websocket.Footprint()
    }

    /** The callback of a read. */
    method OnRead(chunk: seq<Byte>)
      requires Valid() && reading
      modifies Footprint()
      ensures Valid() && fresh(Footprint() - old(Footprint()))
      ensures session == ReadCallback(old(session), chunk).0
      ensures events == old(events) + ReadCallback(old(session), chunk).1
    {
      if websocket == null {
        HandleRead(chunk);
      } else {
        ForwardRead(chunk);
      }
    }

    /** After the upgrade the WebSocket connection reads. */
    method ForwardRead(chunk: seq<Byte>)
      requires Valid() && websocket != null
      modifies Footprint()
      ensures Valid() && fresh(Footprint() - old(Footprint()))
      ensures session == ReadCallback(old(session), chunk).0
      ensures events == old(events) + ReadCallback(old(session), chunk).1
    {
      ghost var (w, out) := FrameLoop(websocket.View(), chunk);
      DeliveriesAppend([Requested(request.View())], websocket.handled, out);
      websocket.HandleRead(chunk);
      session := Upgraded(request.View(), w);
      events := events + Deliveries(out);
    }

    /** Reading the request; what is left of the chunk is handed on. */
    method HandleRead(chunk: seq<Byte>)
      requires Valid() && reading && websocket == null
      modifies this, request, parser
      ensures Valid() && fresh(Footprint() - old(Footprint()))
      ensures session == ReadCallback(old(session), chunk).0
      ensures events == old(events) + ReadCallback(old(session), chunk).1
    {
      ghost var next := ReadCallback(session, chunk);
      assert events + next.1 == next.1;
      var result, parseEnd := parser.ParseChunk(request, chunk);
      if result == Yes {
        HandleRequest(chunk[parseEnd..]);
      } else if result == No {
        reading := false;
        assert [] + [BadRequest] == [BadRequest];
      }
      session, events := next.0, next.1;
    }

    /** The request is complete: its URI is split and the upgrade handler is called
        with the rest of the chunk. */
    method HandleRequest(rest: seq<Byte>)
      requires reading && websocket == null
      modifies this, request
      ensures request.View() == old(request.View()) && requested
      ensures session == old(session) && events == old(events)
      ensures reading == IsUpgrade(request.View()) && (websocket != null <==> reading)
      ensures websocket != null ==>
        && websocket.Valid() && fresh(websocket.Footprint())
        && websocket.View() == FrameLoop(NEW_WEBSOCKET, rest).0 && websocket.handled == FrameLoop(NEW_WEBSOCKET, rest).1
    {
      request.ParseUri();
      requested := true;
      if IsUpgrade(request.View()) {
        websocket := OpenWebsocket(rest);
      } else {
        reading := false;
      }
    }

    /** A new WebSocket connection that is first given the leftover bytes. */
    static method OpenWebsocket(rest: seq<Byte>) returns (w: Objects.WebsocketConnection)
      ensures w.Valid() && fresh(w.Footprint())
      ensures w.View() == FrameLoop(NEW_WEBSOCKET, rest).0 && w.handled == FrameLoop(NEW_WEBSOCKET, rest).1
    {
      w := new Objects.WebsocketConnection();
      assert w.View() == NEW_WEBSOCKET;
      w.HandleRead(rest);
      assert [] + FrameLoop(NEW_WEBSOCKET, rest).1 == FrameLoop(NEW_WEBSOCKET, rest).1;
    }

    /** Read callbacks one after another; each requests the next until the
        connection has been refused. */
    method ReadAll(chunks: seq<seq<Byte>>)
      requires Valid()
      modifies Footprint()
      ensures Valid() && fresh(Footprint() - old(Footprint()))
      ensures session == Callbacks(old(session), chunks).0
      ensures events == old(events) + Callbacks(old(session), chunks).1
      decreases |chunks|
    {
      if chunks == [] || !reading {
        assert events + [] == events;
      } else {
        CallbacksFirst(session, chunks, events);
        OnRead(chunks[0]);
        ReadAll(chunks[1..]);
      }
    }
  }

  lemma DeliveriesAppend(before: seq<Event>, a: seq<Message>, b: seq<Message>)
    ensures before + Deliveries(a + b) == before + Deliveries(a) + Deliveries(b)
  {
  }
}
