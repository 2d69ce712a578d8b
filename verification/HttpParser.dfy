/** The HTTP request parser as a function on values: one byte at a time through
    twenty states, filling in a request. */
module HttpParser {
  import opened Bytes
  import opened Decimals
  import opened Incremental

  const TAB: Byte := 9
  const LF: Byte := 10
  const CR: Byte := 13
  const SP: Byte := 32
  const DOT: Byte := 46
  const SLASH: Byte := 47
  const COLON: Byte := 58
  const H: Byte := 72
  const P: Byte := 80
  const T: Byte := 84

  predicate IsChar(c: Byte) { c <= 127 }

  predicate IsCtl(c: Byte) { c <= 31 || c == 127 }

  /** The tspecials of section 2.2 of RFC 1945. */
  predicate IsTSpecial(c: Byte) {
    c == 40 || c == 41 || c == 60 || c == 62 || c == 64 || c == 44 || c == 59 || c == COLON || c == 92 || c == 34 ||
    c == SLASH || c == 91 || c == 93 || c == 63 || c == 61 || c == 123 || c == 125 || c == SP || c == TAB
  }

  predicate IsTokenChar(c: Byte) { IsChar(c) && !IsCtl(c) && !IsTSpecial(c) }

  datatype Header = Header(name: seq<Byte>, value: seq<Byte>)

  datatype Request = Request(methodName: seq<Byte>, uri: seq<Byte>, major: int, minor: int, headers: seq<Header>)

  datatype HttpState =
    | MethodStart | Method | Uri
    | VersionH | VersionT1 | VersionT2 | VersionP | VersionSlash
    | MajorStart | Major | MinorStart | Minor
    | Newline1 | HeaderLineStart | HeaderLws | HeaderName | SpaceBeforeValue | HeaderValue
    | Newline2 | Newline3

  datatype HttpMemory = HttpMemory(state: HttpState, request: Request)

  /** Inside a header line there is a header to add to. */
  predicate HasHeader(p: HttpMemory) {
    (p.state.HeaderLws? || p.state.HeaderName? || p.state.SpaceBeforeValue? || p.state.HeaderValue?) ==>
      p.request.headers != []
  }

  // `headers.back()` of the source; an empty list, on which that would be undefined,
  // never meets it (`HeaderStaysUnderWay`).
  function AppendName(hs: seq<Header>, c: Byte): seq<Header> {
    if hs == [] then []
    else
      var h := hs[|hs| - 1];
      hs[|hs| - 1 := h.(name := h.name + [c])]
  }

  function AppendValue(hs: seq<Header>, s: seq<Byte>): seq<Header> {
    if hs == [] then []
    else
      var h := hs[|hs| - 1];
      hs[|hs| - 1 := h.(value := h.value + s)]
  }

  lemma AppendValueTwice(hs: seq<Header>, a: seq<Byte>, b: seq<Byte>)
    ensures AppendValue(AppendValue(hs, a), b) == AppendValue(hs, a + b)
    ensures AppendValue(hs, []) == hs
  {
    if hs != [] {
      var h := hs[|hs| - 1];
      assert h.value + a + b == h.value + (a + b);
      assert h.value + [] == h.value;
    }
  }

  function Go(p: HttpMemory, state: HttpState): (HttpMemory, Tribool) {
    (HttpMemory(state, p.request), Indeterminate)
  }

  function GoWith(state: HttpState, r: Request): (HttpMemory, Tribool) {
    (HttpMemory(state, r), Indeterminate)
  }

  /** One byte through the request parser. */
  function Consume(p: HttpMemory, c: Byte): (HttpMemory, Tribool) {
    var r := p.request;
    match p.state
    case MethodStart =>
      if !IsTokenChar(c) then (p, No) else GoWith(Method, r.(methodName := r.methodName + [c]))
    case Method =>
      if c == SP then Go(p, Uri)
      else if !IsTokenChar(c) then (p, No)
      else GoWith(Method, r.(methodName := r.methodName + [c]))
    case Uri =>
      if c == SP then Go(p, VersionH)
      else if IsCtl(c) then (p, No)
      else GoWith(Uri, r.(uri := r.uri + [c]))
    case VersionH => if c == H then Go(p, VersionT1) else (p, No)
    case VersionT1 => if c == T then Go(p, VersionT2) else (p, No)
    case VersionT2 => if c == T then Go(p, VersionP) else (p, No)
    case VersionP => if c == P then Go(p, VersionSlash) else (p, No)
    case VersionSlash => if c == SLASH then GoWith(MajorStart, r.(major := 0, minor := 0)) else (p, No)
    case MajorStart =>
      if IsDigit(c) then GoWith(Major, r.(major := r.major * 10 + c - ZERO)) else (p, No)
    case Major =>
      if c == DOT then Go(p, MinorStart)
      else if IsDigit(c) then GoWith(Major, r.(major := r.major * 10 + c - ZERO))
      else (p, No)
    case MinorStart =>
      if IsDigit(c) then GoWith(Minor, r.(minor := r.minor * 10 + c - ZERO)) else (p, No)
    case Minor =>
      if c == CR then Go(p, Newline1)
      else if IsDigit(c) then GoWith(Minor, r.(minor := r.minor * 10 + c - ZERO))
      else (p, No)
    case Newline1 => if c == LF then Go(p, HeaderLineStart) else (p, No)
    case HeaderLineStart =>
      if c == CR then Go(p, Newline3)
      else if r.headers != [] && (c == SP || c == TAB) then Go(p, HeaderLws)
      else if !IsTokenChar(c) then (p, No)
      else GoWith(HeaderName, r.(headers := r.headers + [Header([c], [])]))
    case HeaderLws =>
      if c == CR then Go(p, Newline2)
      else if c == SP || c == TAB then Go(p, HeaderLws)
      else if IsCtl(c) then (p, No)
      else GoWith(HeaderValue, r.(headers := AppendValue(r.headers, [c])))
    case HeaderName =>
      if c == COLON then Go(p, SpaceBeforeValue)
      else if !IsTokenChar(c) then (p, No)
      else GoWith(HeaderName, r.(headers := AppendName(r.headers, c)))
    case SpaceBeforeValue => if c == SP then Go(p, HeaderValue) else (p, No)
    case HeaderValue =>
      if c == CR then Go(p, Newline2)
      else if IsCtl(c) then (p, No)
      else GoWith(HeaderValue, r.(headers := AppendValue(r.headers, [c])))
    case Newline2 => if c == LF then Go(p, HeaderLineStart) else (p, No)
    case Newline3 => (p, if c == LF then Yes else No)
  }

  function ParseRequest(p: HttpMemory, s: seq<Byte>): Outcome<HttpMemory> {
    Parse(Consume, p, s)
  }

  /** Whatever the bytes, a header under way is there to be added to. */
  lemma {:induction false} HeaderStaysUnderWay(p: HttpMemory, s: seq<Byte>)
    requires HasHeader(p)
    ensures HasHeader(ParseRequest(p, s).memory)
    decreases |s|
  {
    if s != [] {
      var q := Consume(p, s[0]).0;
      assert HasHeader(q);
      HeaderStaysUnderWay(q, s[1..]);
    }
  }

  /** A connection's parser and request as constructed; the version fields of the
      request start out with whatever was in memory. */
  predicate Fresh(p: HttpMemory) {
    p.state == MethodStart && p.request.methodName == [] && p.request.uri == [] && p.request.headers == []
  }
}
