/** The request object and its parser as the connection updates them in place. */
module HttpRequests {
  import opened Bytes
  import opened Decimals
  import opened Incremental
  import opened HttpParser
  import opened HttpUri

  class HttpRequest {
    var methodName: seq<Byte>
    var uri: seq<Byte>
    var major: int
    var minor: int
    var headers: seq<Header>
    var path: seq<Byte>
    var query: seq<Byte>
    var params: Params

    constructor ()
      ensures methodName == [] && uri == [] && headers == []
      ensures path == [] && query == [] && params == map[]
    {
      methodName, uri, major, minor, headers := [], [], 0, 0, [];
      path, query, params := [], [], map[];
    }

    function View(): Request
      reads this
    {
      Request(methodName, uri, major, minor, headers)
    }

    function TargetView(): Target
      reads this
    {
      Target(path, query, params)
    }

    /** boost::split, then one map assignment per piece. */
    method ParseUri()
      modifies this`path, this`query, this`params
      ensures TargetView() == Parsed(old(TargetView()), uri)
    {
      var i := FindFirst(uri, QUESTION);
      path := uri[..i];
      if i == |uri| {
        assert uri[..i] == uri;
        return;
      }
      query := uri[i + 1..];
      var pieces := SplitPieces(query, AMPERSAND);
      ghost var before := params;
      var k := 0;
      assert pieces[0..] == pieces;
      while k < |pieces|
        invariant k <= |pieces| && path == uri[..i] && query == uri[i + 1..]
        invariant AddPieces(before, pieces) == AddPieces(params, pieces[k..])
      {
        assert pieces[k..][0] == pieces[k] && pieces[k..][1..] == pieces[k + 1..];
        SetParam(pieces[k]);
        k := k + 1;
      }
      assert pieces[k..] == [];
    }

    method SetParam(piece: seq<Byte>)
      modifies this`params
      ensures params == AddPiece(old(params), piece)
    {
      var j := FindFirst(piece, EQUALS);
      if j == |piece| {
        if |piece| > 0 {
          params := params[piece := []];
        }
      } else {
        params := params[piece[..j] := piece[j + 1..]];
      }
    }
  }

  method FindFirst(s: seq<Byte>, c: Byte) returns (i: nat)
    ensures i == Find(s, c)
  {
    i := 0;
    while i < |s| && s[i] != c
      invariant i <= |s| && forall k | 0 <= k < i :: s[k] != c
    {
      i := i + 1;
    }
    FindUnique(s, c, i);
  }

  method SplitPieces(s: seq<Byte>, c: Byte) returns (pieces: seq<seq<Byte>>)
    ensures pieces == Split(s, c)
  {
    pieces := [];
    var rest := s;
    while true
      invariant Split(s, c) == pieces + Split(rest, c)
      decreases |rest|
    {
      var i := FindFirst(rest, c);
      if i == |rest| {
        return pieces + [rest];
      }
      assert pieces + ([rest[..i]] + Split(rest[i + 1..], c)) == pieces + [rest[..i]] + Split(rest[i + 1..], c);
      pieces := pieces + [rest[..i]];
      rest := rest[i + 1..];
    }
  }

  class HttpRequestParser {
    var state: HttpState

    constructor ()
      ensures state == MethodStart
    {
      state := MethodStart;
    }

    function Memory(req: HttpRequest): HttpMemory
      reads this, req
    {
      HttpMemory(state, req.View())
    }

    method Reset()
      modifies this
      ensures state == MethodStart
    {
      state := MethodStart;
    }

    /** The line under way inside `headers` is the last one. */
    method ConsumeByte(req: HttpRequest, input: Byte) returns (r: Tribool)
      requires HasHeader(Memory(req))
      modifies this, req`methodName, req`uri, req`major, req`minor, req`headers
      ensures HasHeader(Memory(req))
      ensures (Memory(req), r) == Consume(old(Memory(req)), input)
    {
      r := Indeterminate;
      match state {
        case MethodStart =>
          if !IsTokenChar(input) { return No; }
          state := Method;
          req.methodName := req.methodName + [input];
        case Method =>
          if input == SP { state := Uri; }
          else if !IsTokenChar(input) { return No; }
          else { req.methodName := req.methodName + [input]; }
        case Uri =>
          if input == SP { state := VersionH; }
          else if IsCtl(input) { return No; }
          else { req.uri := req.uri + [input]; }
        case VersionH =>
          if input == H { state := VersionT1; } else { return No; }
        case VersionT1 =>
          if input == T { state := VersionT2; } else { return No; }
        case VersionT2 =>
          if input == T { state := VersionP; } else { return No; }
        case VersionP =>
          if input == P { state := VersionSlash; } else { return No; }
        case VersionSlash =>
          if input != SLASH { return No; }
          req.major := 0;
          req.minor := 0;
          state := MajorStart;
        case MajorStart =>
          if !IsDigit(input) { return No; }
          req.major := req.major * 10 + input - ZERO;
          state := Major;
        case Major =>
          if input == DOT { state := MinorStart; }
          else if IsDigit(input) { req.major := req.major * 10 + input - ZERO; }
          else { return No; }
        case MinorStart =>
          if !IsDigit(input) { return No; }
          req.minor := req.minor * 10 + input - ZERO;
          state := Minor;
        case Minor =>
          if input == CR { state := Newline1; }
          else if IsDigit(input) { req.minor := req.minor * 10 + input - ZERO; }
          else { return No; }
        case Newline1 =>
          if input == LF { state := HeaderLineStart; } else { return No; }
        case HeaderLineStart =>
          if input == CR { state := Newline3; }
          else if req.headers != [] && (input == SP || input == TAB) { state := HeaderLws; }
          else if !IsTokenChar(input) { return No; }
          else {
            req.headers := req.headers + [Header([input], [])];
            state := HeaderName;
          }
        case HeaderLws =>
          if input == CR { state := Newline2; }
          else if input == SP || input == TAB { }
          else if IsCtl(input) { return No; }
          else {
            state := HeaderValue;
            req.headers := AppendValue(req.headers, [input]);
          }
        case HeaderName =>
          if input == COLON { state := SpaceBeforeValue; }
          else if !IsTokenChar(input) { return No; }
          else { req.headers := AppendName(req.headers, input); }
        case SpaceBeforeValue =>
          if input == SP { state := HeaderValue; } else { return No; }
        case HeaderValue =>
          if input == CR { state := Newline2; }
          else if IsCtl(input) { return No; }
          else { req.headers := AppendValue(req.headers, [input]); }
        case Newline2 =>
          if input == LF { state := HeaderLineStart; } else { return No; }
        case Newline3 =>
          return if input == LF then Yes else No;
      }
    }

    /** Consumes until an answer or the end of the input. */
    method ParseChunk(req: HttpRequest, input: seq<Byte>) returns (r: Tribool, end: nat)
      requires HasHeader(Memory(req))
      modifies this, req`methodName, req`uri, req`major, req`minor, req`headers
      ensures HasHeader(Memory(req))
      ensures var o := ParseRequest(old(Memory(req)), input);
              Memory(req) == o.memory && r == o.result && end == o.consumed
    {
      ghost var start := Memory(req);
      end := 0;
      r := Indeterminate;
      assert input[0..] == input;
      while end != |input|
        invariant end <= |input| && r == Indeterminate && HasHeader(Memory(req))
        invariant var o := ParseRequest(Memory(req), input[end..]);
                  ParseRequest(start, input) == o.(consumed := end + o.consumed)
        decreases |input| - end
      {
        FirstByte(Consume, Memory(req), input[end..]);
        r := ConsumeByte(req, input[end]);
        end := end + 1;
        assert input[end - 1..][1..] == input[end..];
        if r != Indeterminate {
          return;
        }
      }
    }
  }
}
