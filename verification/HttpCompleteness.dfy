/** Every sentence is accepted, and every prefix the parser has not rejected can be
    completed to a sentence. */
module HttpCompleteness {
  import opened Bytes
  import opened Decimals
  import opened Incremental
  import opened HttpParser
  import opened HttpGrammar

  // ---------------------------------------------------------------- runs of one kind of character

  lemma {:induction false} MethodChars(r: Request, s: seq<Byte>)
    requires Token(s)
    ensures Passes(Consume, HttpMemory(Method, r), s, HttpMemory(Method, r.(methodName := r.methodName + s)))
    decreases |s|
  {
    if s == [] {
      assert r.methodName + s == r.methodName;
    } else {
      FirstByte(Consume, HttpMemory(Method, r), s);
      MethodChars(r.(methodName := r.methodName + [s[0]]), s[1..]);
      assert r.methodName + [s[0]] + s[1..] == r.methodName + s;
    }
  }

  lemma {:induction false} UriChars(r: Request, s: seq<Byte>)
    requires UriText(s)
    ensures Passes(Consume, HttpMemory(Uri, r), s, HttpMemory(Uri, r.(uri := r.uri + s)))
    decreases |s|
  {
    if s == [] {
      assert r.uri + s == r.uri;
    } else {
      FirstByte(Consume, HttpMemory(Uri, r), s);
      UriChars(r.(uri := r.uri + [s[0]]), s[1..]);
      assert r.uri + [s[0]] + s[1..] == r.uri + s;
    }
  }

  lemma {:induction false} MajorChars(r: Request, d: seq<Byte>, s: seq<Byte>)
    requires Digits(s)
    ensures Passes(Consume, HttpMemory(Major, r.(major := DigitsValue(d))), s,
                   HttpMemory(Major, r.(major := DigitsValue(d + s))))
    decreases |s|
  {
    if s == [] {
      assert d + s == d;
    } else {
      FirstByte(Consume, HttpMemory(Major, r.(major := DigitsValue(d))), s);
      PushDigit(d, s[0]);
      MajorChars(r, d + [s[0]], s[1..]);
      assert d + [s[0]] + s[1..] == d + s;
    }
  }

  lemma {:induction false} MinorChars(r: Request, d: seq<Byte>, s: seq<Byte>)
    requires Digits(s)
    ensures Passes(Consume, HttpMemory(Minor, r.(minor := DigitsValue(d))), s,
                   HttpMemory(Minor, r.(minor := DigitsValue(d + s))))
    decreases |s|
  {
    if s == [] {
      assert d + s == d;
    } else {
      FirstByte(Consume, HttpMemory(Minor, r.(minor := DigitsValue(d))), s);
      PushDigit(d, s[0]);
      MinorChars(r, d + [s[0]], s[1..]);
      assert d + [s[0]] + s[1..] == d + s;
    }
  }

  lemma AppendNameLast(hs: seq<Header>, name: seq<Byte>, c: Byte)
    ensures AppendName(hs + [Header(name, [])], c) == hs + [Header(name + [c], [])]
  {
  }

  lemma {:induction false} NameChars(r: Request, hs: seq<Header>, name: seq<Byte>, s: seq<Byte>)
    requires Token(s)
    ensures Passes(Consume, HttpMemory(HeaderName, r.(headers := hs + [Header(name, [])])), s,
                   HttpMemory(HeaderName, r.(headers := hs + [Header(name + s, [])])))
    decreases |s|
  {
    if s == [] {
      assert name + s == name;
    } else {
      FirstByte(Consume, HttpMemory(HeaderName, r.(headers := hs + [Header(name, [])])), s);
      AppendNameLast(hs, name, s[0]);
      NameChars(r, hs, name + [s[0]], s[1..]);
      assert name + [s[0]] + s[1..] == name + s;
    }
  }

  lemma {:induction false} ValueChars(r: Request, hs: seq<Header>, s: seq<Byte>)
    requires hs != [] && Printable(s)
    ensures Passes(Consume, HttpMemory(HeaderValue, r.(headers := hs)), s,
                   HttpMemory(HeaderValue, r.(headers := AppendValue(hs, s))))
    decreases |s|
  {
    var h := hs[|hs| - 1];
    if s == [] {
      assert h.value + s == h.value;
      assert AppendValue(hs, s) == hs;
    } else {
      FirstByte(Consume, HttpMemory(HeaderValue, r.(headers := hs)), s);
      ValueChars(r, AppendValue(hs, [s[0]]), s[1..]);
      AppendValueTwice(hs, [s[0]], s[1..]);
      assert [s[0]] + s[1..] == s;
    }
  }

  lemma {:induction false} BlankChars(r: Request, s: seq<Byte>)
    requires r.headers != [] && Blank(s)
    ensures Passes(Consume, HttpMemory(HeaderLws, r), s, HttpMemory(HeaderLws, r))
    decreases |s|
  {
    if s != [] {
      FirstByte(Consume, HttpMemory(HeaderLws, r), s);
      BlankChars(r, s[1..]);
    }
  }

  // ---------------------------------------------------------------- lines

  lemma LineEnd(st: HttpState, r: Request)
    requires (st == HeaderLws || st == HeaderValue) && r.headers != []
    ensures Passes(Consume, HttpMemory(st, r), [CR, LF], HttpMemory(HeaderLineStart, r))
  {
    OneByte(Consume, HttpMemory(st, r), CR);
    OneByte(Consume, HttpMemory(Newline2, r), LF);
    PassesAppend(Consume, HttpMemory(st, r), [CR], HttpMemory(Newline2, r), [LF], HttpMemory(HeaderLineStart, r));
    assert [CR] + [LF] == [CR, LF];
  }

  lemma HeaderLinePasses(r: Request, name: seq<Byte>, value: seq<Byte>)
    requires HeaderLine(name, value).WellFormed()
    ensures Passes(Consume, HttpMemory(HeaderLineStart, r), name + [COLON, SP] + value,
                   HttpMemory(HeaderValue, r.(headers := r.headers + [Header(name, value)])))
  {
    var hs := r.headers;
    var p := HttpMemory(HeaderLineStart, r);
    var p1 := HttpMemory(HeaderName, r.(headers := hs + [Header([name[0]], [])]));
    var p2 := HttpMemory(HeaderName, r.(headers := hs + [Header(name, [])]));
    var p3 := HttpMemory(SpaceBeforeValue, p2.request);
    var p4 := HttpMemory(HeaderValue, p2.request);
    OneByte(Consume, p, name[0]);
    NameChars(r, hs, [name[0]], name[1..]);
    assert [name[0]] + name[1..] == name;
    PassesAppend(Consume, p, [name[0]], p1, name[1..], p2);
    OneByte(Consume, p2, COLON);
    PassesAppend(Consume, p, name, p2, [COLON], p3);
    OneByte(Consume, p3, SP);
    PassesAppend(Consume, p, name + [COLON], p3, [SP], p4);
    ValueChars(r, p2.request.headers, value);
    assert [] + value == value;
    assert AppendValue(p2.request.headers, value) == hs + [Header(name, value)];
    PassesAppend(Consume, p, name + [COLON] + [SP], p4, value,
                 HttpMemory(HeaderValue, r.(headers := hs + [Header(name, value)])));
    assert name + [COLON] + [SP] == name + [COLON, SP];
  }

  lemma FoldedLinePasses(r: Request, space: seq<Byte>, text: seq<Byte>)
    requires FoldedLine(space, text).WellFormed() && r.headers != []
    ensures Passes(Consume, HttpMemory(HeaderLineStart, r), space + text,
                   HttpMemory(if text == [] then HeaderLws else HeaderValue,
                             r.(headers := AppendValue(r.headers, text))))
  {
    var p := HttpMemory(HeaderLineStart, r);
    var p1 := HttpMemory(HeaderLws, r);
    OneByte(Consume, p, space[0]);
    BlankChars(r, space[1..]);
    assert [space[0]] + space[1..] == space;
    PassesAppend(Consume, p, [space[0]], p1, space[1..], p1);
    var h := r.headers[|r.headers| - 1];
    if text == [] {
      assert h.value + [] == h.value;
      assert AppendValue(r.headers, text) == r.headers;
      assert space + text == space;
    } else {
      var p2 := HttpMemory(HeaderValue, r.(headers := AppendValue(r.headers, [text[0]])));
      var p3 := HttpMemory(HeaderValue, r.(headers := AppendValue(r.headers, text)));
      OneByte(Consume, p1, text[0]);
      ValueChars(r, p2.request.headers, text[1..]);
      AppendValueTwice(r.headers, [text[0]], text[1..]);
      assert [text[0]] + text[1..] == text;
      PassesAppend(Consume, p, space, p1, [text[0]], p2);
      PassesAppend(Consume, p, space + [text[0]], p2, text[1..], p3);
      assert space + [text[0]] + text[1..] == space + text;
    }
  }

  lemma {:induction false} LinesPass(r: Request, ls: seq<Line>)
    requires LinesOk(ls) && r.headers == []
    ensures Passes(Consume, HttpMemory(HeaderLineStart, r), LinesText(ls),
                   HttpMemory(HeaderLineStart, r.(headers := HeadersOf(ls))))
    decreases |ls|
  {
    if ls != [] {
      var l := ls[|ls| - 1];
      var before := ls[..|ls| - 1];
      LinesPass(r, before);
      var p := HttpMemory(HeaderLineStart, r);
      var r1 := r.(headers := HeadersOf(before));
      var r2 := r.(headers := HeadersOf(ls));
      var st := if l.FoldedLine? && l.text == [] then HeaderLws else HeaderValue;
      match l {
        case HeaderLine(name, value) => HeaderLinePasses(r1, name, value);
        case FoldedLine(space, text) => FoldedLinePasses(r1, space, text);
      }
      PassesAppend(Consume, p, LinesText(before), HttpMemory(HeaderLineStart, r1), l.Body(), HttpMemory(st, r2));
      LineEnd(st, r2);
      PassesAppend(Consume, p, LinesText(before) + l.Body(), HttpMemory(st, r2), [CR, LF],
                   HttpMemory(HeaderLineStart, r2));
      assert LinesText(before) + l.Body() + [CR, LF] == LinesText(ls);
    }
  }

  // ---------------------------------------------------------------- the request line

  lemma ToUriPasses(p: HttpMemory, t: Sentence)
    requires Fresh(p) && WellFormed(t)
    ensures Passes(Consume, p, ToUri(t.methodName, t.uri),
                   HttpMemory(Uri, p.request.(methodName := t.methodName, uri := t.uri)))
  {
    var m := t.methodName;
    var r1 := p.request.(methodName := m);
    OneByte(Consume, p, m[0]);
    MethodChars(p.request.(methodName := [m[0]]), m[1..]);
    assert [] + [m[0]] == [m[0]] && [m[0]] + m[1..] == m;
    PassesAppend(Consume, p, [m[0]], HttpMemory(Method, p.request.(methodName := [m[0]])), m[1..],
                 HttpMemory(Method, r1));
    OneByte(Consume, HttpMemory(Method, r1), SP);
    PassesAppend(Consume, p, m, HttpMemory(Method, r1), [SP], HttpMemory(Uri, r1));
    UriChars(r1, t.uri);
    assert [] + t.uri == t.uri;
    PassesAppend(Consume, p, m + [SP], HttpMemory(Uri, r1), t.uri, HttpMemory(Uri, r1.(uri := t.uri)));
  }

  lemma LiteralPasses(r: Request)
    ensures Passes(Consume, HttpMemory(Uri, r), HTTP, HttpMemory(MajorStart, r.(major := 0, minor := 0)))
  {
    var p := HttpMemory(Uri, r);
    OneByte(Consume, p, SP);
    OneByte(Consume, HttpMemory(VersionH, r), H);
    PassesAppend(Consume, p, [SP], HttpMemory(VersionH, r), [H], HttpMemory(VersionT1, r));
    OneByte(Consume, HttpMemory(VersionT1, r), T);
    PassesAppend(Consume, p, [SP] + [H], HttpMemory(VersionT1, r), [T], HttpMemory(VersionT2, r));
    OneByte(Consume, HttpMemory(VersionT2, r), T);
    PassesAppend(Consume, p, [SP] + [H] + [T], HttpMemory(VersionT2, r), [T], HttpMemory(VersionP, r));
    OneByte(Consume, HttpMemory(VersionP, r), P);
    PassesAppend(Consume, p, [SP] + [H] + [T] + [T], HttpMemory(VersionP, r), [P], HttpMemory(VersionSlash, r));
    OneByte(Consume, HttpMemory(VersionSlash, r), SLASH);
    PassesAppend(Consume, p, [SP] + [H] + [T] + [T] + [P], HttpMemory(VersionSlash, r), [SLASH],
                 HttpMemory(MajorStart, r.(major := 0, minor := 0)));
    assert [SP] + [H] + [T] + [T] + [P] + [SLASH] == HTTP;
  }

  lemma MajorPasses(r: Request, major: seq<Byte>)
    requires major != [] && Digits(major) && r.major == 0
    ensures Passes(Consume, HttpMemory(MajorStart, r), major, HttpMemory(Major, r.(major := DigitsValue(major))))
  {
    var p := HttpMemory(MajorStart, r);
    var q := HttpMemory(Major, r.(major := DigitsValue([major[0]])));
    PushDigit([], major[0]);
    assert [] + [major[0]] == [major[0]] && [major[0]] + major[1..] == major;
    OneByte(Consume, p, major[0]);
    MajorChars(r, [major[0]], major[1..]);
    PassesAppend(Consume, p, [major[0]], q, major[1..], HttpMemory(Major, r.(major := DigitsValue(major))));
  }

  lemma MinorPasses(r: Request, minor: seq<Byte>)
    requires minor != [] && Digits(minor) && r.minor == 0
    ensures Passes(Consume, HttpMemory(MinorStart, r), minor, HttpMemory(Minor, r.(minor := DigitsValue(minor))))
  {
    var p := HttpMemory(MinorStart, r);
    var q := HttpMemory(Minor, r.(minor := DigitsValue([minor[0]])));
    PushDigit([], minor[0]);
    assert [] + [minor[0]] == [minor[0]] && [minor[0]] + minor[1..] == minor;
    OneByte(Consume, p, minor[0]);
    MinorChars(r, [minor[0]], minor[1..]);
    PassesAppend(Consume, p, [minor[0]], q, minor[1..], HttpMemory(Minor, r.(minor := DigitsValue(minor))));
  }

  lemma VersionPasses(r: Request, major: seq<Byte>, minor: seq<Byte>)
    requires major != [] && Digits(major) && minor != [] && Digits(minor) && r.major == 0 && r.minor == 0
    ensures Passes(Consume, HttpMemory(MajorStart, r), major + [DOT] + minor,
                   HttpMemory(Minor, r.(major := DigitsValue(major), minor := DigitsValue(minor))))
  {
    var p := HttpMemory(MajorStart, r);
    var r1 := r.(major := DigitsValue(major));
    MajorPasses(r, major);
    OneByte(Consume, HttpMemory(Major, r1), DOT);
    PassesAppend(Consume, p, major, HttpMemory(Major, r1), [DOT], HttpMemory(MinorStart, r1));
    MinorPasses(r1, minor);
    PassesAppend(Consume, p, major + [DOT], HttpMemory(MinorStart, r1), minor,
                 HttpMemory(Minor, r1.(minor := DigitsValue(minor))));
  }

  lemma RequestLinePasses(p: HttpMemory, t: Sentence)
    requires Fresh(p) && WellFormed(t)
    ensures Passes(Consume, p, RequestLine(t), HttpMemory(HeaderLineStart, Denote(t).(headers := [])))
  {
    var r := p.request.(methodName := t.methodName, uri := t.uri);
    var r0 := r.(major := 0, minor := 0);
    var r1 := Denote(t).(headers := []);
    var a := ToUri(t.methodName, t.uri);
    ToUriPasses(p, t);
    LiteralPasses(r);
    PassesAppend(Consume, p, a, HttpMemory(Uri, r), HTTP, HttpMemory(MajorStart, r0));
    VersionPasses(r0, t.major, t.minor);
    PassesAppend(Consume, p, a + HTTP, HttpMemory(MajorStart, r0), t.major + [DOT] + t.minor, HttpMemory(Minor, r1));
    assert a + HTTP + (t.major + [DOT] + t.minor) == ToMinor(t.methodName, t.uri, t.major, t.minor);
    OneByte(Consume, HttpMemory(Minor, r1), CR);
    var line := ToMinor(t.methodName, t.uri, t.major, t.minor);
    PassesAppend(Consume, p, line, HttpMemory(Minor, r1), [CR], HttpMemory(Newline1, r1));
    OneByte(Consume, HttpMemory(Newline1, r1), LF);
    PassesAppend(Consume, p, line + [CR], HttpMemory(Newline1, r1), [LF], HttpMemory(HeaderLineStart, r1));
  }

  /** Every sentence is accepted after exactly its last byte, with the request it denotes. */
  lemma AcceptsEverySentence(p: HttpMemory, t: Sentence)
    requires Fresh(p) && WellFormed(t)
    ensures var o := ParseRequest(p, Render(t));
            o.result == Yes && o.consumed == |Render(t)| && o.memory.request == Denote(t)
  {
    var r := Denote(t);
    var q := HttpMemory(HeaderLineStart, r);
    RequestLinePasses(p, t);
    LinesPass(r.(headers := []), t.lines);
    PassesAppend(Consume, p, RequestLine(t), HttpMemory(HeaderLineStart, r.(headers := [])), LinesText(t.lines), q);
    OneByte(Consume, q, CR);
    PassesAppend(Consume, p, RequestLine(t) + LinesText(t.lines), q, [CR], HttpMemory(Newline3, r));
    Continue(Consume, p, RequestLine(t) + LinesText(t.lines) + [CR], HttpMemory(Newline3, r), [LF]);
    FirstByte(Consume, HttpMemory(Newline3, r), [LF]);
  }

  // ---------------------------------------------------------------- no dead ends

  /** A byte that leads every state closer to the blank line. */
  function Next(st: HttpState): Byte {
    match st
    case MethodStart => T case Method => SP case Uri => SP
    case VersionH => H case VersionT1 => T case VersionT2 => T case VersionP => P case VersionSlash => SLASH
    case MajorStart => ZERO case Major => DOT case MinorStart => ZERO case Minor => CR
    case Newline1 => LF case HeaderLineStart => CR
    case HeaderLws => CR case HeaderName => COLON case SpaceBeforeValue => SP case HeaderValue => CR
    case Newline2 => LF case Newline3 => LF
  }

  function Distance(st: HttpState): nat {
    match st
    case MethodStart => 15 case Method => 14 case Uri => 13
    case VersionH => 12 case VersionT1 => 11 case VersionT2 => 10 case VersionP => 9 case VersionSlash => 8
    case MajorStart => 7 case Major => 6 case MinorStart => 5 case Minor => 4
    case Newline1 => 3 case HeaderName => 6 case SpaceBeforeValue => 5
    case HeaderLws => 4 case HeaderValue => 4 case Newline2 => 3
    case HeaderLineStart => 2 case Newline3 => 1
  }

  /** From every state the parser can be in, some continuation is accepted. */
  lemma {:induction false} Completion(p: HttpMemory) returns (s: seq<Byte>)
    ensures s != [] && ParseRequest(p, s).result == Yes && ParseRequest(p, s).consumed == |s|
    decreases Distance(p.state)
  {
    var c := Next(p.state);
    var (q, r) := Consume(p, c);
    if p.state == Newline3 {
      s := [LF];
      FirstByte(Consume, p, s);
    } else {
      assert r == Indeterminate && Distance(q.state) < Distance(p.state);
      var rest := Completion(q);
      s := [c] + rest;
      FirstByte(Consume, p, s);
      assert s[1..] == rest;
    }
  }
}
