/** Whatever the request parser has consumed without failing is the start of a
    sentence, and what it stores is what that start denotes. */
module HttpSoundness {
  import opened Bytes
  import opened Decimals
  import opened Incremental
  import opened HttpParser
  import opened HttpGrammar

  function Rank(st: HttpState): nat {
    match st
    case MethodStart => 0 case Method => 1 case Uri => 2
    case VersionH => 3 case VersionT1 => 4 case VersionT2 => 5 case VersionP => 6 case VersionSlash => 7
    case MajorStart => 8 case Major => 9 case MinorStart => 10 case Minor => 11 case Newline1 => 12
    case _ => 13
  }

  /** The parts of a tree that a state has read are well-formed, the rest is empty. */
  predicate PartWellFormed(st: HttpState, t: Sentence) {
    var k := Rank(st);
    && (if k < 1 then t.methodName == [] else t.methodName != [] && Token(t.methodName))
    && (if k < 2 then t.uri == [] else UriText(t.uri))
    && (if k < 9 then t.major == [] else t.major != [] && Digits(t.major))
    && (if k < 11 then t.minor == [] else t.minor != [] && Digits(t.minor))
    && (if k < 13 then t.lines == [] else LinesOk(t.lines) && LastLineFits(st, t.lines))
  }

  predicate LastLineFits(st: HttpState, ls: seq<Line>) {
    match st
    case HeaderName => ls != [] && ls[|ls| - 1].HeaderLine? && ls[|ls| - 1].value == []
    case SpaceBeforeValue => ls != [] && ls[|ls| - 1].HeaderLine? && ls[|ls| - 1].value == []
    case HeaderLws => ls != [] && ls[|ls| - 1].FoldedLine? && ls[|ls| - 1].text == []
    case HeaderValue => ls != [] && (ls[|ls| - 1].FoldedLine? ==> ls[|ls| - 1].text != [])
    case Newline2 => ls != []
    case _ => true
  }

  /** The text of a request line up to the point a state stands for. */
  function RequestLinePart(st: HttpState, t: Sentence): seq<Byte> {
    var k := Rank(st);
    if k == 0 then []
    else if k == 1 then t.methodName
    else if k <= 8 then ToUri(t.methodName, t.uri) + HTTP[..k - 2]
    else if k == 9 then ToMajor(t.methodName, t.uri, t.major)
    else if k <= 11 then ToMinor(t.methodName, t.uri, t.major, t.minor)
    else if k == 12 then ToMinor(t.methodName, t.uri, t.major, t.minor) + [CR]
    else RequestLine(t)
  }

  /** The text of the header lines up to the point a state stands for. */
  function LinesPart(st: HttpState, ls: seq<Line>): seq<Byte>
    requires LastLineFits(st, ls)
  {
    match st
    case HeaderLineStart => LinesText(ls)
    case Newline3 => LinesText(ls) + [CR]
    case HeaderName => LinesText(ls[..|ls| - 1]) + ls[|ls| - 1].name
    case SpaceBeforeValue => LinesText(ls[..|ls| - 1]) + (ls[|ls| - 1].name + [COLON])
    case HeaderLws => LinesText(ls[..|ls| - 1]) + ls[|ls| - 1].Body()
    case HeaderValue => LinesText(ls[..|ls| - 1]) + ls[|ls| - 1].Body()
    case Newline2 => LinesText(ls[..|ls| - 1]) + ls[|ls| - 1].Body() + [CR]
    case _ => []
  }

  /** Exactly the bytes consumed on the way to a state with a tree. */
  function Spelled(st: HttpState, t: Sentence): seq<Byte>
    requires PartWellFormed(st, t)
  {
    if Rank(st) < 13 then RequestLinePart(st, t) else RequestLine(t) + LinesPart(st, t.lines)
  }

  predicate Stores(p: HttpMemory, t: Sentence) {
    var r := p.request;
    && r.methodName == t.methodName && r.uri == t.uri && r.headers == HeadersOf(t.lines)
    && (Rank(p.state) >= 8 ==> r.major == DigitsValue(t.major) && r.minor == DigitsValue(t.minor))
  }

  predicate Explains(t: Sentence, p: HttpMemory, s: seq<Byte>) {
    PartWellFormed(p.state, t) && Spelled(p.state, t) == s && Stores(p, t)
  }

  // ---------------------------------------------------------------- one byte

  function LastLine(ls: seq<Line>): Line
    requires ls != []
  {
    ls[|ls| - 1]
  }

  function ReplaceLast(ls: seq<Line>, l: Line): seq<Line>
    requires ls != []
  {
    ls[..|ls| - 1] + [l]
  }

  /** The tree after one more byte that the parser did not reject. */
  function Grow(st: HttpState, t: Sentence, c: Byte): Sentence
    requires PartWellFormed(st, t)
  {
    match st
    case MethodStart => t.(methodName := [c])
    case Method => if c == SP then t else t.(methodName := t.methodName + [c])
    case Uri => if c == SP then t else t.(uri := t.uri + [c])
    case MajorStart => t.(major := [c])
    case Major => if c == DOT then t else t.(major := t.major + [c])
    case MinorStart => t.(minor := [c])
    case Minor => if c == CR then t else t.(minor := t.minor + [c])
    case HeaderLineStart =>
      if c == CR then t
      else if IsBlank(c) then t.(lines := t.lines + [FoldedLine([c], [])])
      else t.(lines := t.lines + [HeaderLine([c], [])])
    case HeaderLws =>
      var l := LastLine(t.lines);
      if c == CR then t
      else if IsBlank(c) then t.(lines := ReplaceLast(t.lines, l.(space := l.space + [c])))
      else t.(lines := ReplaceLast(t.lines, l.(text := [c])))
    case HeaderName =>
      var l := LastLine(t.lines);
      if c == COLON then t else t.(lines := ReplaceLast(t.lines, l.(name := l.name + [c])))
    case HeaderValue =>
      var l := LastLine(t.lines);
      if c == CR then t
      else if l.HeaderLine? then t.(lines := ReplaceLast(t.lines, l.(value := l.value + [c])))
      else t.(lines := ReplaceLast(t.lines, l.(text := l.text + [c])))
    case _ => t
  }

  lemma GrowText(p: HttpMemory, t: Sentence, c: Byte, s: seq<Byte>)
    requires Explains(t, p, s) && Rank(p.state) < 3 && Consume(p, c).1 == Indeterminate
    ensures Explains(Grow(p.state, t, c), Consume(p, c).0, s + [c])
  {
    var q := Consume(p, c).0;
    var u := Grow(p.state, t, c);
    assert HTTP[..0] == [] && HTTP[..1] == [SP];
    assert ToUri(t.methodName, []) == t.methodName + [SP];
    assert ToUri(t.methodName, t.uri + [c]) == ToUri(t.methodName, t.uri) + [c];
    assert ToUri(t.methodName, t.uri) + [] == ToUri(t.methodName, t.uri);
    assert ToUri(u.methodName, u.uri) + [] == ToUri(u.methodName, u.uri);
  }

  lemma GrowLiteral(p: HttpMemory, t: Sentence, c: Byte, s: seq<Byte>)
    requires Explains(t, p, s) && 3 <= Rank(p.state) < 8 && Consume(p, c).1 == Indeterminate
    ensures Explains(Grow(p.state, t, c), Consume(p, c).0, s + [c])
  {
    var k := Rank(p.state) - 2;
    assert HTTP[k] == c && HTTP[..k + 1] == HTTP[..k] + [c];
    assert ToUri(t.methodName, t.uri) + HTTP[..k] + [c] == ToUri(t.methodName, t.uri) + (HTTP[..k] + [c]);
  }

  lemma GrowMajor(p: HttpMemory, t: Sentence, c: Byte, s: seq<Byte>)
    requires Explains(t, p, s) && 8 <= Rank(p.state) < 10 && Consume(p, c).1 == Indeterminate
    ensures Explains(Grow(p.state, t, c), Consume(p, c).0, s + [c])
  {
    PushDigit(t.major, c);
    assert t.major == [] ==> t.major + [c] == [c];
    assert HTTP[..6] == HTTP;
    assert ToMajor(t.methodName, t.uri, t.major + [c]) == ToMajor(t.methodName, t.uri, t.major) + [c];
    assert ToMajor(t.methodName, t.uri, []) == ToUri(t.methodName, t.uri) + HTTP;
    assert ToMinor(t.methodName, t.uri, t.major, []) == ToMajor(t.methodName, t.uri, t.major) + [DOT];
  }

  lemma GrowMinor(p: HttpMemory, t: Sentence, c: Byte, s: seq<Byte>)
    requires Explains(t, p, s) && (p.state == MinorStart || p.state == Minor) && Consume(p, c).1 == Indeterminate
    ensures Explains(Grow(p.state, t, c), Consume(p, c).0, s + [c])
  {
    if c != CR {
      PushDigit(t.minor, c);
      assert t.minor == [] ==> t.minor + [c] == [c];
      MinorLonger(t.methodName, t.uri, t.major, t.minor, c);
    }
  }

  lemma MinorLonger(methodName: seq<Byte>, uri: seq<Byte>, major: seq<Byte>, minor: seq<Byte>, c: Byte)
    ensures ToMinor(methodName, uri, major, minor + [c]) == ToMinor(methodName, uri, major, minor) + [c]
  {
    AppendAssociates(ToMajor(methodName, uri, major) + [DOT], minor, [c]);
  }

  lemma GrowNewline(p: HttpMemory, t: Sentence, c: Byte, s: seq<Byte>)
    requires Explains(t, p, s) && p.state == Newline1 && Consume(p, c).1 == Indeterminate
    ensures Explains(Grow(p.state, t, c), Consume(p, c).0, s + [c])
  {
    assert RequestLine(t) + [] == RequestLine(t);
  }

  lemma ReplaceLastHeaders(ls: seq<Line>, l: Line)
    requires LinesOk(ls) && ls != [] && l.WellFormed()
    requires ls[|ls| - 1].HeaderLine? <==> l.HeaderLine?
    ensures var ms := ReplaceLast(ls, l);
            && LinesOk(ms) && ms[..|ms| - 1] == ls[..|ls| - 1] && LastLine(ms) == l
  {
  }

  /** Rewriting the last line changes only the last line's text and header. */
  lemma GrowLast(st: HttpState, t: Sentence, l: Line)
    requires Rank(st) == 13 && PartWellFormed(st, t) && t.lines != []
    requires l.WellFormed() && (LastLine(t.lines).HeaderLine? <==> l.HeaderLine?)
    ensures var before := t.lines[..|t.lines| - 1];
            var ms := ReplaceLast(t.lines, l);
            && LinesOk(ms) && LastLine(ms) == l && ms[..|ms| - 1] == before
            && (l.HeaderLine? ==>
                  HeadersOf(t.lines) == HeadersOf(before) + [Header(LastLine(t.lines).name, LastLine(t.lines).value)])
            && (l.HeaderLine? ==> HeadersOf(ms) == HeadersOf(before) + [Header(l.name, l.value)])
            && (l.FoldedLine? ==> HeadersOf(before) != [])
            && (l.FoldedLine? ==> HeadersOf(t.lines) == AppendValue(HeadersOf(before), LastLine(t.lines).text))
            && (l.FoldedLine? ==> HeadersOf(ms) == AppendValue(HeadersOf(before), l.text))
  {
    ReplaceLastHeaders(t.lines, l);
    assert LinesOk(t.lines[..|t.lines| - 1]);
  }

  lemma Longer(a: seq<Byte>, b: seq<Byte>, d: seq<Byte>, c: Byte)
    requires d == b + [c]
    ensures a + d == a + b + [c]
  {
  }

  /** A step inside the header lines, in terms of what it does to the lines. */
  lemma GrowLines(p: HttpMemory, t: Sentence, c: Byte, s: seq<Byte>, q: HttpMemory, ls: seq<Line>)
    requires Explains(t, p, s) && Rank(p.state) == 13 && Rank(q.state) == 13
    requires LinesOk(ls) && LastLineFits(q.state, ls)
    requires q.request == p.request.(headers := HeadersOf(ls))
    requires LinesPart(q.state, ls) == LinesPart(p.state, t.lines) + [c]
    ensures Explains(t.(lines := ls), q, s + [c])
  {
    Longer(RequestLine(t), LinesPart(p.state, t.lines), LinesPart(q.state, ls), c);
  }

  lemma GrowName(p: HttpMemory, t: Sentence, c: Byte, s: seq<Byte>)
    requires Explains(t, p, s) && p.state == HeaderName && Consume(p, c).1 == Indeterminate
    ensures Explains(Grow(p.state, t, c), Consume(p, c).0, s + [c])
  {
    var l := LastLine(t.lines);
    var k := if c == COLON then l else l.(name := l.name + [c]);
    var before := t.lines[..|t.lines| - 1];
    GrowLast(p.state, t, k);
    Longer(LinesText(before), l.name, l.name + [c], c);
    assert ReplaceLast(t.lines, l) == t.lines;
    GrowLines(p, t, c, s, Consume(p, c).0, ReplaceLast(t.lines, k));
  }

  /** The line end behind a line with or without text. */
  lemma GrowReturn(p: HttpMemory, t: Sentence, s: seq<Byte>)
    requires Explains(t, p, s) && (p.state == HeaderLws || p.state == HeaderValue)
    ensures Explains(t, Consume(p, CR).0, s + [CR])
  {
    GrowLines(p, t, CR, s, Consume(p, CR).0, t.lines);
  }

  lemma GrowSpace(p: HttpMemory, t: Sentence, c: Byte, s: seq<Byte>)
    requires Explains(t, p, s) && p.state == HeaderLws && c != CR && Consume(p, c).1 == Indeterminate
    ensures Explains(Grow(p.state, t, c), Consume(p, c).0, s + [c])
  {
    var l := LastLine(t.lines);
    var before := t.lines[..|t.lines| - 1];
    var k := if IsBlank(c) then l.(space := l.space + [c]) else l.(text := [c]);
    GrowLast(p.state, t, k);
    BodyGrows(l, k, c);
    Longer(LinesText(before), l.Body(), k.Body(), c);
    AppendValueTwice(HeadersOf(before), [], [c]);
    GrowLines(p, t, c, s, Consume(p, c).0, ReplaceLast(t.lines, k));
  }

  lemma BodyGrows(l: Line, k: Line, c: Byte)
    requires || (l.FoldedLine? && l.text == [] && (k == l.(space := l.space + [c]) || k == l.(text := [c])))
             || (l.FoldedLine? && k == l.(text := l.text + [c]))
             || (l.HeaderLine? && k == l.(value := l.value + [c]))
    ensures k.Body() == l.Body() + [c]
  {
  }

  lemma GrowValue(p: HttpMemory, t: Sentence, c: Byte, s: seq<Byte>)
    requires Explains(t, p, s) && p.state == HeaderValue && c != CR && Consume(p, c).1 == Indeterminate
    ensures Explains(Grow(p.state, t, c), Consume(p, c).0, s + [c])
  {
    var l := LastLine(t.lines);
    var before := t.lines[..|t.lines| - 1];
    var k := if l.HeaderLine? then l.(value := l.value + [c]) else l.(text := l.text + [c]);
    GrowLast(p.state, t, k);
    BodyGrows(l, k, c);
    Longer(LinesText(before), l.Body(), k.Body(), c);
    GrowValueHeaders(HeadersOf(before), l, c);
    GrowLines(p, t, c, s, Consume(p, c).0, ReplaceLast(t.lines, k));
  }

  lemma GrowValueHeaders(hs: seq<Header>, l: Line, c: Byte)
    ensures l.HeaderLine? ==>
      AppendValue(hs + [Header(l.name, l.value)], [c]) == hs + [Header(l.name, l.value + [c])]
    ensures l.FoldedLine? && hs != [] ==>
      AppendValue(AppendValue(hs, l.text), [c]) == AppendValue(hs, l.text + [c])
  {
    if l.FoldedLine? && hs != [] {
      AppendValueTwice(hs, l.text, [c]);
    }
  }

  lemma PushLine(ls: seq<Line>, l: Line)
    requires LinesOk(ls) && l.WellFormed() && (ls == [] ==> l.HeaderLine?)
    ensures var ms := ls + [l];
            && LinesOk(ms) && ms[..|ms| - 1] == ls && LastLine(ms) == l
            && HeadersOf(ms) ==
                 if l.HeaderLine? then HeadersOf(ls) + [Header(l.name, l.value)] else AppendValue(HeadersOf(ls), l.text)
  {
    assert (ls + [l])[..|ls|] == ls;
  }

  lemma GrowLineStart(p: HttpMemory, t: Sentence, c: Byte, s: seq<Byte>)
    requires Explains(t, p, s) && p.state == HeaderLineStart && Consume(p, c).1 == Indeterminate
    ensures Explains(Grow(p.state, t, c), Consume(p, c).0, s + [c])
  {
    if c == CR {
      GrowLines(p, t, c, s, Consume(p, c).0, t.lines);
    } else if IsBlank(c) {
      var l := FoldedLine([c], []);
      assert l.WellFormed() && t.lines != [];
      PushLine(t.lines, l);
      AppendValueTwice(HeadersOf(t.lines), [], []);
      assert l.Body() == [c];
      GrowLines(p, t, c, s, Consume(p, c).0, t.lines + [l]);
    } else {
      var l := HeaderLine([c], []);
      assert l.WellFormed();
      PushLine(t.lines, l);
      GrowLines(p, t, c, s, Consume(p, c).0, t.lines + [l]);
    }
  }

  lemma GrowLineEnd(p: HttpMemory, t: Sentence, c: Byte, s: seq<Byte>)
    requires Explains(t, p, s) && (p.state == SpaceBeforeValue || p.state == Newline2)
    requires Consume(p, c).1 == Indeterminate
    ensures Explains(Grow(p.state, t, c), Consume(p, c).0, s + [c])
  {
    var l := LastLine(t.lines);
    if p.state == SpaceBeforeValue {
      assert l.Body() == l.name + [COLON] + [SP];
      Longer(LinesText(t.lines[..|t.lines| - 1]), l.name + [COLON], l.Body(), c);
    }
    GrowLines(p, t, c, s, Consume(p, c).0, t.lines);
  }

  /** One more byte: the tree grows by exactly that byte. */
  lemma GrowStep(p: HttpMemory, t: Sentence, c: Byte, s: seq<Byte>)
    requires Explains(t, p, s) && Consume(p, c).1 == Indeterminate
    ensures Explains(Grow(p.state, t, c), Consume(p, c).0, s + [c])
  {
    var k := Rank(p.state);
    if k < 3 { GrowText(p, t, c, s); }
    else if k < 8 { GrowLiteral(p, t, c, s); }
    else if k < 10 { GrowMajor(p, t, c, s); }
    else if k < 12 { GrowMinor(p, t, c, s); }
    else if k < 13 { GrowNewline(p, t, c, s); }
    else if p.state == HeaderName { GrowName(p, t, c, s); }
    else if c == CR && (p.state == HeaderLws || p.state == HeaderValue) { GrowReturn(p, t, s); }
    else if p.state == HeaderLws { GrowSpace(p, t, c, s); }
    else if p.state == HeaderValue { GrowValue(p, t, c, s); }
    else if p.state == HeaderLineStart { GrowLineStart(p, t, c, s); }
    else { GrowLineEnd(p, t, c, s); }
  }

  lemma FinalByte(p: HttpMemory, t: Sentence, c: Byte, s: seq<Byte>)
    requires Explains(t, p, s) && Consume(p, c).1 == Yes
    ensures WellFormed(t) && s + [c] == Render(t) && p.request == Denote(t)
  {
    assert RequestLine(t) + LinesText(t.lines) + [CR] == RequestLine(t) + (LinesText(t.lines) + [CR]);
  }

  predicate Accounts(u: Sentence, p: HttpMemory, r: Tribool, s: seq<Byte>) {
    match r
    case Indeterminate => Explains(u, p, s)
    case Yes => WellFormed(u) && s == Render(u) && p.request == Denote(u)
    case No => true
  }

  /** Some tree accounts for the memory, the answer and the bytes consumed. */
  ghost predicate Explainable(p: HttpMemory, r: Tribool, s: seq<Byte>) {
    exists u :: Accounts(u, p, r, s)
  }

  lemma ExplainableStep(p: HttpMemory, c: Byte, s: seq<Byte>)
    requires Explainable(p, Indeterminate, s)
    ensures var (q, r) := Consume(p, c); Explainable(q, r, s + [c])
  {
    var t :| Accounts(t, p, Indeterminate, s);
    var (q, r) := Consume(p, c);
    if r == Indeterminate {
      GrowStep(p, t, c, s);
      assert Accounts(Grow(p.state, t, c), q, r, s + [c]);
    } else {
      if r == Yes {
        FinalByte(p, t, c, s);
      }
      assert Accounts(t, q, r, s + [c]);
    }
  }

  lemma SplitFirst(done: seq<Byte>, s: seq<Byte>, n: nat)
    requires 0 < n <= |s|
    ensures done + [s[0]] + s[1..][..n - 1] == done + s[..n]
    ensures n == 1 ==> done + [s[0]] == done + s[..n]
  {
  }

  /** Any stretch of bytes the parser does not reject is explained by some tree. */
  lemma {:induction false} Explained(p: HttpMemory, done: seq<Byte>, s: seq<Byte>)
    requires Explainable(p, Indeterminate, done)
    ensures var o := ParseRequest(p, s); Explainable(o.memory, o.result, done + s[..o.consumed])
    decreases |s|
  {
    if s == [] {
      assert done + s[..0] == done;
    } else {
      FirstByte(Consume, p, s);
      var (q, r) := Consume(p, s[0]);
      var o := ParseRequest(p, s);
      ExplainableStep(p, s[0], done);
      if r == Indeterminate {
        Explained(q, done + [s[0]], s[1..]);
      }
      SplitFirst(done, s, o.consumed);
    }
  }

  /** The parser accepts only sentences, and stores what they denote. */
  lemma AcceptsOnlySentences(p: HttpMemory, s: seq<Byte>) returns (t: Sentence)
    requires Fresh(p)
    ensures var o := ParseRequest(p, s);
            o.result == Yes ==> WellFormed(t) && s[..o.consumed] == Render(t) && o.memory.request == Denote(t)
  {
    t := Sentence([], [], [], [], []);
    var o := ParseRequest(p, s);
    assert Accounts(t, p, Indeterminate, []);
    Explained(p, [], s);
    assert [] + s[..o.consumed] == s[..o.consumed];
    t :| Accounts(t, o.memory, o.result, s[..o.consumed]);
  }
}
