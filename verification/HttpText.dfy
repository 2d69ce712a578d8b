/** The request grammar in character literals: what sentences look like as text, and which
    characters they may hold. Nothing here uses the parser's constants and classes. */
module HttpText {
  import opened Bytes
  import opened Decimals
  import opened Incremental
  import opened HttpParser
  import opened HttpGrammar
  import opened HttpLanguage

  // ---------------------------------------------------------------- characters

  predicate IsLetter(c: Byte) {
    'A' as int <= c <= 'Z' as int || 'a' as int <= c <= 'z' as int
  }

  predicate IsNumeral(c: Byte) { '0' as int <= c <= '9' as int }

  predicate IsMark(c: Byte) {
    || c == '!' as int || c == '#' as int || c == '$' as int || c == '%' as int || c == '&' as int
    || c == '\'' as int || c == '*' as int || c == '+' as int || c == '-' as int || c == '.' as int
    || c == '^' as int || c == '_' as int || c == '`' as int || c == '|' as int || c == '~' as int
  }

  /** The token characters are the letters, the digits and fifteen marks, */
  lemma TokenCharacters(c: Byte)
    ensures IsTokenChar(c) <==> IsLetter(c) || IsNumeral(c) || IsMark(c)
  {
  }

  /** and the controls are what lies below the space, and DEL. */
  lemma ControlCharacters(c: Byte)
    ensures !IsCtl(c) <==> ' ' as int <= c <= '~' as int || c >= 128
  {
  }

  predicate AllToken(s: seq<Byte>) {
    forall i | 0 <= i < |s| :: IsLetter(s[i]) || IsNumeral(s[i]) || IsMark(s[i])
  }

  predicate AllVisible(s: seq<Byte>) {
    forall i | 0 <= i < |s| :: ' ' as int <= s[i] <= '~' as int || s[i] >= 128
  }

  predicate AllNumerals(s: seq<Byte>) {
    forall i | 0 <= i < |s| :: IsNumeral(s[i])
  }

  predicate AllSpacesOrTabs(s: seq<Byte>) {
    forall i | 0 <= i < |s| :: s[i] == ' ' as int || s[i] == '\t' as int
  }

  lemma Classes(s: seq<Byte>)
    ensures Token(s) <==> AllToken(s)
    ensures Printable(s) <==> AllVisible(s)
    ensures Digits(s) <==> AllNumerals(s)
    ensures Blank(s) <==> AllSpacesOrTabs(s)
    ensures UriText(s) <==> AllVisible(s) && ' ' as int !in s
  {
  }

  // ---------------------------------------------------------------- text

  function LineText(l: Line): seq<Byte> {
    match l
    case HeaderLine(name, value) => name + Ascii(": ") + value
    case FoldedLine(space, text) => space + text
  }

  function LinesInOrder(ls: seq<Line>): seq<Byte> {
    if ls == [] then [] else LineText(ls[0]) + Ascii("\r\n") + LinesInOrder(ls[1..])
  }

  function RequestText(t: Sentence): seq<Byte> {
    t.methodName + Ascii(" ") + t.uri + Ascii(" HTTP/") + t.major + Ascii(".") + t.minor + Ascii("\r\n")
    + LinesInOrder(t.lines) + Ascii("\r\n")
  }

  predicate LineIsText(l: Line) {
    match l
    case HeaderLine(name, value) => name != [] && AllToken(name) && AllVisible(value)
    case FoldedLine(space, text) =>
      && space != [] && AllSpacesOrTabs(space) && AllVisible(text)
      && (text != [] ==> text[0] != ' ' as int && text[0] != '\t' as int)
  }

  predicate IsRequestText(t: Sentence) {
    && t.methodName != [] && AllToken(t.methodName)
    && AllVisible(t.uri) && ' ' as int !in t.uri
    && t.major != [] && AllNumerals(t.major) && t.minor != [] && AllNumerals(t.minor)
    && (forall i | 0 <= i < |t.lines| :: LineIsText(t.lines[i]))
    && (t.lines != [] ==> t.lines[0].HeaderLine?)
  }

  lemma Separators()
    ensures Ascii(" ") == [SP] && Ascii(".") == [DOT] && Ascii(": ") == [COLON, SP]
    ensures Ascii("\r\n") == [CR] + [LF]
  {
  }

  lemma VersionLiteral()
    ensures Ascii(" HTTP/") == HTTP
  {
  }

  lemma LineBody(l: Line)
    ensures l.Body() == LineText(l)
  {
    Separators();
  }

  lemma {:induction false} LinesSnoc(ls: seq<Line>, l: Line)
    ensures LinesInOrder(ls + [l]) == LinesInOrder(ls) + (LineText(l) + Ascii("\r\n"))
    decreases |ls|
  {
    var end := LineText(l) + Ascii("\r\n");
    if ls == [] {
      assert ls + [l] == [l] && [l][1..] == [];
      assert end + [] == end && [] + end == end;
    } else {
      assert (ls + [l])[1..] == ls[1..] + [l];
      LinesSnoc(ls[1..], l);
      AppendAssociates(LineText(ls[0]) + Ascii("\r\n"), LinesInOrder(ls[1..]), end);
    }
  }

  lemma FourParts(a: seq<Byte>, b: seq<Byte>, c: seq<Byte>, d: seq<Byte>)
    ensures a + b + c + d == a + (b + (c + d))
  {
  }

  lemma LastLineText(before: seq<Line>, l: Line)
    ensures LinesText(before + [l]) == LinesText(before) + (LineText(l) + Ascii("\r\n"))
  {
    assert (before + [l])[..|before|] == before;
    LineBody(l);
    Separators();
    FourParts(LinesText(before), l.Body(), [CR], [LF]);
  }

  lemma {:induction false} LinesAreText(ls: seq<Line>)
    ensures LinesText(ls) == LinesInOrder(ls)
    decreases |ls|
  {
    if ls != [] {
      var before, l := ls[..|ls| - 1], ls[|ls| - 1];
      LinesAreText(before);
      LinesSnoc(before, l);
      LastLineText(before, l);
      assert before + [l] == ls;
    }
  }

  /** What the grammar spells, in characters. */
  lemma RenderIsText(t: Sentence)
    ensures Render(t) == RequestText(t)
  {
    Separators();
    VersionLiteral();
    LinesAreText(t.lines);
    var line := ToMinor(t.methodName, t.uri, t.major, t.minor);
    AppendAssociates(line, [CR], [LF]);
    AppendAssociates(RequestLine(t) + LinesText(t.lines), [CR], [LF]);
  }

  lemma LineClasses(l: Line)
    ensures l.WellFormed() <==> LineIsText(l)
  {
    match l {
      case HeaderLine(name, value) =>
        Classes(name);
        Classes(value);
      case FoldedLine(space, text) =>
        Classes(space);
        Classes(text);
    }
  }

  /** What the grammar allows, in characters. */
  lemma WellFormedIsText(t: Sentence)
    ensures WellFormed(t) <==> IsRequestText(t)
  {
    Classes(t.methodName);
    Classes(t.uri);
    Classes(t.major);
    Classes(t.minor);
    forall i | 0 <= i < |t.lines| ensures t.lines[i].WellFormed() <==> LineIsText(t.lines[i]) {
      LineClasses(t.lines[i]);
    }
  }

  ghost predicate IsTextOf(t: Sentence, s: seq<Byte>) {
    IsRequestText(t) && s == RequestText(t)
  }

  /** The parser answers yes after exactly `s` if and only if `s` is the text of a request:
      method, URI, version, header lines and folded lines, line by line, in characters. */
  lemma AcceptsExactlyText(p: HttpMemory, s: seq<Byte>)
    requires Fresh(p)
    ensures var o := ParseRequest(p, s);
            && ((o.result == Yes && o.consumed == |s|) <==> exists t :: IsTextOf(t, s))
            && (forall t :: IsTextOf(t, s) ==>
                  var r := o.memory.request;
                  && r.methodName == t.methodName && r.uri == t.uri && r.headers == HeadersOf(t.lines)
                  && r.major == DigitsValue(t.major) && r.minor == DigitsValue(t.minor))
  {
    AcceptsExactlySentences(p, s);
    forall t ensures IsTextOf(t, s) <==> Spells(t, s) {
      RenderIsText(t);
      WellFormedIsText(t);
    }
  }

  /** The shortest request of a browser. */
  lemma RootRequest(p: HttpMemory, s: seq<Byte>)
    requires Fresh(p) && s == Ascii("GET / HTTP/1.1\r\n\r\n")
    ensures var o := ParseRequest(p, s);
            o.result == Yes && o.consumed == |s| &&
            o.memory.request == Request(Ascii("GET"), Ascii("/"), 1, 1, [])
  {
    var t := Sentence(Ascii("GET"), Ascii("/"), Ascii("1"), Ascii("1"), []);
    RootText(s);
    assert IsTextOf(t, s);
    AcceptsExactlyText(p, s);
    OneDigit('1');
  }

  lemma RootText(s: seq<Byte>)
    requires s == Ascii("GET / HTTP/1.1\r\n\r\n")
    ensures s == RequestText(Sentence(Ascii("GET"), Ascii("/"), Ascii("1"), Ascii("1"), []))
  {
  }

  lemma OneDigit(c: char)
    requires '0' <= c <= '9'
    ensures DigitsValue([c as int]) == c as int - '0' as int
  {
    assert [c as int][..0] == [];
  }
}
