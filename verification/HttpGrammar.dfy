/** The request grammar the parser is meant for, as syntax trees with the text they
    spell and the request they denote. */
module HttpGrammar {
  import opened Bytes
  import opened Decimals
  import opened HttpParser

  /** A line between the request line and the blank line: a header, or a folded
      continuation of the header before it. */
  datatype Line =
    | HeaderLine(name: seq<Byte>, value: seq<Byte>)
    | FoldedLine(space: seq<Byte>, text: seq<Byte>)
  {
    predicate WellFormed() {
      match this
      case HeaderLine(name, value) => name != [] && Token(name) && Printable(value)
      case FoldedLine(space, text) =>
        space != [] && Blank(space) && Printable(text) && (text != [] ==> !IsBlank(text[0]))
    }

    function Body(): seq<Byte> {
      match this
      case HeaderLine(name, value) => name + [COLON, SP] + value
      case FoldedLine(space, text) => space + text
    }
  }

  datatype Sentence = Sentence(
    methodName: seq<Byte>,
    uri: seq<Byte>,
    major: seq<Byte>,
    minor: seq<Byte>,
    lines: seq<Line>)

  predicate IsBlank(c: Byte) { c == SP || c == TAB }

  predicate Token(s: seq<Byte>) { forall i | 0 <= i < |s| :: IsTokenChar(s[i]) }

  predicate Printable(s: seq<Byte>) { forall i | 0 <= i < |s| :: !IsCtl(s[i]) }

  predicate UriText(s: seq<Byte>) { forall i | 0 <= i < |s| :: !IsCtl(s[i]) && s[i] != SP }

  predicate Blank(s: seq<Byte>) { forall i | 0 <= i < |s| :: IsBlank(s[i]) }

  predicate LinesOk(ls: seq<Line>) {
    && (forall i | 0 <= i < |ls| :: ls[i].WellFormed())
    && (ls != [] ==> ls[0].HeaderLine?)
  }

  predicate WellFormed(t: Sentence) {
    && t.methodName != [] && Token(t.methodName)
    && UriText(t.uri)
    && t.major != [] && Digits(t.major)
    && t.minor != [] && Digits(t.minor)
    && LinesOk(t.lines)
  }

  // ---------------------------------------------------------------- text

  /** " HTTP/", with the space after the URI. */
  const HTTP: seq<Byte> := [SP, H, T, T, P, SLASH]

  function ToUri(methodName: seq<Byte>, uri: seq<Byte>): seq<Byte> {
    methodName + [SP] + uri
  }

  function ToMajor(methodName: seq<Byte>, uri: seq<Byte>, major: seq<Byte>): seq<Byte> {
    ToUri(methodName, uri) + HTTP + major
  }

  function ToMinor(methodName: seq<Byte>, uri: seq<Byte>, major: seq<Byte>, minor: seq<Byte>): seq<Byte> {
    ToMajor(methodName, uri, major) + [DOT] + minor
  }

  function RequestLine(t: Sentence): seq<Byte> {
    ToMinor(t.methodName, t.uri, t.major, t.minor) + [CR] + [LF]
  }

  function LinesText(ls: seq<Line>): seq<Byte> {
    if ls == [] then [] else LinesText(ls[..|ls| - 1]) + ls[|ls| - 1].Body() + [CR] + [LF]
  }

  function Render(t: Sentence): seq<Byte> {
    RequestLine(t) + LinesText(t.lines) + [CR] + [LF]
  }

  // ---------------------------------------------------------------- meaning

  /** A folded line adds its text, with no space, to the header before it. */
  function HeadersOf(ls: seq<Line>): (hs: seq<Header>)
    ensures LinesOk(ls) && ls != [] ==> hs != []
  {
    if ls == [] then []
    else
      var hs := HeadersOf(ls[..|ls| - 1]);
      match ls[|ls| - 1]
      case HeaderLine(name, value) => hs + [Header(name, value)]
      case FoldedLine(_, text) => AppendValue(hs, text)
  }

  function Denote(t: Sentence): Request {
    Request(t.methodName, t.uri, DigitsValue(t.major), DigitsValue(t.minor), HeadersOf(t.lines))
  }
}
