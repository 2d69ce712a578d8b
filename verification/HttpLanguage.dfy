/** The request parser decides exactly the request grammar, and printing a request
    is a right inverse of parsing it. */
module HttpLanguage {
  import opened Bytes
  import opened Decimals
  import opened Incremental
  import opened HttpParser
  import opened HttpGrammar
  import opened HttpSoundness
  import opened HttpCompleteness

  ghost predicate Spells(t: Sentence, s: seq<Byte>) {
    WellFormed(t) && s == Render(t)
  }

  /** `y` completes `s` to a sentence. */
  ghost predicate Completes(s: seq<Byte>, y: seq<Byte>) {
    exists t :: Spells(t, s + y)
  }

  /** Yes after exactly `s` if and only if `s` is a sentence; the stored request is
      the one the sentence denotes, however it is read as a sentence. */
  lemma AcceptsExactlySentences(p: HttpMemory, s: seq<Byte>)
    requires Fresh(p)
    ensures var o := ParseRequest(p, s);
            && ((o.result == Yes && o.consumed == |s|) <==> exists t :: Spells(t, s))
            && (forall t :: Spells(t, s) ==> o.memory.request == Denote(t))
  {
    var o := ParseRequest(p, s);
    forall t | Spells(t, s)
      ensures o.result == Yes && o.consumed == |s| && o.memory.request == Denote(t)
    {
      AcceptsEverySentence(p, t);
    }
    if o.result == Yes && o.consumed == |s| {
      var t := AcceptsOnlySentences(p, s);
      assert s[..|s|] == s;
      assert Spells(t, s);
    }
  }

  /** No, once `s` has been consumed, if and only if no continuation of `s` is a sentence. */
  lemma RejectsExactlyDeadEnds(p: HttpMemory, s: seq<Byte>)
    requires Fresh(p) && ParseRequest(p, s).consumed == |s|
    ensures ParseRequest(p, s).result == No <==> !exists y :: Completes(s, y)
  {
    var o := ParseRequest(p, s);
    forall y, t | Spells(t, s + y)
      ensures o.result != No
    {
      AcceptsEverySentence(p, t);
      ParseAppend(Consume, p, s, y);
    }
    if o.result == Yes {
      AcceptsExactlySentences(p, s);
      var t :| Spells(t, s);
      assert s + [] == s;
      assert Completes(s, []);
    } else if o.result == Indeterminate {
      var y := Completion(o.memory);
      ParseAppend(Consume, p, s, y);
      AcceptsExactlySentences(p, s + y);
      var t :| Spells(t, s + y);
      assert Completes(s, y);
    }
  }

  // ---------------------------------------------------------------- printing

  predicate HeaderOk(h: Header) {
    h.name != [] && Token(h.name) && Printable(h.value)
  }

  predicate RequestOk(r: Request) {
    && r.methodName != [] && Token(r.methodName) && UriText(r.uri) && r.major >= 0 && r.minor >= 0
    && forall i | 0 <= i < |r.headers| :: HeaderOk(r.headers[i])
  }

  function HeaderLines(hs: seq<Header>): seq<Line> {
    seq(|hs|, i requires 0 <= i < |hs| => HeaderLine(hs[i].name, hs[i].value))
  }

  /** One `name: value` line per header and versions without leading zeros. */
  function Canonical(r: Request): Sentence
    requires RequestOk(r)
  {
    Sentence(r.methodName, r.uri, Decimal(r.major), Decimal(r.minor), HeaderLines(r.headers))
  }

  function Print(r: Request): seq<Byte>
    requires RequestOk(r)
  {
    Render(Canonical(r))
  }

  lemma {:induction false} HeaderLinesDenote(hs: seq<Header>)
    ensures HeadersOf(HeaderLines(hs)) == hs
    decreases |hs|
  {
    if hs != [] {
      var before := hs[..|hs| - 1];
      HeaderLinesDenote(before);
      assert HeaderLines(hs)[..|hs| - 1] == HeaderLines(before);
      assert before + [hs[|hs| - 1]] == hs;
    }
  }

  lemma {:induction false} HeadersOk(ls: seq<Line>)
    requires LinesOk(ls)
    ensures forall i | 0 <= i < |HeadersOf(ls)| :: HeaderOk(HeadersOf(ls)[i])
    decreases |ls|
  {
    if ls != [] {
      HeadersOk(ls[..|ls| - 1]);
    }
  }

  /** Every request the parser accepts can be printed. */
  lemma AcceptedIsPrintable(p: HttpMemory, s: seq<Byte>)
    requires Fresh(p) && ParseRequest(p, s).result == Yes
    ensures RequestOk(ParseRequest(p, s).memory.request)
  {
    var t := AcceptsOnlySentences(p, s);
    DigitsNonNegative(t.major);
    DigitsNonNegative(t.minor);
    HeadersOk(t.lines);
  }

  /** parse after print is the identity on printable requests. */
  lemma ParsePrint(p: HttpMemory, r: Request)
    requires Fresh(p) && RequestOk(r)
    ensures var o := ParseRequest(p, Print(r));
            o.result == Yes && o.consumed == |Print(r)| && o.memory.request == r
  {
    var t := Canonical(r);
    assert WellFormed(t);
    DecimalValue(r.major);
    DecimalValue(r.minor);
    HeaderLinesDenote(r.headers);
    AcceptsEverySentence(p, t);
  }

  /** parse, print, parse is parse: folded headers and leading zeros are only another
      spelling of the same request. */
  lemma ParsePrintParse(p: HttpMemory, q: HttpMemory, s: seq<Byte>)
    requires Fresh(p) && Fresh(q) && ParseRequest(p, s).result == Yes
    ensures var r := ParseRequest(p, s).memory.request;
            RequestOk(r) && ParseRequest(q, Print(r)).result == Yes && ParseRequest(q, Print(r)).memory.request == r
  {
    AcceptedIsPrintable(p, s);
    ParsePrint(q, ParseRequest(p, s).memory.request);
  }
}
