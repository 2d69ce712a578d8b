/** The split of a request URI into path, query and query parameters. */
module HttpUri {
  import opened Bytes

  const AMPERSAND: Byte := 38
  const EQUALS: Byte := 61
  const QUESTION: Byte := 63

  /** The pieces between separators; an empty string is one empty piece. */
  function Split(s: seq<Byte>, c: Byte): (pieces: seq<seq<Byte>>)
    ensures pieces != []
    decreases |s|
  {
    var i := Find(s, c);
    if i == |s| then [s] else [s[..i]] + Split(s[i + 1..], c)
  }

  function Join(pieces: seq<seq<Byte>>, c: Byte): seq<Byte>
    requires pieces != []
  {
    if |pieces| == 1 then pieces[0] else pieces[0] + [c] + Join(pieces[1..], c)
  }

  /** Splitting undoes joining, for pieces without the separator. */
  lemma {:induction false} SplitJoin(pieces: seq<seq<Byte>>, c: Byte)
    requires pieces != [] && forall i | 0 <= i < |pieces| :: c !in pieces[i]
    ensures Split(Join(pieces, c), c) == pieces
    decreases |pieces|
  {
    var s := Join(pieces, c);
    var i := |pieces[0]|;
    assert s[..i] == pieces[0];
    FindUnique(s, c, i);
    if |pieces| > 1 {
      SplitJoin(pieces[1..], c);
      assert s[i + 1..] == Join(pieces[1..], c);
    }
  }

  /** Joining undoes splitting. */
  lemma {:induction false} JoinSplit(s: seq<Byte>, c: Byte)
    ensures Join(Split(s, c), c) == s
    ensures forall i | 0 <= i < |Split(s, c)| :: c !in Split(s, c)[i]
    decreases |s|
  {
    var i := Find(s, c);
    FindIsFirst(s, c);
    if i < |s| {
      JoinSplit(s[i + 1..], c);
      assert Split(s, c)[1..] == Split(s[i + 1..], c);
      assert s == s[..i] + [c] + s[i + 1..];
    } else {
      assert s[..i] == s;
    }
  }

  type Params = map<seq<Byte>, seq<Byte>>

  /** One piece of the query: the first `=` parts key and value; an empty piece is skipped. */
  function AddPiece(m: Params, piece: seq<Byte>): Params {
    var i := Find(piece, EQUALS);
    if i == |piece| then (if piece == [] then m else m[piece := []])
    else m[piece[..i] := piece[i + 1..]]
  }

  function AddPieces(m: Params, pieces: seq<seq<Byte>>): Params
    decreases |pieces|
  {
    if pieces == [] then m else AddPieces(AddPiece(m, pieces[0]), pieces[1..])
  }

  datatype Target = Target(path: seq<Byte>, query: seq<Byte>, params: Params)

  /** What `parse_uri` stores, given what was there before. */
  function Parsed(before: Target, uri: seq<Byte>): Target {
    var i := Find(uri, QUESTION);
    if i == |uri| then before.(path := uri)
    else
      var query := uri[i + 1..];
      Target(uri[..i], query, AddPieces(before.params, Split(query, AMPERSAND)))
  }

  // ---------------------------------------------------------------- rendering

  /** `key=value`, or a bare nonempty `key`. */
  datatype Param = Pair(key: seq<Byte>, value: seq<Byte>) | Flag(key: seq<Byte>) {
    predicate Ok() {
      && AMPERSAND !in key && EQUALS !in key
      && match this case Pair(_, value) => AMPERSAND !in value case Flag(_) => key != []
    }

    function Text(): seq<Byte> {
      match this case Pair(_, value) => key + [EQUALS] + value case Flag(_) => key
    }

    function Value(): seq<Byte> {
      match this case Pair(_, value) => value case Flag(_) => []
    }
  }

  predicate ParamsOk(ps: seq<Param>) {
    forall i | 0 <= i < |ps| :: ps[i].Ok()
  }

  function Texts(ps: seq<Param>): seq<seq<Byte>> {
    seq(|ps|, i requires 0 <= i < |ps| => ps[i].Text())
  }

  function Query(ps: seq<Param>): seq<Byte> {
    if ps == [] then [] else Join(Texts(ps), AMPERSAND)
  }

  /** The map a parameter list stands for: a later entry replaces an earlier one. */
  function Meaning(m: Params, ps: seq<Param>): Params
    decreases |ps|
  {
    if ps == [] then m else Meaning(m[ps[0].key := ps[0].Value()], ps[1..])
  }

  lemma {:induction false} PiecesMean(m: Params, ps: seq<Param>)
    requires ParamsOk(ps)
    ensures AddPieces(m, Texts(ps)) == Meaning(m, ps)
    decreases |ps|
  {
    if ps != [] {
      var x := ps[0];
      var piece := x.Text();
      assert piece[..|x.key|] == x.key;
      FindUnique(piece, EQUALS, |x.key|);
      if x.Pair? {
        assert piece[|x.key| + 1..] == x.value;
      }
      assert Texts(ps)[1..] == Texts(ps[1..]);
      PiecesMean(m[x.key := x.Value()], ps[1..]);
    }
  }

  /** Any path without `?`, any parameter list, in any order and with repeats: the
      URI built from them parses back to the path, the query and the list's meaning. */
  lemma UriRoundTrip(before: Target, path: seq<Byte>, ps: seq<Param>)
    requires QUESTION !in path && ParamsOk(ps)
    ensures Parsed(before, path + [QUESTION] + Query(ps)) == Target(path, Query(ps), Meaning(before.params, ps))
  {
    var uri := path + [QUESTION] + Query(ps);
    assert uri[..|path|] == path && uri[|path| + 1..] == Query(ps);
    FindUnique(uri, QUESTION, |path|);
    if ps == [] {
      assert Split([], AMPERSAND) == [[]];
      assert AddPieces(before.params, [[]]) == before.params;
    } else {
      forall i | 0 <= i < |ps| ensures AMPERSAND !in Texts(ps)[i] {
        assert ps[i].Ok();
      }
      SplitJoin(Texts(ps), AMPERSAND);
      PiecesMean(before.params, ps);
    }
  }

  /** `key=value` or a bare key, */
  function ParamText(p: Param): seq<Byte> {
    match p case Pair(key, value) => key + Ascii("=") + value case Flag(key) => key
  }

  /** with `&` between them. */
  function QueryText(ps: seq<Param>): seq<Byte> {
    if ps == [] then [] else if |ps| == 1 then ParamText(ps[0]) else ParamText(ps[0]) + Ascii("&") + QueryText(ps[1..])
  }

  lemma {:induction false} QueryIsText(ps: seq<Param>)
    ensures Query(ps) == QueryText(ps)
    decreases |ps|
  {
    if ps != [] {
      assert Ascii("=") == [EQUALS] && Ascii("&") == [AMPERSAND];
      assert Texts(ps)[0] == ParamText(ps[0]);
      assert Texts(ps)[1..] == Texts(ps[1..]);
      QueryIsText(ps[1..]);
    }
  }

  /** The same in characters: path, `?`, and `key=value` pairs or bare keys with `&` between
      them; keys hold neither `&` nor `=`, values no `&`, bare keys are not empty. */
  lemma UriTextRoundTrip(before: Target, path: seq<Byte>, ps: seq<Param>)
    requires '?' as int !in path
    requires forall i | 0 <= i < |ps| :: '&' as int !in ps[i].key && '=' as int !in ps[i].key
    requires forall i | 0 <= i < |ps| :: if ps[i].Pair? then '&' as int !in ps[i].value else ps[i].key != []
    ensures Parsed(before, path + Ascii("?") + QueryText(ps)) == Target(path, QueryText(ps), Meaning(before.params, ps))
  {
    assert Ascii("?") == [QUESTION];
    assert forall i | 0 <= i < |ps| :: ps[i].Ok();
    QueryIsText(ps);
    UriRoundTrip(before, path, ps);
  }

  /** A list that names each key of a map once, with the map's value. */
  predicate Lists(ps: seq<Param>, m: Params) {
    && (forall i | 0 <= i < |ps| :: ps[i].key in m && m[ps[i].key] == ps[i].Value())
    && (forall k | k in m :: exists i :: 0 <= i < |ps| && ps[i].key == k)
  }

  lemma {:induction false} MeaningOfList(m0: Params, ps: seq<Param>, m: Params)
    requires forall i | 0 <= i < |ps| :: ps[i].key in m && m[ps[i].key] == ps[i].Value()
    requires forall k | k in m0 :: k in m && m[k] == m0[k]
    requires forall k | k in m :: k in m0 || exists i :: 0 <= i < |ps| && ps[i].key == k
    ensures Meaning(m0, ps) == m
    decreases |ps|
  {
    if ps != [] {
      var m1 := m0[ps[0].key := ps[0].Value()];
      forall k | k in m ensures k in m1 || exists i :: 0 <= i < |ps[1..]| && ps[1..][i].key == k {
        if k !in m0 && k != ps[0].key {
          var i :| 0 <= i < |ps| && ps[i].key == k;
          assert ps[1..][i - 1].key == k;
        }
      }
      MeaningOfList(m1, ps[1..], m);
    }
  }

  /** A parameter map survives being written in any order and parsed back. */
  lemma MapRoundTrip(before: Target, path: seq<Byte>, ps: seq<Param>, m: Params)
    requires QUESTION !in path && ParamsOk(ps) && Lists(ps, m) && before.params == map[]
    ensures Parsed(before, path + [QUESTION] + Query(ps)).params == m
  {
    UriRoundTrip(before, path, ps);
    MeaningOfList(map[], ps, m);
  }

  /** Path and query are cut at the first `?` and nothing else is lost. */
  lemma UriRebuilds(before: Target, uri: seq<Byte>)
    ensures var u := Parsed(before, uri);
            && QUESTION !in u.path
            && (if QUESTION in uri then u.path + [QUESTION] + u.query == uri
                else u.path == uri && u.query == before.query)
  {
    var i := Find(uri, QUESTION);
    FindIsFirst(uri, QUESTION);
    if i < |uri| {
      assert uri == uri[..i] + [QUESTION] + uri[i + 1..];
    } else {
      assert uri[..i] == uri;
    }
  }
}
