/** Collecting a request body of announced length from the reads that follow the request. */
module BodyCollector {
  import opened Bytes
  import opened Incremental

  /** `length` is the converted Content-Length header, negative when it did not convert. */
  datatype Collector = Collector(
    length: int,
    body: seq<Byte>,
    reading: bool,
    calls: seq<seq<Byte>>,
    badRequests: nat)

  function New(length: int): Collector {
    Collector(length, [], true, [], 0)
  }

  /** One read callback. */
  function HandleRead(c: Collector, chunk: seq<Byte>): Collector {
    if c.length < 0 then c.(reading := false, badRequests := c.badRequests + 1)
    else
      var body := c.body + chunk;
      if |body| >= c.length then c.(body := body, reading := false, calls := c.calls + [body[..c.length]])
      else c.(body := body, reading := true)
  }

  /** Callbacks as long as a read is requested; also how many chunks were read. */
  function Feed(c: Collector, chunks: seq<seq<Byte>>): (Collector, nat)
    decreases |chunks|
  {
    if chunks == [] || !c.reading then (c, 0)
    else
      var (d, k) := Feed(HandleRead(c, chunks[0]), chunks[1..]);
      (d, k + 1)
  }

  lemma {:induction false} FeedCollects(c: Collector, chunks: seq<seq<Byte>>)
    requires c.reading && c.length >= 0 && c.calls == [] && (|c.body| < c.length || c.body == [])
    ensures var (d, k) := Feed(c, chunks);
            && k <= |chunks| && d.badRequests == c.badRequests
            && if chunks != [] && |c.body + Concat(chunks)| >= c.length
               then
                 && d.calls == [(c.body + Concat(chunks))[..c.length]] && !d.reading && k > 0
                 && |c.body + Concat(chunks[..k])| >= c.length
                 && (k > 1 ==> |c.body + Concat(chunks[..k - 1])| < c.length)
               else d.calls == [] && d.reading && k == |chunks|
    decreases |chunks|
  {
    if chunks != [] {
      var c1 := HandleRead(c, chunks[0]);
      var rest := chunks[1..];
      assert c.body + (chunks[0] + Concat(rest)) == c.body + chunks[0] + Concat(rest);
      assert chunks[..1][1..] == [];
      ConcatOne(chunks[0]);
      assert chunks[..1] == [chunks[0]];
      if c1.reading {
        FeedCollects(c1, rest);
        var k := Feed(c1, rest).1;
        PrefixConcat(chunks, k + 1);
        PrefixConcat(chunks, k);
        if rest == [] {
          assert Concat(rest) == [];
        }
      } else {
        assert (c.body + Concat(chunks))[..c.length] == c1.body[..c.length];
      }
    }
  }

  lemma PrefixConcat(chunks: seq<seq<Byte>>, k: nat)
    requires k <= |chunks| && chunks != []
    ensures k > 0 ==> Concat(chunks[..k]) == chunks[0] + Concat(chunks[1..][..k - 1])
  {
    if k > 0 {
      assert chunks[..k][1..] == chunks[1..][..k - 1];
    }
  }

  /** For an announced length and any chunking: the handler is called exactly once, at
      the first read by which that many bytes have arrived, with exactly the first that
      many bytes of the stream; no read is requested afterwards. */
  lemma BodyCollectedOnce(length: nat, chunks: seq<seq<Byte>>)
    ensures var (d, k) := Feed(New(length), chunks);
            if chunks != [] && |Concat(chunks)| >= length
            then
              && d.calls == [Concat(chunks)[..length]] && !d.reading && 0 < k <= |chunks|
              && |Concat(chunks[..k])| >= length && (k > 1 ==> |Concat(chunks[..k - 1])| < length)
            else d.calls == [] && d.reading
  {
    FeedCollects(New(length), chunks);
    var k := Feed(New(length), chunks).1;
    assert [] + Concat(chunks) == Concat(chunks);
    assert [] + Concat(chunks[..k]) == Concat(chunks[..k]);
    if k > 1 {
      assert [] + Concat(chunks[..k - 1]) == Concat(chunks[..k - 1]);
    }
  }

  /** Without a usable length: the first read is answered with a bad request, the handler is
      never called, and no further read is requested, whatever follows. */
  lemma NoLengthIsRefused(length: int, chunks: seq<seq<Byte>>)
    requires length < 0
    ensures var (d, k) := Feed(New(length), chunks);
            && d.calls == [] && d.body == []
            && (if chunks == [] then k == 0 && d.badRequests == 0 && d.reading
                else k == 1 && d.badRequests == 1 && !d.reading)
  {
    if chunks != [] {
      var c := HandleRead(New(length), chunks[0]);
      assert Feed(c, chunks[1..]) == (c, 0);
    }
  }

  class BodyCollectingConnection {
    const length: int
    var bodyStream: seq<Byte>
    var receivedLength: nat
    var reading: bool
    var calls: seq<seq<Byte>>
    var badRequests: nat

    constructor (length: int)
      ensures Valid() && View() == New(length)
    {
      this.length := length;
      bodyStream, receivedLength, reading, calls, badRequests := [], 0, true, [], 0;
    }

    predicate Valid()
      reads this
    {
      receivedLength == |bodyStream|
    }

    function View(): Collector
      reads this
    {
      Collector(length, bodyStream, reading, calls, badRequests)
    }

    method HandleReadChunk(chunk: seq<Byte>)
      requires Valid() && reading
      modifies this
      ensures Valid() && View() == HandleRead(old(View()), chunk)
    {
      reading := false;
      if length < 0 {
        badRequests := badRequests + 1;
        return;
      }
      bodyStream := bodyStream + chunk;
      receivedLength := receivedLength + |chunk|;
      if receivedLength >= length {
        calls := calls + [bodyStream[..length]];
      } else {
        reading := true;
      }
    }
  }
}
