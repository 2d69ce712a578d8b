/** Machines that read a stream a byte at a time, as the read callbacks drive them. */
module Incremental {
  import opened Bytes

  /** What a `parse(begin, end)` loop leaves behind: the parser's memory, its
      answer, and how many bytes it took. */
  datatype Outcome<T> = Outcome(memory: T, result: Tribool, consumed: nat)

  /** Feed bytes to `step` until it answers or they run out. */
  function Parse<T>(step: (T, Byte) -> (T, Tribool), t: T, s: seq<Byte>): (o: Outcome<T>)
    ensures o.consumed <= |s|
    ensures o.result.Indeterminate? ==> o.consumed == |s|
    ensures s != [] ==> o.consumed > 0
  {
    if s == [] then Outcome(t, Indeterminate, 0)
    else
      var (t1, r) := step(t, s[0]);
      if r.Indeterminate? then
        var o := Parse(step, t1, s[1..]);
        o.(consumed := o.consumed + 1)
      else Outcome(t1, r, 1)
  }

  /** An undecided parse is continued by the next bytes; a decided one ignores them. */
  lemma {:induction false} ParseAppend<T>(step: (T, Byte) -> (T, Tribool), t: T, a: seq<Byte>, b: seq<Byte>)
    ensures var o := Parse(step, t, a);
            Parse(step, t, a + b) ==
              if o.result.Indeterminate?
              then var p := Parse(step, o.memory, b); p.(consumed := |a| + p.consumed)
              else o
  {
    if a == [] {
      assert a + b == b;
    } else {
      assert (a + b)[1..] == a[1..] + b;
      ParseAppend(step, step(t, a[0]).0, a[1..], b);
    }
  }

  /** The outcome on any input is the outcome on the bytes it consumed. */
  lemma AnswerIsOfThePrefix<T>(step: (T, Byte) -> (T, Tribool), t: T, s: seq<Byte>)
    ensures var o := Parse(step, t, s); Parse(step, t, s[..o.consumed]) == o
  {
    var o := Parse(step, t, s);
    var a := s[..o.consumed];
    assert a + s[o.consumed..] == s;
    ParseAppend(step, t, a, s[o.consumed..]);
    if Parse(step, t, a).result == Indeterminate && s[o.consumed..] == [] {
      assert a == s;
    }
  }

  /** `s` takes the machine from `t` to `u` without an answer. */
  ghost predicate Passes<T>(step: (T, Byte) -> (T, Tribool), t: T, s: seq<Byte>, u: T) {
    Parse(step, t, s) == Outcome(u, Indeterminate, |s|)
  }

  lemma Continue<T>(step: (T, Byte) -> (T, Tribool), t: T, a: seq<Byte>, u: T, b: seq<Byte>)
    requires Passes(step, t, a, u)
    ensures Parse(step, t, a + b) == (var o := Parse(step, u, b); o.(consumed := |a| + o.consumed))
  {
    ParseAppend(step, t, a, b);
  }

  lemma PassesAppend<T>(step: (T, Byte) -> (T, Tribool), t: T, a: seq<Byte>, u: T, b: seq<Byte>, v: T)
    requires Passes(step, t, a, u) && Passes(step, u, b, v)
    ensures Passes(step, t, a + b, v)
  {
    Continue(step, t, a, u, b);
  }

  /** Unfold a parse by one byte. */
  lemma FirstByte<T>(step: (T, Byte) -> (T, Tribool), t: T, s: seq<Byte>)
    requires s != []
    ensures Parse(step, t, s) ==
              (var (u, r) := step(t, s[0]);
               if r.Indeterminate? then var o := Parse(step, u, s[1..]); o.(consumed := 1 + o.consumed)
               else Outcome(u, r, 1))
  {
  }

  lemma OneByte<T>(step: (T, Byte) -> (T, Tribool), t: T, c: Byte)
    requires step(t, c).1.Indeterminate?
    ensures Passes(step, t, [c], step(t, c).0)
  {
    FirstByte(step, t, [c]);
    assert [c][1..] == [];
  }

  /** Run a machine that also emits outputs over a whole input. */
  function Run<S, I, O>(step: (S, I) -> (S, seq<O>), s: S, input: seq<I>): (S, seq<O>)
  {
    if input == [] then (s, [])
    else
      var (s1, o1) := step(s, input[0]);
      var (s2, o2) := Run(step, s1, input[1..]);
      (s2, o1 + o2)
  }

  /** Unfold a run by one input; a silent step adds nothing to the output. */
  lemma RunFirst<S, I, O>(step: (S, I) -> (S, seq<O>), s: S, input: seq<I>)
    requires input != []
    ensures var (s1, o1) := step(s, input[0]);
            var (s2, o2) := Run(step, s1, input[1..]);
            && Run(step, s, input) == (s2, o1 + o2)
            && (o1 == [] ==> o1 + o2 == o2)
            && (input[1..] == [] ==> Run(step, s, input) == (s1, o1))
  {
    var (s1, o1) := step(s, input[0]);
    assert o1 + [] == o1;
  }

  lemma {:induction false} RunAppend<S, I, O>(step: (S, I) -> (S, seq<O>), s: S, a: seq<I>, b: seq<I>)
    ensures var (s1, o1) := Run(step, s, a);
            var (s2, o2) := Run(step, s1, b);
            Run(step, s, a + b) == (s2, o1 + o2)
  {
    if a == [] {
      assert a + b == b;
      assert [] + Run(step, s, b).1 == Run(step, s, b).1;
    } else {
      assert (a + b)[1..] == a[1..] + b;
      var (s1, o1) := step(s, a[0]);
      RunAppend(step, s1, a[1..], b);
      var (t, p) := Run(step, s1, a[1..]);
      var (u, q) := Run(step, t, b);
      assert o1 + (p + q) == (o1 + p) + q;
    }
  }

  /** On a prefix of the input, a prefix of the output. */
  lemma RunPrefix<S, I, O>(step: (S, I) -> (S, seq<O>), s: S, a: seq<I>, b: seq<I>)
    requires a <= b
    ensures Run(step, s, a).1 <= Run(step, s, b).1
  {
    RunAppend(step, s, a, b[|a|..]);
    assert a + b[|a|..] == b;
  }

  lemma AppendAssociates<T>(a: seq<T>, b: seq<T>, c: seq<T>)
    ensures a + b + c == a + (b + c)
  {
  }

  lemma DropDrop<T>(s: seq<T>, m: nat, n: nat)
    requires m + n <= |s|
    ensures s[m..][n..] == s[m + n..]
  {
  }

  function Concat<T>(chunks: seq<seq<T>>): seq<T> {
    if chunks == [] then [] else chunks[0] + Concat(chunks[1..])
  }

  lemma ConcatOne<T>(s: seq<T>)
    ensures Concat([s]) == s
  {
    assert Concat([s][1..]) == [];
  }
}
