/** Bytes, the bit operations the C and C++ sources apply to them, and tribool. */
module Bytes {

  type Byte = x: int | 0 <= x < 256

  /** boost::tribool, the answer of an incremental parser. */
  datatype Tribool = Yes | No | Indeterminate

  datatype Option<+T> = None | Some(value: T)

  /** The bytes of a text. */
  function Ascii(s: string): seq<Byte>
    requires forall i | 0 <= i < |s| :: s[i] as int < 128
  {
    seq(|s|, i requires 0 <= i < |s| => s[i] as int)
  }

  /** The first position of `c`, or the length. */
  function Find(s: seq<Byte>, c: Byte): (i: nat)
    ensures i <= |s|
  {
    if s == [] || s[0] == c then 0 else Find(s[1..], c) + 1
  }

  lemma {:induction false} FindIsFirst(s: seq<Byte>, c: Byte)
    ensures var i := Find(s, c); (forall k | 0 <= k < i :: s[k] != c) && (i < |s| ==> s[i] == c)
    decreases |s|
  {
    if s != [] && s[0] != c {
      FindIsFirst(s[1..], c);
    }
  }

  lemma {:induction false} FindHits(s: seq<Byte>, c: Byte)
    ensures Find(s, c) < |s| ==> s[Find(s, c)] == c
    decreases |s|
  {
    if s != [] && s[0] != c {
      FindHits(s[1..], c);
    }
  }

  lemma FindUnique(s: seq<Byte>, c: Byte, i: nat)
    requires i <= |s| && (forall k | 0 <= k < i :: s[k] != c) && (i < |s| ==> s[i] == c)
    ensures Find(s, c) == i
  {
    FindIsFirst(s, c);
  }

  function Pow2(n: nat): (p: nat)
    ensures p > 0
  {
    if n == 0 then 1 else 2 * Pow2(n - 1)
  }

  /** Bitwise exclusive or of two non-negative integers. */
  function Xor(a: nat, b: nat): nat
    decreases a + b
  {
    if a == 0 && b == 0 then 0 else 2 * Xor(a / 2, b / 2) + (a + b) % 2
  }

  /** Bitwise inclusive or of two non-negative integers. */
  function Or(a: nat, b: nat): nat
    decreases a + b
  {
    if a == 0 && b == 0 then 0
    else 2 * Or(a / 2, b / 2) + (if a % 2 == 1 || b % 2 == 1 then 1 else 0)
  }

  lemma {:induction false} XorBound(a: nat, b: nat, n: nat)
    requires a < Pow2(n) && b < Pow2(n)
    ensures Xor(a, b) < Pow2(n)
    decreases n
  {
    if n > 0 {
      XorBound(a / 2, b / 2, n - 1);
    }
  }

  lemma XorHalf(a: nat, b: nat)
    ensures Xor(a, b) / 2 == Xor(a / 2, b / 2)
    ensures Xor(a, b) % 2 == (a + b) % 2
  {
  }

  /** The bit worth 2^k. */
  function Bit(a: nat, k: nat): nat
    decreases k
  {
    if k == 0 then a % 2 else Bit(a / 2, k - 1)
  }

  /** Bit by bit, exclusive or is addition without carry, */
  lemma {:induction false} XorBits(a: nat, b: nat, k: nat)
    ensures Bit(Xor(a, b), k) == (Bit(a, k) + Bit(b, k)) % 2
    decreases k
  {
    XorHalf(a, b);
    if k == 0 {
      ParityOfSum(a, b);
    } else {
      XorBits(a / 2, b / 2, k - 1);
    }
  }

  lemma ParityOfSum(a: nat, b: nat)
    ensures (a + b) % 2 == (a % 2 + b % 2) % 2
  {
  }

  lemma OrHalf(a: nat, b: nat)
    ensures Or(a, b) / 2 == Or(a / 2, b / 2)
    ensures Or(a, b) % 2 == if a % 2 == 1 || b % 2 == 1 then 1 else 0
  {
  }

  /** and inclusive or is the greater of the two. */
  lemma {:induction false} OrBits(a: nat, b: nat, k: nat)
    ensures Bit(Or(a, b), k) == if Bit(a, k) >= Bit(b, k) then Bit(a, k) else Bit(b, k)
    decreases k
  {
    OrHalf(a, b);
    if k > 0 {
      OrBits(a / 2, b / 2, k - 1);
    }
  }

  lemma XorParity(x: nat, a: nat, b: nat)
    requires x % 2 == (a + b) % 2
    ensures (x + b) % 2 == a % 2
  {
  }

  lemma SameHalves(a: nat, b: nat)
    requires a / 2 == b / 2 && a % 2 == b % 2
    ensures a == b
  {
  }

  /** Applying the same key twice gives back the original. */
  lemma {:induction false} XorInvolution(a: nat, b: nat)
    ensures Xor(Xor(a, b), b) == a
    decreases a + b
  {
    if a != 0 || b != 0 {
      var x := Xor(a, b);
      XorHalf(a, b);
      XorHalf(x, b);
      XorInvolution(a / 2, b / 2);
      XorParity(x, a, b);
      SameHalves(Xor(x, b), a);
    }
  }

  lemma {:induction false} XorCommutes(a: nat, b: nat)
    ensures Xor(a, b) == Xor(b, a)
    decreases a + b
  {
    if a != 0 || b != 0 {
      XorCommutes(a / 2, b / 2);
    }
  }

  function XorByte(a: Byte, b: Byte): Byte {
    assert Pow2(8) == 256 by { Pow2Of8(); }
    XorBound(a, b, 8);
    Xor(a, b)
  }

  lemma Pow2Of8()
    ensures Pow2(8) == 256
  {
    assert Pow2(4) == 16;
    assert Pow2(6) == 64;
  }

  /** A byte is fixed by its exclusive or with a known byte. */
  lemma XorByteCancels(a: Byte, b: Byte, k: Byte)
    requires XorByte(a, k) == XorByte(b, k)
    ensures a == b
  {
    XorInvolution(a, k);
    XorInvolution(b, k);
  }

  lemma {:induction false} OrZero(a: nat)
    ensures Or(a, 0) == a
  {
    if a != 0 {
      OrZero(a / 2);
    }
  }

  /** On operands whose bits do not overlap, bitwise or is addition. */
  lemma {:induction false} OrDisjoint(q: nat, m: nat, b: nat)
    requires b < Pow2(m)
    ensures Or(q * Pow2(m), b) == q * Pow2(m) + b
    decreases m
  {
    if m == 0 {
      OrZero(q);
    } else {
      var a := q * Pow2(m);
      assert a == 2 * (q * Pow2(m - 1));
      OrDisjoint(q, m - 1, b / 2);
    }
  }
}
