/** Decimal fields of the drive board's packets: written digit by digit in place, and
    read back by a scan of the packet. */
module SerialFields {
  import opened Bytes
  import opened Decimals
  import opened Incremental
  import opened SerialLink

  /** The 32-bit integers but the smallest, which has no negative. */
  predicate InIntRange(n: int) { -0x7FFF_FFFF <= n <= 0x7FFF_FFFF }

  function Magnitude(n: int): nat { if n < 0 then -n else n }

  function Magnitudes(ns: seq<int>): seq<int> {
    seq(|ns|, i requires 0 <= i < |ns| => Magnitude(ns[i]))
  }

  /** The text of a field: a minus sign, then the numeral of the magnitude. */
  function FieldText(n: int): seq<Byte> {
    Sign(n) + Decimal(Magnitude(n))
  }

  function Sign(n: int): seq<Byte> {
    if n < 0 then [MINUS] else []
  }

  /** A field starts with a minus sign if and only if its number is negative. */
  lemma SignedExactly(n: int)
    ensures FieldText(n) != [] && (FieldText(n)[0] == '-' as int <==> n < 0)
  {
  }

  /** unsigned long and unsigned int wrap around. */
  const ULONG: nat := 0x1_0000_0000_0000_0000
  const UINT: nat := 0x1_0000_0000

  type UInt = x: int | 0 <= x < UINT

  function Pow(b: int, n: nat): int {
    if n == 0 then 1 else b * Pow(b, n - 1)
  }

  lemma {:induction false} PowOfTen(n: nat)
    ensures Pow(10, n) == Pow10(n)
  {
    if n > 0 {
      PowOfTen(n - 1);
    }
  }

  lemma {:induction false} Pow10Grows(m: nat, n: nat)
    requires m <= n
    ensures Pow10(m) <= Pow10(n)
    decreases n - m
  {
    if m < n {
      Pow10Grows(m + 1, n);
    }
  }

  lemma ModShift(a: int, t: int, m: nat)
    requires m > 0
    ensures (a + m * t) % m == a % m
  {
    var q, r := a / m, a % m;
    Divided(q, t, m);
    assert a + m * t == m * (q + t) + r;
    Remainder(q + t, r, m);
  }

  lemma Divided(q: int, t: int, m: int)
    ensures m * q + m * t == m * (q + t)
  {
  }

  lemma Remainder(q: int, r: int, m: nat)
    requires 0 <= r < m
    ensures (m * q + r) % m == r
  {
    var x := m * q + r;
    var q', r' := x / m, x % m;
    assert m * (q' - q) == r - r' by { Divided(q' - q, q, m); }
    if q' > q {
      AtLeastOnce(m, q' - q);
    } else if q' < q {
      AtLeastOnce(m, q - q');
    }
  }

  lemma AtLeastOnce(m: nat, n: nat)
    requires n > 0
    ensures m * n >= m
  {
  }

  /** A sum may be reduced before the last term is added, */
  lemma ModAdd(x: int, y: int, m: nat)
    requires m > 0
    ensures (x % m + y) % m == (x + y) % m
  {
    ModShift(x % m + y, x / m, m);
    assert x == m * (x / m) + x % m;
  }

  /** and a product before the last factor. */
  lemma ModMul(x: int, y: int, m: nat)
    requires m > 0
    ensures (x % m * y) % m == (x * y) % m
  {
    var q, r := x / m, x % m;
    Factored(x, m, q, r, y);
    ModShift(r * y, q * y, m);
  }

  lemma Factored(x: int, m: int, q: int, r: int, y: int)
    requires x == m * q + r
    ensures x * y == r * y + m * (q * y)
  {
    assert x * y == m * q * y + r * y;
    Regroup(m, q, y);
  }

  lemma Regroup(m: int, q: int, y: int)
    ensures m * q * y == m * (q * y)
  {
  }

  /** `mypow`, for any base and exponent. */
  method MyPow(i: int, j: nat) returns (result: nat)
    ensures result == Pow(i, j) % 0x1_0000_0000_0000_0000
    ensures i == 10 && j < 10 ==> result == Pow10(j)
  {
    result := 1;
    for k := 0 to j
      invariant result == Pow(i, k) % ULONG
    {
      ModMul(Pow(i, k), i, ULONG);
      Commutes(i, Pow(i, k));
      result := result * i % ULONG;
    }
    if i == 10 && j < 10 {
      TenFits(j);
    }
  }

  lemma Commutes(a: int, b: int)
    ensures a * b == b * a
  {
  }

  lemma TenFits(j: nat)
    requires j < 10
    ensures Pow(10, j) % ULONG == Pow10(j)
  {
    PowOfTen(j);
    Pow10Grows(j, 10);
    Pow10Values();
  }

  lemma {:induction false} DecimalLength(n: nat, k: nat)
    requires n < Pow10(k) && k > 0
    ensures |Decimal(n)| <= k
    decreases k
  {
    if n >= 10 {
      DecimalLength(n / 10, k - 1);
    }
  }

  lemma Pow10Values()
    ensures Pow10(10) == 10_000_000_000
  {
    assert Pow10(5) == 100_000;
    assert Pow10(8) == 100_000_000;
  }

  lemma Quotient(n: nat, p: nat, j: nat)
    requires p > 0 && j == n / p
    ensures j * p <= n < j * p + p
  {
    assert n == j * p + n % p;
  }

  lemma AtMostNine(n: nat, p: nat, j: nat)
    requires j * p <= n < 10 * p
    ensures j < 10
  {
    if j >= 10 {
      MulAtLeast(j, 10, p);
    }
  }

  lemma MulAtLeast(a: nat, b: nat, p: nat)
    requires a >= b
    ensures a * p >= b * p
  {
  }

  /** `q` moved up by `k` places. */
  function Shifted(q: nat, k: nat): nat
    decreases k
  {
    if k == 0 then q else Shifted(10 * q, k - 1)
  }

  lemma {:induction false} ShiftedAdd(q: nat, j: nat, k: nat)
    ensures Shifted(q + j, k) == Shifted(q, k) + j * Pow10(k)
    decreases k
  {
    if k > 0 {
      ShiftedAdd(10 * q, 10 * j, k - 1);
      TenTimes(j, Pow10(k - 1));
    }
  }

  lemma TenTimes(j: nat, p: nat)
    ensures 10 * j * p == j * (10 * p)
  {
  }

  /** `q` is the number of the leading digits of `m`, and `num` the `k` places below them. */
  predicate Splits(m: nat, q: nat, num: int, k: nat) {
    0 <= num < Pow10(k) && m == Shifted(q, k) + num
  }

  /** One digit moves from the remainder to the leading part. */
  lemma DigitStep(m: nat, q: nat, num: int, k: nat, p: nat, j: nat)
    requires Splits(m, q, num, k + 1) && p == Pow10(k) && j * p <= num < j * p + p
    ensures j < 10 && Splits(m, 10 * q + j, num - j * p, k)
  {
    AtMostNine(num, p, j);
    ShiftedAdd(10 * q, j, k);
  }

  lemma Reassociate(q: int, j: int, p: int)
    ensures q * (10 * p) + j * p == (q * 10 + j) * p
  {
  }

  lemma TakeStep(m: nat, q: nat, num: int, k: nat, p: nat, j: int)
    requires Splits(m, q, num, k + 1) && p == Pow10(k) && j == num / p
    ensures 0 <= j < 10 && Splits(m, 10 * q + j, num - j * p, k)
  {
    Quotient(num, p, j);
    DigitStep(m, q, num, k, p, j);
  }

  /** The digit at the place worth `p`, and what is left below it. */
  method TakeDigit(num: int, p: nat, ghost m: nat, ghost q: nat, ghost k: nat) returns (j: nat, rest: int)
    requires p == Pow10(k) && Splits(m, q, num, k + 1)
    ensures j < 10 && Splits(m, 10 * q + j, rest, k)
  {
    TakeStep(m, q, num, k, p, num / p);
    j := num / p;
    rest := num - j * p;
  }

  /** Digits already written for the leading part `q` of a number. */
  function Leading(q: nat): seq<Byte> {
    if q == 0 then [] else Decimal(q)
  }

  lemma LeadingStep(q: nat, j: nat)
    requires j < 10
    ensures Leading(10 * q + j) == if j > 0 || q > 0 then Leading(q) + [ZERO + j] else []
  {
    assert q > 0 ==> (10 * q + j) / 10 == q && (10 * q + j) % 10 == j;
  }

  method PutByte(packet: array<Byte>, index: nat, b: Byte) returns (next: nat)
    requires index < packet.Length
    modifies packet
    ensures next == index + 1 && packet[..next] == old(packet[..index]) + [b] && packet[index] == b
  {
    packet[index] := b;
    next := index + 1;
    assert packet[..next] == packet[..index] + [b];
  }

  /** What the digit loop keeps after the places above `k`: the leading digits are written. */
  ghost predicate Written(data: array<Byte>, before: seq<Byte>, start: nat, index: nat, q: nat)
    reads data
  {
    && index == start + |Leading(q)| && index <= data.Length && start < data.Length
    && data[..index] == before + Leading(q)
    && (q == 0 ==> data[start] == ZERO)
  }

  /** One digit of the loop; leading zeros are not written. */
  method PutDigit(data: array<Byte>, ghost before: seq<Byte>, ghost start: nat, index: nat,
                  ghost q: nat, j: nat, flag: bool)
    returns (next: nat, flag': bool)
    requires Written(data, before, start, index, q) && index < data.Length && j < 10 && (flag <==> q > 0)
    modifies data
    ensures Written(data, before, start, next, 10 * q + j) && (flag' <==> 10 * q + j > 0) && next <= index + 1
  {
    LeadingStep(q, j);
    if j > 0 || flag {
      next := PutByte(data, index, ZERO + j);
      flag' := true;
      assert before + Leading(q) + [ZERO + j] == before + (Leading(q) + [ZERO + j]);
    } else {
      next, flag' := index, flag;
    }
  }

  /** What the digit loop keeps, `k` places before its end. */
  ghost predicate DigitLoop(data: array<Byte>, before: seq<Byte>, start: nat, index: nat,
                            m: nat, q: nat, num: int, k: nat, flag: bool)
    reads data
  {
    && Splits(m, q, num, k) && Written(data, before, start, index, q)
    && index + k <= start + 10 <= data.Length && (flag <==> q > 0)
  }

  /** One turn of the digit loop. */
  method DigitTurn(data: array<Byte>, ghost before: seq<Byte>, ghost start: nat, index: nat,
                   ghost m: nat, ghost q: nat, num: int, i: nat, flag: bool)
    returns (next: nat, rest: int, flag': bool, ghost q': nat)
    requires i < 10 && DigitLoop(data, before, start, index, m, q, num, i + 1, flag)
    modifies data
    ensures DigitLoop(data, before, start, next, m, q', rest, i, flag')
  {
    var p := MyPow(10, i);
    var j;
    j, rest := TakeDigit(num, p, m, q, i);
    next, flag' := PutDigit(data, before, start, index, q, j, flag);
    q' := 10 * q + j;
  }

  /** The digit loop of `int2str`: writes the digits of `m` behind what is there. */
  method PutDigits(data: array<Byte>, start: nat, m: nat) returns (index: nat)
    requires start + 10 <= data.Length && m < Pow10(10) && data[start] == ZERO
    modifies data
    ensures Written(data, old(data[..start]), start, index, m) && index <= start + 10
  {
    ghost var before := data[..start];
    var num: int, flag := m, false;
    index := start;
    ghost var q: nat := 0;
    NothingYet(before, m);
    var i := 9;
    while i >= 0
      invariant -1 <= i <= 9 && DigitLoop(data, before, start, index, m, q, num, i + 1, flag)
    {
      index, num, flag, q := DigitTurn(data, before, start, index, m, q, num, i, flag);
      i := i - 1;
    }
    NothingLeft(m, q, num);
  }

  lemma {:induction false} ShiftedZero(k: nat)
    ensures Shifted(0, k) == 0
  {
    if k > 0 {
      ShiftedZero(k - 1);
    }
  }

  lemma NothingYet(before: seq<Byte>, m: nat)
    requires m < Pow10(10)
    ensures Splits(m, 0, m, 10) && before + Leading(0) == before
  {
    ShiftedZero(10);
  }

  lemma NothingLeft(m: nat, q: nat, num: int)
    requires Splits(m, q, num, 0)
    ensures q == m
  {
  }

  method PutSign(data: array<Byte>, at: nat, number: int) returns (index: nat, num: nat)
    requires at < data.Length
    modifies data
    ensures index == at + |Sign(number)| && num == Magnitude(number)
    ensures data[..index] == old(data[..at]) + Sign(number)
  {
    index := at;
    if number < 0 {
      index := PutByte(data, at, MINUS);
      num := -1 * number;
    } else {
      num := number;
    }
  }

  method PutZero(data: array<Byte>, index: nat)
    requires index < data.Length
    modifies data
    ensures data[..index] == old(data[..index]) && data[index] == ZERO
  {
    data[index] := ZERO;
  }

  /** `int2str` at position `at` of the buffer. Zero leaves a digit but counts none. */
  method Int2Str(data: array<Byte>, at: nat, number: int) returns (n: nat)
    requires at + 11 <= data.Length && InIntRange(number)
    modifies data
    ensures n == (if number == 0 then 0 else |FieldText(number)|) && n <= 11
    ensures number != 0 ==> data[..at + n] == old(data[..at]) + FieldText(number)
    ensures number == 0 ==> data[..at] == old(data[..at]) && data[at] == '0' as int
    ensures number != 0 ==> n > 0 && (data[at] == '-' as int <==> number < 0)
  {
    ghost var before := data[..at];
    var index, num := PutSign(data, at, number);
    PutZero(data, index);
    Pow10Values();
    var end := PutDigits(data, index, num);
    n := end - at;
    SignAndDigits(before, number);
    if number != 0 {
      SignedExactly(number);
      assert data[at] == data[..at + n][at];
    }
  }

  lemma SignAndDigits(before: seq<Byte>, number: int)
    ensures number != 0 ==>
      before + Sign(number) + Leading(Magnitude(number)) == before + FieldText(number)
    ensures number == 0 ==> before + Sign(number) + Leading(Magnitude(number)) == before
  {
  }

  /** A field and the caller's correction for zero; returns the position behind it. */
  method PutField(packet: array<Byte>, index: nat, number: int) returns (next: nat)
    requires index + 11 <= packet.Length && InIntRange(number)
    modifies packet
    ensures next <= index + 11 && packet[..next] == old(packet[..index]) + FieldText(number)
  {
    var ret := Int2Str(packet, index, number);
    if number == 0 {
      ret := 1;
      assert packet[..index + 1] == packet[..index] + [ZERO];
    }
    next := index + ret;
  }

  // ---------------------------------------------------------------- packets

  function Fields(ns: seq<int>): seq<Byte>
    requires ns != []
  {
    if |ns| == 1 then FieldText(ns[0]) else FieldText(ns[0]) + [SEMICOLON] + Fields(ns[1..])
  }

  /** STX, a two-letter command, the fields, ETX, and the checksum of all but the STX. */
  function Packet(a: Byte, b: Byte, ns: seq<int>): seq<Byte>
    requires ns != []
  {
    var body := [a, b] + Fields(ns) + [ETX];
    [STX] + body + [Lrc(body)]
  }

  /** ETX and the checksum that close a packet. */
  method Close(packet: array<Byte>, index: nat, ghost body: seq<Byte>) returns (next: nat)
    requires index + 2 <= packet.Length && packet[..index] == [STX] + body
    modifies packet
    ensures next == index + 2 && packet[..next] == [STX] + (body + [ETX]) + [Lrc(body + [ETX])]
  {
    var i := PutByte(packet, index, ETX);
    assert packet[..i] == [STX] + (body + [ETX]);
    var lrc := MakeLrc(packet, 1, i - 1);
    assert packet[1..1 + (i - 1)] == packet[..i][1..] == body + [ETX];
    next := PutByte(packet, i, lrc);
  }

  lemma Assoc3(h: seq<Byte>, x: seq<Byte>, y: seq<Byte>, z: seq<Byte>, c: Byte)
    ensures h + x + [c] + y + [c] + z == h + (x + [c] + (y + [c] + z))
    ensures h + x + [c] + y == h + (x + [c] + y)
  {
  }

  lemma TwoFields(x: int, y: int)
    ensures Fields([x, y]) == FieldText(x) + [SEMICOLON] + FieldText(y)
  {
    assert [x, y][1..] == [y];
  }

  lemma ThreeFields(x: int, y: int, z: int)
    ensures Fields([x, y, z]) == FieldText(x) + [SEMICOLON] + (FieldText(y) + [SEMICOLON] + FieldText(z))
  {
    TwoFields(y, z);
    assert [x, y, z][1..] == [y, z];
  }

  method Open(packet: array<Byte>, a: Byte, b: Byte) returns (index: nat)
    requires packet.Length >= 3
    modifies packet
    ensures index == 3 && packet[..index] == [STX, a, b]
  {
    packet[0], packet[1], packet[2] := STX, a, b;
    index := 3;
  }

  lemma OpenedBody(a: Byte, b: Byte, s: seq<Byte>)
    ensures [STX, a, b] + s == [STX] + ([a, b] + s)
  {
  }

  // ---------------------------------------------------------------- reading fields

  /** The digits of each field up to the first ETX; other bytes are skipped. */
  function Collect(s: seq<Byte>, digits: seq<Byte>): (r: seq<seq<Byte>>)
    requires ETX in s
    decreases |s|
  {
    var c := s[0];
    if c == ETX then [digits]
    else if IsDigit(c) then Collect(s[1..], digits + [c])
    else if c == SEMICOLON then [digits] + Collect(s[1..], [])
    else Collect(s[1..], digits)
  }

  /** The digit buffer of the scan holds ten digits. */
  predicate ShortFields(s: seq<Byte>)
    requires ETX in s
  {
    forall f | f in Collect(s, []) :: |f| <= 10
  }

  function Values(fs: seq<seq<Byte>>): seq<int> {
    seq(|fs|, i requires 0 <= i < |fs| => DigitsValue(fs[i]))
  }

  lemma {:induction false} CollectDigits(digits: seq<Byte>, d: seq<Byte>, rest: seq<Byte>)
    requires Digits(d) && ETX in rest
    ensures Collect(d + rest, digits) == Collect(rest, digits + d)
    decreases |d|
  {
    if d == [] {
      assert d + rest == rest && digits + d == digits;
    } else {
      assert (d + rest)[1..] == d[1..] + rest;
      CollectDigits(digits + [d[0]], d[1..], rest);
      assert digits + [d[0]] + d[1..] == digits + d;
    }
  }

  /** A field's text is read as the digits of its magnitude: a sign is skipped. */
  lemma CollectField(n: int, rest: seq<Byte>)
    requires ETX in rest
    ensures ETX in FieldText(n) + rest
    ensures Collect(FieldText(n) + rest, []) == Collect(rest, Decimal(Magnitude(n)))
  {
    var d := Decimal(Magnitude(n));
    assert [] + d == d;
    CollectDigits([], d, rest);
    if n < 0 {
      CollectSkip(MINUS, d + rest);
    }
    SignInFront(d, rest);
  }

  lemma SignInFront(d: seq<Byte>, rest: seq<Byte>)
    ensures [MINUS] + d + rest == [MINUS] + (d + rest)
    ensures [] + d + rest == d + rest
  {
  }

  predicate Skipped(c: Byte) { !IsDigit(c) && c != ETX && c != SEMICOLON }

  lemma CollectSkip(c: Byte, s: seq<Byte>)
    requires Skipped(c) && ETX in s
    ensures ETX in [c] + s && Collect([c] + s, []) == Collect(s, [])
  {
    assert ([c] + s)[1..] == s;
  }

  function Numerals(ns: seq<int>): seq<seq<Byte>> {
    seq(|ns|, i requires 0 <= i < |ns| => Decimal(Magnitude(ns[i])))
  }

  lemma CollectMore(n: int, more: seq<Byte>)
    requires ETX in more
    ensures ETX in FieldText(n) + [SEMICOLON] + more
    ensures Collect(FieldText(n) + [SEMICOLON] + more, []) == [Decimal(Magnitude(n))] + Collect(more, [])
  {
    CollectField(n, [SEMICOLON] + more);
    CollectSeparator(FieldText(n), Decimal(Magnitude(n)), more);
  }

  lemma CollectSeparator(text: seq<Byte>, digits: seq<Byte>, more: seq<Byte>)
    requires ETX in more && ETX in text + ([SEMICOLON] + more)
    requires Collect(text + ([SEMICOLON] + more), []) == Collect([SEMICOLON] + more, digits)
    ensures ETX in text + [SEMICOLON] + more
    ensures Collect(text + [SEMICOLON] + more, []) == [digits] + Collect(more, [])
  {
    AppendAssociates(text, [SEMICOLON], more);
    assert ([SEMICOLON] + more)[1..] == more;
  }

  lemma CollectLast(n: int, lrc: seq<Byte>)
    ensures ETX in FieldText(n) + [ETX] + lrc
    ensures Collect(FieldText(n) + [ETX] + lrc, []) == [Decimal(Magnitude(n))]
  {
    CollectField(n, [ETX] + lrc);
    assert FieldText(n) + ([ETX] + lrc) == FieldText(n) + [ETX] + lrc;
  }

  lemma {:induction false} CollectFields(ns: seq<int>, lrc: seq<Byte>)
    requires ns != []
    ensures Collect(Fields(ns) + [ETX] + lrc, []) == Numerals(ns)
    decreases |ns|
  {
    if |ns| == 1 {
      CollectLast(ns[0], lrc);
    } else {
      CollectFields(ns[1..], lrc);
      CollectMore(ns[0], Fields(ns[1..]) + [ETX] + lrc);
      FieldsTail(FieldText(ns[0]) + [SEMICOLON], Fields(ns[1..]), lrc);
      assert Numerals(ns) == [Decimal(Magnitude(ns[0]))] + Numerals(ns[1..]);
    }
  }

  lemma FieldsTail(a: seq<Byte>, b: seq<Byte>, lrc: seq<Byte>)
    ensures a + (b + [ETX] + lrc) == a + b + [ETX] + lrc
  {
  }

  lemma CollectSkips(a: Byte, b: Byte, s: seq<Byte>)
    requires Skipped(a) && Skipped(b) && ETX in s
    ensures ETX in [STX, a, b] + s && Collect([STX, a, b] + s, []) == Collect(s, [])
  {
    CollectSkip(b, s);
    CollectSkip(a, [b] + s);
    CollectSkip(STX, [a] + ([b] + s));
    assert [STX] + ([a] + ([b] + s)) == [STX, a, b] + s;
  }

  lemma PacketText(a: Byte, b: Byte, ns: seq<int>, rest: seq<Byte>)
    requires ns != []
    ensures Packet(a, b, ns) + rest
         == [STX, a, b] + (Fields(ns) + [ETX] + ([Lrc([a, b] + Fields(ns) + [ETX])] + rest))
  {
  }

  lemma PacketCollected(a: Byte, b: Byte, ns: seq<int>, rest: seq<Byte>)
    requires ns != [] && Skipped(a) && Skipped(b)
    ensures var s := Packet(a, b, ns) + rest; ETX in s && Collect(s, []) == Numerals(ns)
  {
    var lrc := [Lrc([a, b] + Fields(ns) + [ETX])] + rest;
    PacketText(a, b, ns, rest);
    CollectFields(ns, lrc);
    CollectSkips(a, b, Fields(ns) + [ETX] + lrc);
  }

  /** The numeral of a number in range has at most ten digits and is worth its magnitude. */
  lemma NumeralIs(n: int)
    requires InIntRange(n)
    ensures |Decimal(Magnitude(n))| <= 10 && DigitsValue(Decimal(Magnitude(n))) == Magnitude(n) < UINT
  {
    Pow10Values();
    DecimalLength(Magnitude(n), 10);
    DecimalValue(Magnitude(n));
  }

  /** Scanning a buffer that holds a packet, whatever is behind it, finds one numeral per
      field: canonical, at most ten digits, and worth the field's magnitude. */
  lemma PacketRoundTrip(a: Byte, b: Byte, ns: seq<int>, rest: seq<Byte>)
    requires ns != [] && (forall n | n in ns :: InIntRange(n)) && Skipped(a) && Skipped(b)
    ensures var s := Packet(a, b, ns) + rest;
            && ETX in s && Collect(s, []) == Numerals(ns) && ShortFields(s)
            && Values(Collect(s, [])) == Magnitudes(ns)
  {
    PacketCollected(a, b, ns, rest);
    forall i | 0 <= i < |ns|
      ensures |Numerals(ns)[i]| <= 10 && DigitsValue(Numerals(ns)[i]) == Magnitude(ns[i])
    {
      assert ns[i] in ns;
      NumeralIs(ns[i]);
    }
  }

  // ---------------------------------------------------------------- what the board reads

  /** A reader of signed decimal numbers with semicolons between them, in characters: it has
      read `magnitude` of the number under way, with or without a minus sign before it. */
  function Numbers(s: seq<Byte>, negative: bool, magnitude: int): seq<int>
    decreases |s|
  {
    if s == [] then []
    else if s[0] == '-' as int then Numbers(s[1..], true, magnitude)
    else if '0' as int <= s[0] <= '9' as int then Numbers(s[1..], negative, 10 * magnitude + s[0] - '0' as int)
    else
      var n := if negative then -magnitude else magnitude;
      if s[0] == ';' as int then [n] + Numbers(s[1..], false, 0) else [n]
  }

  lemma {:induction false} NumbersDigits(d: seq<Byte>, digits: seq<Byte>, rest: seq<Byte>, negative: bool)
    requires Digits(d)
    ensures Numbers(d + rest, negative, DigitsValue(digits)) == Numbers(rest, negative, DigitsValue(digits + d))
    decreases |d|
  {
    if d == [] {
      assert d + rest == rest && digits + d == digits;
    } else {
      assert (d + rest)[1..] == d[1..] + rest;
      PushDigit(digits, d[0]);
      NumbersDigits(d[1..], digits + [d[0]], rest, negative);
      assert digits + [d[0]] + d[1..] == digits + d;
    }
  }

  /** A field carries its sign and its magnitude. */
  lemma NumbersField(n: int, rest: seq<Byte>)
    ensures Numbers(FieldText(n) + rest, false, 0) == Numbers(rest, n < 0, Magnitude(n))
  {
    var d := Decimal(Magnitude(n));
    NumbersDigits(d, [], rest, n < 0);
    assert [] + d == d;
    DecimalValue(Magnitude(n));
    SignInFront(d, rest);
    if n < 0 {
      assert ([MINUS] + (d + rest))[1..] == d + rest;
    }
  }

  lemma {:induction false} NumbersFields(ns: seq<int>, rest: seq<Byte>)
    requires ns != []
    ensures Numbers(Fields(ns) + ([ETX] + rest), false, 0) == ns
    decreases |ns|
  {
    var end := [ETX] + rest;
    assert end[0] == ETX;
    if |ns| == 1 {
      NumbersField(ns[0], end);
      SignedBack(ns[0]);
    } else {
      var more := Fields(ns[1..]) + end;
      NumbersFields(ns[1..], rest);
      NumbersField(ns[0], [SEMICOLON] + more);
      SignedBack(ns[0]);
      NumbersSemicolon(more, ns[0]);
      Reassociated(FieldText(ns[0]), Fields(ns[1..]), end);
      assert ns == [ns[0]] + ns[1..];
    }
  }

  lemma SignedBack(n: int)
    ensures var m: int := Magnitude(n); (if n < 0 then -m else m) == n
  {
  }

  lemma NumbersSemicolon(more: seq<Byte>, n: int)
    ensures Numbers([SEMICOLON] + more, n < 0, Magnitude(n)) == [n] + Numbers(more, false, 0)
  {
    assert ([SEMICOLON] + more)[1..] == more;
  }

  lemma Reassociated(a: seq<Byte>, b: seq<Byte>, c: seq<Byte>)
    ensures a + [SEMICOLON] + b + c == a + ([SEMICOLON] + (b + c))
  {
  }

  /** STX, the two letters of the command, and then numbers that a reader of signed decimals
      gets back exactly, whatever stands behind the packet. */
  lemma PacketCarries(a: Byte, b: Byte, ns: seq<int>, rest: seq<Byte>)
    requires ns != []
    ensures var s := Packet(a, b, ns) + rest;
            |s| >= 3 && s[..3] == [0x02, a, b] && Numbers(s[3..], false, 0) == ns
  {
    var lrc := [Lrc([a, b] + Fields(ns) + [ETX])] + rest;
    PacketText(a, b, ns, rest);
    BehindCommand([STX, a, b], Fields(ns), lrc);
    NumbersFields(ns, lrc);
  }

  lemma BehindCommand(command: seq<Byte>, fields: seq<Byte>, lrc: seq<Byte>)
    requires |command| == 3
    ensures var s := command + (fields + [ETX] + lrc);
            s[..3] == command && s[3..] == fields + ([ETX] + lrc)
  {
  }

  lemma CarriedBy(s: seq<Byte>, a: Byte, b: Byte, ns: seq<int>)
    requires ns != [] && s == Packet(a, b, ns)
    ensures |s| >= 3 && s[..3] == [0x02, a, b] && Numbers(s[3..], false, 0) == ns
  {
    PacketCarries(a, b, ns, []);
    assert s + [] == s;
  }

  /** Two packets are equal only if they carry the same numbers. */
  lemma PacketDetermines(a: Byte, b: Byte, ms: seq<int>, ns: seq<int>)
    requires ms != [] && ns != [] && Packet(a, b, ms) == Packet(a, b, ns)
    ensures ms == ns
  {
    PacketCarries(a, b, ms, []);
    PacketCarries(a, b, ns, []);
  }

  /** A packet closes with ETX and the checksum of what is between STX and it. */
  lemma PacketCloses(a: Byte, b: Byte, ns: seq<int>)
    requires ns != []
    ensures var p := Packet(a, b, ns);
            |p| >= 5 && p[|p| - 2] == 0x03 && p[|p| - 1] == Lrc(p[1..|p| - 1]) && Lrc(p[1..]) == 0
  {
    var body := [a, b] + Fields(ns) + [ETX];
    var p := Packet(a, b, ns);
    assert p[1..|p| - 1] == body && p[1..] == body + [Lrc(body)];
    LrcCloses(body);
  }

  // ---------------------------------------------------------------- the scan

  lemma {:induction false} CollectLonger(s: seq<Byte>, digits: seq<Byte>)
    requires ETX in s
    ensures var fs := Collect(s, digits); fs != [] && |fs[0]| >= |digits| && digits <= fs[0]
    decreases |s|
  {
    if s[0] != ETX && s[0] != SEMICOLON {
      CollectLonger(s[1..], if IsDigit(s[0]) then digits + [s[0]] else digits);
    }
  }

  /** One byte of the scan, with the digits buffered so far. */
  lemma CollectStep(s: seq<Byte>, digits: seq<Byte>)
    requires ETX in s
    ensures s[0] != ETX ==> ETX in s[1..]
    ensures var c := s[0];
            Collect(s, digits) ==
              if c == ETX then [digits]
              else if IsDigit(c) then Collect(s[1..], digits + [c])
              else if c == SEMICOLON then [digits] + Collect(s[1..], [])
              else Collect(s[1..], digits)
    ensures |Collect(s, digits)| > 0
    ensures IsDigit(s[0]) ==> |digits| < |Collect(s, digits)[0]|
  {
    CollectLonger(s, digits);
    if IsDigit(s[0]) {
      CollectLonger(s[1..], digits + [s[0]]);
    }
  }

  /** The scan has the bytes `s` before it and `digits` in its buffer, and the fields
      from `index` on are still to come. */
  predicate Scanning(s: seq<Byte>, digits: seq<Byte>, fs: seq<seq<Byte>>, index: nat) {
    ETX in s && index <= |fs| && Collect(s, digits) == fs[index..]
  }

  lemma ScanDigit(s: seq<Byte>, digits: seq<Byte>, fs: seq<seq<Byte>>, index: nat)
    requires Scanning(s, digits, fs, index) && IsDigit(s[0])
    ensures Scanning(s[1..], digits + [s[0]], fs, index)
    ensures (forall f | f in fs :: |f| <= 10) ==> |digits| < 10
  {
    CollectStep(s, digits);
    assert fs[index..][0] == fs[index] && fs[index] in fs;
  }

  lemma ScanField(s: seq<Byte>, digits: seq<Byte>, fs: seq<seq<Byte>>, index: nat)
    requires Scanning(s, digits, fs, index) && (s[0] == SEMICOLON || s[0] == ETX)
    ensures index < |fs| && fs[index] == digits
    ensures if s[0] == ETX then index + 1 == |fs| else Scanning(s[1..], [], fs, index + 1)
  {
    CollectStep(s, digits);
    NextField(fs, index, digits, if s[0] == ETX then [] else Collect(s[1..], []));
  }

  lemma NextField(fs: seq<seq<Byte>>, index: nat, digits: seq<Byte>, more: seq<seq<Byte>>)
    requires index <= |fs| && fs[index..] == [digits] + more
    ensures index < |fs| && fs[index] == digits && fs[index + 1..] == more
    ensures more == [] ==> index + 1 == |fs|
  {
    assert fs[index..][0] == fs[index];
    assert fs[index + 1..] == fs[index..][1..] == more;
  }

  /** What a field of the caller's array becomes: the sum wraps at 32 bits. */
  function Added(before: UInt, digits: seq<Byte>): UInt {
    (before + DigitsValue(digits)) % 0x1_0000_0000
  }

  /** The caller's array when the first `index` fields have been added to it. */
  predicate AddedUpTo(dist: seq<UInt>, before: seq<UInt>, fs: seq<seq<Byte>>, index: nat) {
    && index <= |fs| && |dist| == |before|
    && (forall k | 0 <= k < index && k < |dist| :: dist[k] == Added(before[k], fs[k]))
    && (forall k | index <= k < |dist| :: dist[k] == before[k])
  }

  lemma OneMoreAdded(dist: seq<UInt>, before: seq<UInt>, fs: seq<seq<Byte>>, index: nat)
    requires AddedUpTo(dist, before, fs, index) && index < |fs| && index < |dist|
    ensures AddedUpTo(dist[index := Added(dist[index], fs[index])], before, fs, index + 1)
  {
  }

  /** `str2int`: every field's value is added to the caller's array. */
  method Str2Int(data: array<Byte>, dist: array<UInt>)
    requires ETX in data[..] && ShortFields(data[..]) && |Collect(data[..], [])| <= dist.Length
    modifies dist
    ensures var fs := Collect(data[..], []); AddedUpTo(dist[..], old(dist[..]), fs, |fs|)
  {
    var tmp := new Byte[10](i => 0);
    ghost var fs, before := Collect(data[..], []), dist[..];
    var i, j, index := 0, 0, 0;
    assert data[0..] == data[..] && tmp[..0] == [];
    while true
      invariant i <= data.Length && 0 <= j <= 10
      invariant Scanning(data[i..], tmp[..j], fs, index) && AddedUpTo(dist[..], before, fs, index)
      decreases data.Length - i
    {
      var c := data[i];
      ghost var s, digits := data[i..], tmp[..j];
      assert s[0] == c && s[1..] == data[i + 1..];
      if IsDigit(c) {
        ScanDigit(s, digits, fs, index);
        j := PutByte(tmp, j, c);
      } else if c == SEMICOLON || c == ETX {
        ScanField(s, digits, fs, index);
        OneMoreAdded(dist[..], before, fs, index);
        AddField(tmp, j, dist, index);
        j := 0;
        index := index + 1;
        assert tmp[..0] == [];
      } else {
        CollectStep(s, digits);
      }
      if c == ETX {
        break;
      }
      i := i + 1;
    }
  }

  /** The inner loop: the positional sum of the buffered digits. */
  method AddField(tmp: array<Byte>, j: nat, dist: array<UInt>, index: nat)
    requires j <= tmp.Length == 10 && index < dist.Length
    modifies dist
    ensures dist[..] == old(dist[..])[index := Added(old(dist[index]), tmp[..j])]
  {
    ghost var d0, before := dist[index], dist[..];
    StartSum(d0, j);
    for k := 0 to j
      invariant dist[..] == before[index := PartSum(d0, tmp[..k], j - k)]
    {
      var p := MyPow(10, j - k - 1);
      assert tmp[..k + 1] == tmp[..k] + [tmp[k]];
      AddDigit(dist, index, tmp[k], p, d0, tmp[..k], j - k - 1);
    }
    EndSum(d0, tmp[..j]);
  }

  /** One turn of the loop, for a digit with `left` places below it. */
  method AddDigit(dist: array<UInt>, index: nat, c: Byte, p: nat,
                  ghost d0: UInt, ghost digits: seq<Byte>, ghost left: nat)
    requires index < dist.Length && p == Pow10(left) && dist[..][index] == PartSum(d0, digits, left + 1)
    modifies dist
    ensures dist[..] == old(dist[..])[index := PartSum(d0, digits + [c], left)]
  {
    StepSum(d0, digits, c, left);
    dist[index] := (dist[index] + (c - ZERO) * p) % UINT;
  }

  /** The field's sum when `left` places remain below the digits taken so far. */
  function PartSum(d0: UInt, digits: seq<Byte>, left: nat): UInt {
    (d0 + DigitsValue(digits) * Pow10(left)) % UINT
  }

  lemma StartSum(d0: UInt, left: nat)
    ensures PartSum(d0, [], left) == d0
  {
  }

  lemma StepSum(d0: UInt, digits: seq<Byte>, c: Byte, left: nat)
    ensures (PartSum(d0, digits, left + 1) + (c - ZERO) * Pow10(left)) % UINT == PartSum(d0, digits + [c], left)
  {
    PushDigit(digits, c);
    PlaceDigit(d0, DigitsValue(digits), c - ZERO, Pow10(left));
  }

  lemma EndSum(d0: UInt, digits: seq<Byte>)
    ensures PartSum(d0, digits, 0) == Added(d0, digits)
  {
  }

  lemma PlaceDigit(d0: int, v: int, d: int, p: nat)
    ensures ((d0 + v * (10 * p)) % UINT + d * p) % UINT == (d0 + (v * 10 + d) * p) % UINT
  {
    ModAdd(d0 + v * (10 * p), d * p, UINT);
    Reassociate(v, d, p);
  }

  // ---------------------------------------------------------------- written and read back

  /** The packet of `drvm_set_odometry`. */
  method BuildOdometry(packet: array<Byte>, x: int, y: int, theta: int) returns (index: nat)
    requires packet.Length >= 255 && InIntRange(x) && InIntRange(y) && InIntRange(theta)
    modifies packet
    ensures index <= packet.Length && packet[..index] == Packet('C' as int, 'X' as int, [x, y, theta])
    ensures index >= 3 && packet[..3] == [0x02, 'C' as int, 'X' as int]
    ensures Numbers(packet[3..index], false, 0) == [x, y, theta]
  {
    index := Open(packet, 67, 88);
    index := PutField(packet, index, x);
    index := PutByte(packet, index, SEMICOLON);
    index := PutField(packet, index, y);
    index := PutByte(packet, index, SEMICOLON);
    index := PutField(packet, index, theta);
    ghost var fields := Fields([x, y, theta]);
    ThreeFields(x, y, theta);
    Assoc3([STX, 67, 88], FieldText(x), FieldText(y), FieldText(theta), SEMICOLON);
    OpenedBody(67, 88, fields);
    index := Close(packet, index, [67, 88] + fields);
    CarriedBy(packet[..index], 67, 88, [x, y, theta]);
  }

  /** The packet of `drvm_set_velocity`. */
  method BuildVelocity(packet: array<Byte>, left: int, right: int) returns (index: nat)
    requires packet.Length >= 255 && InIntRange(left) && InIntRange(right)
    modifies packet
    ensures index <= packet.Length && packet[..index] == Packet('B' as int, 'E' as int, [left, right])
    ensures index >= 3 && packet[..3] == [0x02, 'B' as int, 'E' as int]
    ensures Numbers(packet[3..index], false, 0) == [left, right]
  {
    index := Open(packet, 66, 69);
    index := PutField(packet, index, left);
    index := PutByte(packet, index, SEMICOLON);
    index := PutField(packet, index, right);
    ghost var fields := Fields([left, right]);
    TwoFields(left, right);
    Assoc3([STX, 66, 69], FieldText(left), FieldText(right), [], SEMICOLON);
    OpenedBody(66, 69, fields);
    index := Close(packet, index, [66, 69] + fields);
    CarriedBy(packet[..index], 66, 69, [left, right]);
  }

  /** A zeroed array filled from a buffer that starts with a packet. */
  method ReadBack(packet: array<Byte>, a: Byte, b: Byte, ghost ns: seq<int>, ghost end: nat)
    returns (dist: array<UInt>)
    requires 0 < |ns| <= 255 && (forall n | n in ns :: InIntRange(n)) && Skipped(a) && Skipped(b)
    requires end <= packet.Length && packet[..end] == Packet(a, b, ns)
    ensures fresh(dist) && dist.Length == 255 && dist[..|ns|] == Magnitudes(ns)
  {
    dist := new UInt[255](i => 0);
    WholeBuffer(packet[..], end);
    PacketRoundTrip(a, b, ns, packet[end..]);
    Str2Int(packet, dist);
    AllAdded(dist[..|ns|], ns);
  }

  lemma WholeBuffer(s: seq<Byte>, end: nat)
    requires end <= |s|
    ensures s == s[..end] + s[end..]
  {
  }

  lemma AllAdded(dist: seq<UInt>, ns: seq<int>)
    requires |dist| == |ns| && (forall n | n in ns :: InIntRange(n))
    requires forall k | 0 <= k < |ns| :: dist[k] == Added(0, Numerals(ns)[k])
    ensures dist == Magnitudes(ns)
  {
    forall k | 0 <= k < |ns| ensures dist[k] == Magnitudes(ns)[k] {
      assert ns[k] in ns;
      AddedToZero(ns[k]);
    }
  }

  lemma AddedToZero(n: int)
    requires InIntRange(n)
    ensures Added(0, Decimal(Magnitude(n))) == Magnitude(n)
  {
    NumeralIs(n);
  }

  /** Writing the odometry packet and scanning the same buffer gives the three
      magnitudes: the scan drops every sign. */
  method OdometryReadBack(packet: array<Byte>, x: int, y: int, theta: int) returns (dist: array<UInt>)
    requires packet.Length >= 255 && InIntRange(x) && InIntRange(y) && InIntRange(theta)
    modifies packet
    ensures fresh(dist) && dist.Length == 255
    ensures dist[..3] == [Magnitude(x), Magnitude(y), Magnitude(theta)]
  {
    var end := BuildOdometry(packet, x, y, theta);
    dist := ReadBack(packet, 67, 88, [x, y, theta], end);
  }

  /** The same for the velocity packet. */
  method VelocityReadBack(packet: array<Byte>, left: int, right: int) returns (dist: array<UInt>)
    requires packet.Length >= 255 && InIntRange(left) && InIntRange(right)
    modifies packet
    ensures fresh(dist) && dist.Length == 255 && dist[..2] == [Magnitude(left), Magnitude(right)]
  {
    var end := BuildVelocity(packet, left, right);
    dist := ReadBack(packet, 66, 69, [left, right], end);
  }
}
