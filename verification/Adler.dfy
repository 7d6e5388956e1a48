/**
 The Adler-32 checksum of the chunkserver: the byte-at-a-time definition of section 2.2 of
 RFC 1950, the deferred-modulo form that reduces once per run of 5552 bytes, and the
 combination of two checksums.
 */
module Adler {
  import opened Codec

  const BASE := 65521
  const NMAX := 5552

  /** The two running sums `s1` and `s2`. */
  datatype Sums = Sums(a: nat, b: nat)

  /** The sums as one word; `b` sits above the sixteen bits of `a`. */
  function Pack(s: Sums): nat { s.a + 0x1_0000 * s.b }

  function Unpack(adler: nat): (s: Sums)
    ensures s.a < 0x1_0000 && s.b < 0x1_0000
  {
    Sums(adler % 0x1_0000, adler / 0x1_0000 % 0x1_0000)
  }

  predicate Canonical(s: Sums) { s.a < BASE && s.b < BASE }

  // ---------------------------------------------------------------------------
  // The definition: every addition is reduced at once.

  function Step(s: Sums, x: byte): Sums {
    var a := (s.a + x) % BASE;
    Sums(a, (s.b + a) % BASE)
  }

  function Fold(s: Sums, data: seq<byte>): (r: Sums)
    ensures data != [] ==> Canonical(r)
    ensures data == [] ==> r == s
  {
    if data == [] then s else Step(Fold(s, data[..|data| - 1]), data[|data| - 1])
  }

  /** The checksum of `data` continued from the checksum `adler`. */
  function Checksum(adler: nat, data: seq<byte>): (r: nat)
    ensures r < 0x1_0000_0000
  {
    hide Fold;
    Pack(Fold(Unpack(adler), data))
  }

  lemma {:induction false} FoldConcat(s: Sums, x: seq<byte>, y: seq<byte>)
    ensures Fold(s, x + y) == Fold(Fold(s, x), y)
  {
    if y == [] {
      assert x + y == x;
    } else {
      FoldConcat(s, x, y[..|y| - 1]);
      assert (x + y)[..|x + y| - 1] == x + y[..|y| - 1];
    }
  }

  // ---------------------------------------------------------------------------
  // What a checksum is for.

  function SumOf(data: seq<byte>): nat { if data == [] then 0 else SumOf(data[..|data| - 1]) + data[|data| - 1] }

  lemma {:induction false} FoldSum(s: Sums, data: seq<byte>)
    requires s.a < BASE
    ensures Fold(s, data).a == (s.a + SumOf(data)) % BASE
  {
    if data != [] {
      var init := data[..|data| - 1];
      FoldSum(s, init);
      AddLate(s.a + SumOf(init), data[|data| - 1]);
    }
  }

  lemma AddLate(m: nat, n: nat)
    ensures (m % BASE + n) % BASE == (m + n) % BASE
  {
    assert m + n == m % BASE + n + BASE * (m / BASE);
  }

  lemma {:induction false} SumChange(data: seq<byte>, i: nat, x: byte)
    requires i < |data|
    ensures SumOf(data[i := x]) == SumOf(data) - data[i] + x
  {
    var n := |data| - 1;
    if i == n {
      assert data[i := x][..n] == data[..n];
    } else {
      SumChange(data[..n], i, x);
      assert data[i := x][..n] == data[..n][i := x];
    }
  }

  /** A change of one byte, whichever and to whatever, changes the checksum. */
  lemma OneByteDetected(data: seq<byte>, i: nat, x: byte)
    requires i < |data| && x != data[i]
    ensures Checksum(0, data[i := x]) != Checksum(0, data)
  {
    hide Fold, SumOf;
    var zero, changed := Sums(0, 0), data[i := x];
    assert Unpack(0) == zero;
    FoldSum(zero, data);
    FoldSum(zero, changed);
    SumChange(data, i, x);
    assert SumOf(data) % BASE != SumOf(changed) % BASE by { NearApart(SumOf(data), SumOf(changed)); }
    PackApart(Fold(zero, data), Fold(zero, changed));
  }

  lemma NearApart(m: nat, n: nat)
    requires m != n && -256 < m - n < 256
    ensures m % BASE != n % BASE
  {
    var p, q := m / BASE, n / BASE;
    assert m == BASE * p + m % BASE && n == BASE * q + n % BASE;
    assert p == q || p == q + 1 || q == p + 1;
  }

  lemma PackApart(s: Sums, t: Sums)
    requires s.a < 0x1_0000 && t.a < 0x1_0000 && s.a != t.a
    ensures Pack(s) != Pack(t)
  {
    assert Pack(s) % 0x1_0000 == s.a && Pack(t) % 0x1_0000 == t.a;
  }

  // ---------------------------------------------------------------------------
  // The sums without any reduction, as the unrolled code accumulates them.

  function Do1(s: Sums, x: byte): Sums { Sums(s.a + x, s.b + (s.a + x)) }

  function Raw(s: Sums, data: seq<byte>): Sums {
    if data == [] then s else Do1(Raw(s, data[..|data| - 1]), data[|data| - 1])
  }

  function Do2(s: Sums, data: seq<byte>, i: nat): Sums
    requires i + 2 <= |data|
  {
    Do1(Do1(s, data[i]), data[i + 1])
  }

  function Do4(s: Sums, data: seq<byte>, i: nat): Sums
    requires i + 4 <= |data|
  {
    Do2(Do2(s, data, i), data, i + 2)
  }

  function Do8(s: Sums, data: seq<byte>, i: nat): Sums
    requires i + 8 <= |data|
  {
    Do4(Do4(s, data, i), data, i + 4)
  }

  function Do16(s: Sums, data: seq<byte>, i: nat): Sums
    requires i + 16 <= |data|
  {
    Do8(Do8(s, data, i), data, i + 8)
  }

  lemma RawSnoc(s: Sums, data: seq<byte>, p: nat, i: nat)
    requires p <= i < |data|
    ensures Raw(s, data[p..i + 1]) == Do1(Raw(s, data[p..i]), data[i])
  {
    assert data[p..i + 1][..i - p] == data[p..i];
  }

  lemma Do2IsRaw(s: Sums, data: seq<byte>, p: nat, i: nat)
    requires p <= i && i + 2 <= |data|
    ensures Do2(Raw(s, data[p..i]), data, i) == Raw(s, data[p..i + 2])
  {
    RawSnoc(s, data, p, i);
    RawSnoc(s, data, p, i + 1);
  }

  lemma Do4IsRaw(s: Sums, data: seq<byte>, p: nat, i: nat)
    requires p <= i && i + 4 <= |data|
    ensures Do4(Raw(s, data[p..i]), data, i) == Raw(s, data[p..i + 4])
  {
    Do2IsRaw(s, data, p, i);
    Do2IsRaw(s, data, p, i + 2);
  }

  lemma Do8IsRaw(s: Sums, data: seq<byte>, p: nat, i: nat)
    requires p <= i && i + 8 <= |data|
    ensures Do8(Raw(s, data[p..i]), data, i) == Raw(s, data[p..i + 8])
  {
    Do4IsRaw(s, data, p, i);
    Do4IsRaw(s, data, p, i + 4);
  }

  /** Sixteen unrolled additions are sixteen additions. */
  lemma Do16IsRaw(s: Sums, data: seq<byte>, p: nat, i: nat)
    requires p <= i && i + 16 <= |data|
    ensures Do16(Raw(s, data[p..i]), data, i) == Raw(s, data[p..i + 16])
  {
    Do8IsRaw(s, data, p, i);
    Do8IsRaw(s, data, p, i + 8);
  }

  /** Reducing late or early makes no difference modulo 65521. */
  predicate Congruent(s: Sums, t: Sums) { s.a % BASE == t.a % BASE && s.b % BASE == t.b % BASE }

  lemma AddCongruent(x: nat, y: nat, u: nat, v: nat)
    requires x % BASE == y % BASE && u % BASE == v % BASE
    ensures (x + u) % BASE == (y + v) % BASE
  {
    var k, l := x / BASE - y / BASE, u / BASE - v / BASE;
    assert x + u == y + v + BASE * (k + l);
  }

  lemma StepCongruent(s: Sums, t: Sums, x: byte)
    requires Congruent(s, t)
    ensures Congruent(Do1(s, x), Step(t, x))
  {
    AddCongruent(s.a, t.a, x, x);
    AddCongruent(s.b, t.b, s.a + x, (t.a + x) % BASE);
  }

  lemma {:induction false} RawCongruentFold(s: Sums, t: Sums, data: seq<byte>)
    requires Congruent(s, t)
    ensures Congruent(Raw(s, data), Fold(t, data))
  {
    if data != [] {
      var init := data[..|data| - 1];
      RawCongruentFold(s, t, init);
      StepCongruent(Raw(s, init), Fold(t, init), data[|data| - 1]);
    }
  }

  function Reduced(s: Sums): (r: Sums)
    ensures Canonical(r) && Congruent(r, s)
  {
    Sums(s.a % BASE, s.b % BASE)
  }

  /** One reduction at the end of a run gives the sums of the definition. */
  lemma ReducedRawIsFold(s: Sums, data: seq<byte>)
    requires data != []
    ensures Reduced(Raw(s, data)) == Fold(s, data)
  {
    hide Raw;
    RawCongruentFold(s, s, data);
  }

  // ---------------------------------------------------------------------------
  // No intermediate sum of a run leaves 32 bits.

  type u32 = x: int | 0 <= x < 0x1_0000_0000

  function RunBound(n: nat): nat {
    if n == 0 then 65535 else RunBound(n - 1) + 65535 + 255 * n
  }

  lemma {:induction false} RunBoundClosed(n: nat)
    ensures 2 * RunBound(n) == 131070 * (n + 1) + 255 * (n * (n + 1))
  {
    if n > 0 {
      RunBoundClosed(n - 1);
      assert n * (n + 1) == (n - 1) * n + 2 * n;
    }
  }

  lemma {:induction false} RunBoundMonotone(m: nat, n: nat)
    requires m <= n
    ensures RunBound(m) <= RunBound(n)
    decreases n - m
  {
    if m < n { RunBoundMonotone(m, n - 1); }
  }

  lemma {:induction false} RawBounded(s: Sums, data: seq<byte>)
    requires s.a <= 65535 && s.b <= 65535
    ensures Raw(s, data).a <= 65535 + 255 * |data|
    ensures Raw(s, data).b <= RunBound(|data|)
  {
    if data != [] { RawBounded(s, data[..|data| - 1]); }
  }

  /** From any sixteen-bit sums, 5552 bytes can be added before a reduction is due. */
  lemma RunFits(s: Sums, data: seq<byte>)
    requires s.a <= 65535 && s.b <= 65535 && |data| <= NMAX
    ensures Raw(s, data).a < 0x1_0000_0000 && Raw(s, data).b < 0x1_0000_0000
  {
    RawBounded(s, data);
    RunBoundMonotone(|data|, NMAX);
    RunBoundClosed(NMAX);
  }

  // ---------------------------------------------------------------------------
  // The reductions for processors without a divide instruction.

  function Shifted(k: nat): (p: nat)
    ensures p >= BASE && p % BASE == 0
  {
    if k == 0 then BASE else 2 * Shifted(k - 1)
  }

  /** Subtracts BASE << k, BASE << (k - 1), ..., BASE, each at most once. */
  function SubtractChain(a: nat, k: nat): nat {
    var a' := if a >= Shifted(k) then a - Shifted(k) else a;
    if k == 0 then a' else SubtractChain(a', k - 1)
  }

  lemma {:induction false} SubtractChainIsRemainder(a: nat, k: nat)
    requires a < Shifted(k + 1)
    ensures SubtractChain(a, k) == a % BASE
  {
    var a' := if a >= Shifted(k) then a - Shifted(k) else a;
    assert a' % BASE == a % BASE;
    if k > 0 { SubtractChainIsRemainder(a', k - 1); }
  }

  lemma ShiftedValues()
    ensures Shifted(5) == 2096672
    ensures Shifted(17) > 0x1_0000_0000
  {
    assert Shifted(3) == 524168;
    assert Shifted(5) == 2096672;
    assert Shifted(7) == 8386688;
    assert Shifted(9) == 33546752;
    assert Shifted(11) == 134187008;
    assert Shifted(13) == 536748032;
    assert Shifted(15) == 2146992128;
  }

  /** MOD on every 32-bit sum, and MOD4 on every sum of at most fifteen bytes, is `% BASE`. */
  lemma SubtractChainsReduce(a: nat)
    ensures a < 0x1_0000_0000 ==> SubtractChain(a, 16) == a % BASE
    ensures a < 2096672 ==> SubtractChain(a, 4) == a % BASE
  {
    ShiftedValues();
    if a < 0x1_0000_0000 { SubtractChainIsRemainder(a, 16); }
    if a < 2096672 { SubtractChainIsRemainder(a, 4); }
  }

  // ---------------------------------------------------------------------------
  // The checksum of a flat buffer.

  /** The two families of inputs on which the flat form misses the definition, all of them with
      a seed half of 65521 or more: no bytes at all, which still reduces the seed, and a single
      byte, where subtracting BASE once from the second sum is too little. */
  predicate Misses(adler: nat, data: seq<byte>) {
    var s := Unpack(adler);
    || (|data| == 0 && !Canonical(s))
    || (|data| == 1 && s.b + (s.a + data[0]) % BASE >= 2 * BASE)
  }

  /** One input of each family. */
  lemma MissedInputs()
    ensures Misses(0xFFFF, []) && Misses(0xFFFF_FFF0, [0])
    ensures forall adler, data :: Misses(adler, data) ==> !Canonical(Unpack(adler)) && |data| <= 1
  {
  }

  lemma PackInjective(s: Sums, t: Sums)
    requires s.a < 0x1_0000 && t.a < 0x1_0000
    ensures Pack(s) == Pack(t) <==> s == t
  {
  }

  /** The flat form meets the definition on every input outside those two families, and on no
      input inside them; a null buffer yields the initial value 1. */
  method Adler32(adler: nat, buf: array?<byte>, len: nat) returns (r: nat)
    requires buf != null ==> len <= buf.Length
    requires buf == null ==> len != 1
    ensures buf == null ==> r == 1
    ensures buf != null ==> (r == Checksum(adler, buf[..len]) <==> !Misses(adler, buf[..len]))
  {
    hide Pack, Unpack, Step;
    var seed := Unpack(adler);
    var a: u32, b: u32 := seed.a, seed.b;
    if len == 1 {
      a, b := SingleByte(a, b, buf[0]);
      assert buf[..1] == [buf[0]];
      SingleByteVerdict(adler, buf[0], Sums(a, b));
      return Pack(Sums(a, b));
    }
    if buf == null {
      return 1;
    }
    if len < 16 {
      a, b := ShortRun(a, b, buf[..len]);
    } else {
      a, b := LongRun(a, b, buf[..len]);
    }
    PackInjective(Sums(a, b), Fold(seed, buf[..len]));
    return Pack(Sums(a, b));
  }

  lemma SingleByteVerdict(adler: nat, x: byte, s: Sums)
    requires s.a < 0x1_0000
    requires var seed := Unpack(adler);
             s == Step(seed, x) <==> seed.b + (seed.a + x) % BASE < 2 * BASE
    ensures Pack(s) == Checksum(adler, [x]) <==> !Misses(adler, [x])
  {
    hide Pack, Unpack;
    var seed := Unpack(adler);
    assert Fold(seed, [x]) == Step(seed, x);
    PackInjective(s, Step(seed, x));
  }

  /** One byte: at most one subtraction from each sum. */
  method SingleByte(adler: u32, sum2: u32, x: byte) returns (a: u32, b: u32)
    requires adler <= 65535 && sum2 <= 65535
    ensures a == (adler + x) % BASE && b <= 65535
    ensures Sums(a, b) == Step(Sums(adler, sum2), x) <==> sum2 + (adler + x) % BASE < 2 * BASE
  {
    a := adler + x;
    if a >= BASE { a := a - BASE; }
    b := sum2 + a;
    if b >= BASE { b := b - BASE; }
  }

  lemma ShortRunBounded(s: Sums, data: seq<byte>)
    requires s.a <= 65535 && s.b <= 65535 && |data| < 16
    ensures Raw(s, data).a < 2 * BASE && Raw(s, data).b < 2096672
  {
    RawBounded(s, data);
    RunBoundMonotone(|data|, 15);
    RunBoundClosed(15);
  }

  /** Fewer than sixteen bytes: one subtraction reduces the first sum. */
  method ShortRun(adler: u32, sum2: u32, data: seq<byte>) returns (a: u32, b: u32)
    requires adler <= 65535 && sum2 <= 65535
    requires |data| < 16
    ensures Sums(a, b) == Reduced(Fold(Sums(adler, sum2), data))
  {
    ghost var seed := Sums(adler, sum2);
    a, b := AddEach(seed, adler, sum2, data, 0, 0);
    assert data[0..] == data;
    ShortRunBounded(seed, data);
    ReducedCongruent(seed, data);
    a, b := ShortReduction(a, b);
  }

  method ShortReduction(adler: u32, sum2: u32) returns (a: u32, b: u32)
    requires adler < 2 * BASE && sum2 < 2096672
    ensures Sums(a, b) == Reduced(Sums(adler, sum2))
  {
    a := if adler >= BASE then adler - BASE else adler;
    SubtractChainsReduce(sum2);
    b := SubtractChain(sum2, 4);
  }

  lemma ReducedCongruent(s: Sums, data: seq<byte>)
    ensures Reduced(Raw(s, data)) == Reduced(Fold(s, data))
  {
    RawCongruentFold(s, s, data);
  }

  /** The bytes from `p` on, one at a time, in a run that began at `q` with the sums `start`. */
  method AddEach(ghost start: Sums, adler: u32, sum2: u32, data: seq<byte>, ghost q: nat, p: nat)
    returns (a: u32, b: u32)
    requires start.a <= 65535 && start.b <= 65535
    requires q <= p <= |data| && |data| - q <= NMAX
    requires Sums(adler, sum2) == Raw(start, data[q..p])
    ensures Sums(a, b) == Raw(start, data[q..])
  {
    a, b := adler, sum2;
    var i := p;
    while i < |data|
      invariant p <= i <= |data|
      invariant Sums(a, b) == Raw(start, data[q..i])
    {
      RunFits(start, data[q..i + 1]);
      RawSnoc(start, data, q, i);
      a := a + data[i];
      b := b + a;
      i := i + 1;
    }
    assert data[q..i] == data[q..];
  }

  /** A stretch of any length: runs of 5552 bytes in steps of sixteen, one reduction a run, and
      the rest in steps of sixteen and then of one. Every sum on the way fits 32 bits. */
  method LongRun(adler: u32, sum2: u32, data: seq<byte>) returns (a: u32, b: u32)
    requires adler <= 65535 && sum2 <= 65535
    ensures Sums(a, b) == Fold(Sums(adler, sum2), data)
  {
    ghost var seed := Sums(adler, sum2);
    a, b := adler, sum2;
    var i := 0;
    while |data| - i >= NMAX
      invariant 0 <= i <= |data|
      invariant a <= 65535 && b <= 65535
      invariant Sums(a, b) == Fold(seed, data[..i])
    {
      var p := i;
      ghost var start := Sums(a, b);
      a, b, i := Unrolled(a, b, data, i, NMAX / 16);
      a, b := a % BASE, b % BASE;
      FoldRun(seed, data, p, i);
      ReducedRawIsFold(start, data[p..i]);
    }
    if i < |data| {
      var p := i;
      ghost var start := Sums(a, b);
      a, b, i := Unrolled(a, b, data, i, (|data| - i) / 16);
      a, b := AddEach(start, a, b, data, p, i);
      a, b, i := a % BASE, b % BASE, |data|;
      FoldRun(seed, data, p, i);
      assert data[p..i] == data[p..];
      ReducedRawIsFold(start, data[p..]);
    }
    assert data[..i] == data;
  }

  lemma FoldRun(s: Sums, data: seq<byte>, p: nat, i: nat)
    requires p <= i <= |data|
    ensures Fold(s, data[..i]) == Fold(Fold(s, data[..p]), data[p..i])
  {
    assert data[..i] == data[..p] + data[p..i];
    FoldConcat(s, data[..p], data[p..i]);
  }

  /** `n` steps of sixteen bytes. */
  method Unrolled(adler: u32, sum2: u32, data: seq<byte>, p: nat, n: nat)
    returns (a: u32, b: u32, i: nat)
    requires adler <= 65535 && sum2 <= 65535
    requires p + 16 * n <= |data| && 16 * n <= NMAX
    ensures i == p + 16 * n
    ensures Sums(a, b) == Raw(Sums(adler, sum2), data[p..i])
  {
    ghost var start := Sums(adler, sum2);
    a, b, i := adler, sum2, p;
    for k := 0 to n
      invariant i == p + 16 * k
      invariant Sums(a, b) == Raw(start, data[p..i])
    {
      Do16IsRaw(start, data, p, i);
      RunFits(start, data[p..i + 16]);
      var s := Do16(Sums(a, b), data, i);
      a, b := s.a, s.b;
      i := i + 16;
    }
  }

  // ---------------------------------------------------------------------------
  // The checksum of two strings from their checksums.

  function Combine(adler1: nat, adler2: nat, len2: nat): nat {
    var rem := len2 % BASE;
    var sum1 := adler1 % 0x1_0000;
    var sum2 := rem * sum1 % BASE;
    var sum1 := sum1 + adler2 % 0x1_0000 + BASE - 1;
    var sum2 := sum2 + adler1 / 0x1_0000 % 0x1_0000 + adler2 / 0x1_0000 % 0x1_0000 + BASE - rem;
    Pack(Sums(Trim1(sum1), Trim2(sum2)))
  }

  function Trim1(sum1: nat): nat {
    var s := if sum1 > BASE then sum1 - BASE else sum1;
    if s > BASE then s - BASE else s
  }

  function Trim2(sum2: nat): nat {
    var s := if sum2 > 2 * BASE then sum2 - 2 * BASE else sum2;
    if s > BASE then s - BASE else s
  }

  lemma UnpackPack(s: Sums)
    requires s.a < 0x1_0000 && s.b < 0x1_0000
    ensures Unpack(Pack(s)) == s
  {
    var n := Pack(s);
    assert n % 0x1_0000 == s.a && n / 0x1_0000 == s.b;
  }

  lemma CombineOfPacked(s: Sums, t: Sums, n: nat)
    requires s.a < 0x1_0000 && s.b < 0x1_0000 && t.a < 0x1_0000 && t.b < 0x1_0000
    ensures Combine(Pack(s), Pack(t), n) ==
            Pack(Sums(Trim1(s.a + t.a + BASE - 1),
                      Trim2((n % BASE) * s.a % BASE + s.b + t.b + BASE - n % BASE)))
  {
    UnpackPack(s);
    UnpackPack(t);
  }

  /** Without reductions the sums of `y` depend linearly on where they start. */
  lemma {:induction false} RawLinear(s: Sums, y: seq<byte>)
    ensures var z := Raw(Sums(0, 0), y);
            Raw(s, y) == Sums(s.a + z.a, s.b + |y| * s.a + z.b)
  {
    if y != [] {
      RawLinear(s, y[..|y| - 1]);
      assert |y| * s.a == (|y| - 1) * s.a + s.a;
    }
  }

  lemma {:induction false} RawConcat(s: Sums, x: seq<byte>, y: seq<byte>)
    ensures Raw(s, x + y) == Raw(Raw(s, x), y)
  {
    if y == [] {
      assert x + y == x;
    } else {
      RawConcat(s, x, y[..|y| - 1]);
      assert (x + y)[..|x + y| - 1] == x + y[..|y| - 1];
    }
  }

  lemma MulCongruent(n: nat, a: nat)
    ensures (n * a) % BASE == ((n % BASE) * (a % BASE)) % BASE
  {
    var p, r, q, t := n / BASE, n % BASE, a / BASE, a % BASE;
    assert n * a == r * t + BASE * (p * a + r * q) by {
      assert n * a == (BASE * p) * a + r * a;
      assert r * a == r * (BASE * q) + r * t;
      assert (BASE * p) * a == BASE * (p * a);
      assert r * (BASE * q) == BASE * (r * q);
    }
    MultipleOfBase(r * t, p * a + r * q);
  }

  lemma MultipleOfBase(x: nat, k: nat)
    ensures (x + BASE * k) % BASE == x % BASE
  {
  }

  /** The sums of `x + y` from those of `x` and `y`, both continued from the initial value 1. */
  lemma RawOfConcat(x: seq<byte>, y: seq<byte>)
    ensures var one := Sums(1, 0);
            var (u, v, w) := (Raw(one, x), Raw(one, y), Raw(one, x + y));
            w.a + 1 == u.a + v.a && w.b + |y| == u.b + v.b + |y| * u.a
  {
    var one := Sums(1, 0);
    RawConcat(one, x, y);
    RawLinear(Raw(one, x), y);
    RawLinear(one, y);
  }

  /** A half of the combined checksum is right modulo 65521 and at most 65521, so it is the true
      half unless that is 0, for which it stands as 65521. */
  predicate Half(got: nat, want: nat) {
    got == if want == 0 then BASE else want
  }

  lemma FoldFromOne(x: seq<byte>)
    ensures Fold(Sums(1, 0), x) == Reduced(Raw(Sums(1, 0), x))
  {
    if x != [] { ReducedRawIsFold(Sums(1, 0), x); }
  }

  /** The first sums add up, less the initial 1 counted twice. */
  lemma FirstHalf(u: nat, v: nat, w: nat, sum1: nat)
    requires w + 1 == u + v
    requires sum1 == u % BASE + v % BASE + BASE - 1
    ensures Half(Trim1(sum1), w % BASE)
  {
    var k := u / BASE + v / BASE;
    assert sum1 - BASE + BASE * k == w;
  }

  /** The second sums add up, plus the first sum of `x` once for each byte of `y`. */
  lemma SecondHalf(u: nat, v: nat, w: nat, prod: nat, n: nat, sum2: nat)
    requires w + n == u + v + prod
    requires sum2 == prod % BASE + u % BASE + v % BASE + BASE - n % BASE
    ensures Half(Trim2(sum2), w % BASE)
  {
    var k := prod / BASE + u / BASE + v / BASE - n / BASE;
    assert sum2 - BASE + BASE * k == w;
  }

  lemma CombineSums(u: Sums, v: Sums, w: Sums, n: nat) returns (c: Sums)
    requires w.a + 1 == u.a + v.a && w.b + n == u.b + v.b + n * u.a
    ensures Combine(Pack(Reduced(u)), Pack(Reduced(v)), n) == Pack(c)
    ensures Half(c.a, w.a % BASE) && Half(c.b, w.b % BASE)
  {
    hide Combine, Trim1, Trim2, Half, Pack;
    var (s, t) := (Reduced(u), Reduced(v));
    var sum1 := s.a + t.a + BASE - 1;
    var sum2 := (n % BASE) * s.a % BASE + s.b + t.b + BASE - n % BASE;
    CombineOfPacked(s, t, n);
    FirstHalf(u.a, v.a, w.a, sum1);
    assert sum2 == (n * u.a) % BASE + s.b + t.b + BASE - n % BASE by { MulCongruent(n, u.a); }
    SecondHalf(u.b, v.b, w.b, n * u.a, n, sum2);
    c := Sums(Trim1(sum1), Trim2(sum2));
  }

  /** The combined checksum is a packed pair `c` congruent to the checksum of the concatenation,
      half by half, with halves of at most 65521. It is that checksum exactly when neither half
      of the latter is 0, that is, when neither half of `c` is 65521. */
  lemma CombineCorrect(x: seq<byte>, y: seq<byte>) returns (c: Sums)
    ensures Combine(Checksum(1, x), Checksum(1, y), |y|) == Pack(c)
    ensures var w := Fold(Sums(1, 0), x + y);
            && Congruent(c, w) && c.a <= BASE && c.b <= BASE
            && (Pack(c) == Checksum(1, x + y) <==> w.a != 0 && w.b != 0)
            && (w.a != 0 && w.b != 0 <==> c.a != BASE && c.b != BASE)
  {
    hide Combine, Raw;
    var one := Sums(1, 0);
    assert Unpack(1) == one;
    RawOfConcat(x, y);
    FoldFromOne(x);
    FoldFromOne(y);
    FoldFromOne(x + y);
    c := CombineSums(Raw(one, x), Raw(one, y), Raw(one, x + y), |y|);
    PackInjective(c, Fold(one, x + y));
  }

  /** Two empty pieces show it: the combined checksum is not that of the empty whole. */
  lemma CombineMisses()
    ensures Combine(Checksum(1, []), Checksum(1, []), 0) != Checksum(1, [])
  {
    assert Unpack(1) == Sums(1, 0);
    var none: seq<byte> := [];
    assert none + none == none;
    var c := CombineCorrect(none, none);
  }
}
