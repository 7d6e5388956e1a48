/**
 Machine integers as byte strings: the big-endian fixed-width codecs and the
 variable-length codec of the chunkserver.

 A C shift becomes a division or a multiplication by a power of two, and an `or` of
 disjoint bit fields becomes their sum.
 */
module Codec {

  type byte = b: int | 0 <= b < 256

  datatype Option<+T> = None | Some(value: T)

  function Min(a: int, b: int): int { if a < b then a else b }

  // ---------------------------------------------------------------------------
  // Machine words.

  function Word32(x: int): nat { x % 0x1_0000_0000 }

  function Word64(x: int): nat { x % 0x1_0000_0000_0000_0000 }

  /** A number as a C int takes it. */
  function Int32(x: int): (r: int)
    ensures -0x8000_0000 <= r < 0x8000_0000 && (0 <= x < 0x8000_0000 ==> r == x)
  {
    if Word32(x) < 0x8000_0000 then Word32(x) else Word32(x) - 0x1_0000_0000
  }

  /** Sums and differences of ints can be taken first and narrowed then. */
  lemma Int32Shift(x: int, y: int)
    ensures Int32(Int32(x) + y) == Int32(x + y)
    ensures Int32(y - Int32(x)) == Int32(y - x)
  {
    var k := x / 0x1_0000_0000 + if Word32(x) < 0x8000_0000 then 0 else 1;
    assert x == Int32(x) + k * 0x1_0000_0000;
    Int32Turns(Int32(x) + y, k);
    Int32Turns(y - Int32(x), -k);
  }

  lemma Int32Turns(x: int, k: int)
    ensures Int32(x + k * 0x1_0000_0000) == Int32(x)
  {
  }

  lemma Int32Below(x: nat)
    ensures Int32(x) <= x
  {
  }

  lemma Word64Far(x: nat, y: int)
    requires x < 0x1_0000_0000_0000_0000 && x != y && -0x1_0000_0000_0000_0000 < y - x < 0x1_0000_0000_0000_0000
    ensures Word64(y) != x
  {
  }

  /** The list without its `k`-th element. */
  function Without<T>(s: seq<T>, k: nat): seq<T>
    requires k < |s|
  {
    s[..k] + s[k + 1..]
  }

  // ---------------------------------------------------------------------------
  // Big-endian numbers of any width, as a reference.

  function Pow256(w: nat): (p: nat)
    ensures p >= 1
  {
    if w == 0 then 1 else 256 * Pow256(w - 1)
  }

  function BigEndian(n: nat, w: nat): (s: seq<byte>)
    ensures |s| == w
  {
    if w == 0 then [] else BigEndian(n / 256, w - 1) + [n % 256]
  }

  function FromBigEndian(s: seq<byte>): nat {
    if s == [] then 0 else 256 * FromBigEndian(s[..|s| - 1]) + s[|s| - 1]
  }

  lemma {:induction false} FromBigEndianOfBigEndian(n: nat, w: nat)
    requires n < Pow256(w)
    ensures FromBigEndian(BigEndian(n, w)) == n
  {
    if w > 0 {
      FromBigEndianOfBigEndian(n / 256, w - 1);
      assert BigEndian(n, w)[..w - 1] == BigEndian(n / 256, w - 1);
    }
  }

  lemma {:induction false} BigEndianOfFromBigEndian(s: seq<byte>)
    ensures FromBigEndian(s) < Pow256(|s|)
    ensures BigEndian(FromBigEndian(s), |s|) == s
  {
    if s != [] {
      var init, last := s[..|s| - 1], s[|s| - 1];
      BigEndianOfFromBigEndian(init);
      assert FromBigEndian(s) / 256 == FromBigEndian(init);
      assert FromBigEndian(s) % 256 == last;
      assert s == init + [last];
    }
  }

  lemma Pow256Values()
    ensures Pow256(1) == 0x100
    ensures Pow256(2) == 0x1_0000
    ensures Pow256(4) == 0x1_0000_0000
    ensures Pow256(8) == 0x1_0000_0000_0000_0000
  {
    assert Pow256(3) == 0x100_0000;
    assert Pow256(4) == 0x1_0000_0000;
    assert Pow256(5) == 0x100_0000_0000;
    assert Pow256(6) == 0x1_0000_0000_0000;
    assert Pow256(7) == 0x100_0000_0000_0000;
  }

  // ---------------------------------------------------------------------------
  // The unrolled codecs, writing into a buffer in place.

  /** `s` with the bytes from `off` on overwritten by `t`; `t` may run past the end. */
  function Splice(s: seq<byte>, off: nat, t: seq<byte>): (r: seq<byte>)
    requires off <= |s|
    ensures |r| == if off + |t| <= |s| then |s| else off + |t|
  {
    s[..off] + t + (if off + |t| <= |s| then s[off + |t|..] else [])
  }

  /** Two adjacent overwrites are one overwrite. */
  lemma SpliceSplice(s: seq<byte>, off: nat, t: seq<byte>, u: seq<byte>)
    requires off <= |s|
    ensures Splice(Splice(s, off, t), off + |t|, u) == Splice(s, off, t + u)
  {
  }

  lemma SliceJoin(s: seq<byte>, a: nat, b: nat, c: nat)
    requires a <= b <= c <= |s|
    ensures s[a..b] + s[b..c] == s[a..c]
  {
  }

  lemma AppendSlice(x: seq<byte>, s: seq<byte>, n: nat, m: nat)
    requires n + m <= |s|
    ensures x + s[..n] + s[n..][..m] == x + s[..n + m]
  {
  }

  lemma SliceSlice(s: seq<byte>, a: nat, b: nat, c: nat, d: nat)
    requires a <= b <= |s| && c <= d <= b - a
    ensures s[a..b][c..d] == s[a + c..a + d]
  {
    assert forall i :: 0 <= i < d - c ==> s[a..b][c..d][i] == s[a + c + i] == s[a + c..a + d][i];
  }

  lemma DropHead(s: seq<byte>, a: nat, b: nat, x: seq<byte>, y: seq<byte>)
    requires a <= b <= |s| && s[a..b] == x + y
    ensures a + |x| <= b && s[a..a + |x|] == x && s[a + |x|..b] == y
  {
    assert |x| + |y| == b - a;
    SliceSlice(s, a, b, 0, |x|);
    SliceSlice(s, a, b, |x|, b - a);
    assert (x + y)[0..|x|] == x && (x + y)[|x|..b - a] == y;
  }

  lemma ConcatPrefix(x: seq<byte>, y: seq<byte>, n: nat)
    requires n <= |x|
    ensures (x + y)[..n] == x[..n]
  {
  }

  lemma SplicePrefix(s: seq<byte>, off: nat, t: seq<byte>)
    requires off <= |s|
    ensures Splice(s, off, t)[..off + |t|] == s[..off] + t
  {
  }

  lemma BigEndian2(n: nat)
    ensures BigEndian(n, 2) == [n / 0x100 % 256, n % 256]
  {
    assert BigEndian(n / 256, 1) == [n / 256 % 256];
  }

  lemma BigEndian4(n: nat)
    ensures BigEndian(n, 4) == [n / 0x100_0000 % 256, n / 0x1_0000 % 256, n / 0x100 % 256, n % 256]
  {
    BigEndian2(n / 256 / 256);
    assert BigEndian(n / 256, 3) == BigEndian(n / 256 / 256, 2) + [n / 256 % 256];
  }

  lemma MulMono(a: nat, b: nat, d: nat)
    requires a < b
    ensures a * d + d <= b * d
  {
    assert (b - a - 1) * d >= 0;
    assert b * d == (b - a - 1) * d + a * d + d;
  }

  lemma DivUnique(n: nat, d: nat, q: nat, r: nat)
    requires d > 0 && n == q * d + r && r < d
    ensures n / d == q && n % d == r
  {
    var q' := n / d;
    assert n == q' * d + n % d;
    if q < q' { MulMono(q, q', d); }
    if q' < q { MulMono(q', q, d); }
  }

  lemma DivDiv(n: nat, a: nat, b: nat)
    requires a > 0 && b > 0
    ensures a * b > 0
    ensures n / a / b == n / (a * b)
  {
    var q, r := n / a, n % a;
    var q', r' := q / b, q % b;
    assert a * b > 0;
    MulMono(r', b, a);
    assert n == q' * (a * b) + (r' * a + r) by { DivDivExpand(n, a, b, q, r, q', r'); }
    DivUnique(n, a * b, q', r' * a + r);
  }

  lemma DivDivExpand(n: nat, a: nat, b: nat, q: nat, r: nat, q': nat, r': nat)
    requires n == a * q + r && q == b * q' + r'
    ensures n == q' * (a * b) + (r' * a + r)
  {
    assert a * q == a * (b * q') + a * r';
    assert a * (b * q') == q' * (a * b);
  }

  lemma BigEndian8(n: nat)
    ensures BigEndian(n, 8) == [n / 0x100_0000_0000_0000 % 256, n / 0x1_0000_0000_0000 % 256,
                                n / 0x100_0000_0000 % 256, n / 0x1_0000_0000 % 256,
                                n / 0x100_0000 % 256, n / 0x1_0000 % 256, n / 0x100 % 256, n % 256]
  {
    var m := n / 0x1_0000_0000;
    var lo := [n / 0x100_0000 % 256, n / 0x1_0000 % 256, n / 0x100 % 256, n % 256];
    assert BigEndian(n, 8) == BigEndian(m, 4) + lo by {
      DivDiv(n, 0x100, 0x100);
      DivDiv(n, 0x1_0000, 0x100);
      DivDiv(n, 0x100_0000, 0x100);
      assert BigEndian(n / 0x100_0000, 5) == BigEndian(m, 4) + [n / 0x100_0000 % 256];
      assert BigEndian(n / 0x1_0000, 6) == BigEndian(n / 0x100_0000, 5) + [n / 0x1_0000 % 256];
      assert BigEndian(n / 0x100, 7) == BigEndian(n / 0x1_0000, 6) + [n / 0x100 % 256];
    }
    BigEndian4(m);
    DivDiv(n, 0x1_0000_0000, 0x100);
    DivDiv(n, 0x1_0000_0000, 0x1_0000);
    DivDiv(n, 0x1_0000_0000, 0x100_0000);
  }

  method WriteTo1(b: array<byte>, off: nat, data: nat)
    requires off + 1 <= b.Length && data < 0x100
    modifies b
    ensures b[..] == Splice(old(b[..]), off, BigEndian(data, 1))
  {
    b[off] := data % 256;
    assert BigEndian(data, 1) == [data % 256];
  }

  method WriteTo2(b: array<byte>, off: nat, data: nat)
    requires off + 2 <= b.Length && data < 0x1_0000
    modifies b
    ensures b[..] == Splice(old(b[..]), off, BigEndian(data, 2))
  {
    b[off] := data / 0x100 % 256;
    b[off + 1] := data % 256;
    BigEndian2(data);
  }

  method WriteTo4(b: array<byte>, off: nat, data: nat)
    requires off + 4 <= b.Length && data < 0x1_0000_0000
    modifies b
    ensures b[..] == Splice(old(b[..]), off, BigEndian(data, 4))
  {
    b[off] := data / 0x100_0000 % 256;
    b[off + 1] := data / 0x1_0000 % 256;
    b[off + 2] := data / 0x100 % 256;
    b[off + 3] := data % 256;
    BigEndian4(data);
  }

  lemma SpliceIs(s: seq<byte>, t: seq<byte>, off: nat, x: seq<byte>)
    requires off + |x| <= |s| == |t|
    requires forall i :: 0 <= i < |s| ==> t[i] == if off <= i < off + |x| then x[i - off] else s[i]
    ensures t == Splice(s, off, x)
  {
  }

  method WriteTo8(b: array<byte>, off: nat, data: nat)
    requires off + 8 <= b.Length && data < 0x1_0000_0000_0000_0000
    modifies b
    ensures b[..] == Splice(old(b[..]), off, BigEndian(data, 8))
  {
    hide BigEndian, Splice;
    b[off] := data / 0x100_0000_0000_0000 % 256;
    b[off + 1] := data / 0x1_0000_0000_0000 % 256;
    b[off + 2] := data / 0x100_0000_0000 % 256;
    b[off + 3] := data / 0x1_0000_0000 % 256;
    b[off + 4] := data / 0x100_0000 % 256;
    b[off + 5] := data / 0x1_0000 % 256;
    b[off + 6] := data / 0x100 % 256;
    b[off + 7] := data % 256;
    BigEndian8(data);
    SpliceIs(old(b[..]), b[..], off, BigEndian(data, 8));
  }

  lemma FromBigEndianLast(s: seq<byte>, n: nat)
    requires n < |s|
    ensures FromBigEndian(s[..n + 1]) == 256 * FromBigEndian(s[..n]) + s[n]
  {
    assert s[..n + 1][..n] == s[..n];
  }

  lemma FromBigEndian4(s: seq<byte>)
    requires |s| >= 4
    ensures FromBigEndian(s[..4]) ==
            0x100_0000 * (s[0] as int) + 0x1_0000 * (s[1] as int) + 0x100 * (s[2] as int) + s[3]
  {
    FromBigEndianLast(s, 0);
    FromBigEndianLast(s, 1);
    FromBigEndianLast(s, 2);
    FromBigEndianLast(s, 3);
  }

  lemma FromBigEndian8(s: seq<byte>)
    requires |s| >= 8
    ensures FromBigEndian(s[..8]) ==
            0x1_0000_0000 * FromBigEndian(s[..4]) +
            0x100_0000 * (s[4] as int) + 0x1_0000 * (s[5] as int) + 0x100 * (s[6] as int) + s[7]
  {
    FromBigEndianLast(s, 4);
    FromBigEndianLast(s, 5);
    FromBigEndianLast(s, 6);
    FromBigEndianLast(s, 7);
  }

  function ReadFrom1(s: seq<byte>, off: nat): (r: nat)
    requires off + 1 <= |s|
    ensures r == FromBigEndian(s[off..off + 1])
  {
    s[off]
  }

  function ReadFrom2(s: seq<byte>, off: nat): (r: nat)
    requires off + 2 <= |s|
    ensures r == FromBigEndian(s[off..off + 2])
  {
    var t := s[off..off + 2];
    FromBigEndianLast(t, 0);
    FromBigEndianLast(t, 1);
    assert t[..2] == t;
    0x100 * (s[off] as int) + s[off + 1]
  }

  function ReadFrom4(s: seq<byte>, off: nat): (r: nat)
    requires off + 4 <= |s|
    ensures r == FromBigEndian(s[off..off + 4])
  {
    FromBigEndian4(s[off..off + 4]);
    assert s[off..off + 4][..4] == s[off..off + 4];
    0x100_0000 * (s[off] as int) + 0x1_0000 * (s[off + 1] as int) + 0x100 * (s[off + 2] as int) + s[off + 3]
  }

  function ReadFrom8(s: seq<byte>, off: nat): (r: nat)
    requires off + 8 <= |s|
    ensures r == FromBigEndian(s[off..off + 8])
  {
    FromBigEndian4(s[off..off + 8]);
    FromBigEndian8(s[off..off + 8]);
    assert s[off..off + 8][..8] == s[off..off + 8];
    0x100_0000_0000_0000 * (s[off] as int) + 0x1_0000_0000_0000 * (s[off + 1] as int) +
    0x100_0000_0000 * (s[off + 2] as int) + 0x1_0000_0000 * (s[off + 3] as int) +
    0x100_0000 * (s[off + 4] as int) + 0x1_0000 * (s[off + 5] as int) +
    0x100 * (s[off + 6] as int) + s[off + 7]
  }

  // ---------------------------------------------------------------------------
  // Variable-length integers: seven bits a byte, low bits first, top bit set on
  // every byte but the last.

  function Variant(n: nat): (s: seq<byte>)
    ensures s != []
  {
    if n < 128 then [n] else [n % 128 + 128] + Variant(n / 128)
  }

  lemma Variant2(d: nat)
    requires 0x80 <= d < 0x4000
    ensures Variant(d) == [d % 128 + 128, d / 0x80]
  {
    assert Variant(d / 0x80) == [d / 0x80];
  }

  lemma Variant3(d: nat)
    requires 0x4000 <= d < 0x20_0000
    ensures Variant(d) == [d % 128 + 128, d / 0x80 % 128 + 128, d / 0x4000]
  {
    Variant2(d / 0x80);
    DivDiv(d, 0x80, 0x80);
  }

  lemma Variant4(d: nat)
    requires 0x20_0000 <= d < 0x1000_0000
    ensures Variant(d) == [d % 128 + 128, d / 0x80 % 128 + 128, d / 0x4000 % 128 + 128, d / 0x20_0000]
  {
    Variant3(d / 0x80);
    DivDiv(d, 0x80, 0x80);
    DivDiv(d, 0x80, 0x4000);
  }

  lemma Variant5(d: nat)
    requires 0x1000_0000 <= d < 0x1_0000_0000
    ensures Variant(d) == [d % 128 + 128, d / 0x80 % 128 + 128, d / 0x4000 % 128 + 128,
                           d / 0x20_0000 % 128 + 128, d / 0x1000_0000]
  {
    Variant4(d / 0x80);
    DivDiv(d, 0x80, 0x80);
    DivDiv(d, 0x80, 0x4000);
    DivDiv(d, 0x80, 0x20_0000);
  }

  method WriteVariant4(b: array<byte>, off: nat, data: nat) returns (n: nat)
    requires off + 5 <= b.Length && data < 0x1_0000_0000
    modifies b
    ensures b[..] == Splice(old(b[..]), off, Variant(data))
    ensures n == |Variant(data)| <= 5
  {
    if data < 0x80 {
      b[off] := data;
      n := 1;
    } else if data < 0x4000 {
      Variant2(data);
      b[off] := data % 128 + 128;
      b[off + 1] := data / 0x80;
      n := 2;
    } else if data < 0x20_0000 {
      Variant3(data);
      b[off] := data % 128 + 128;
      b[off + 1] := data / 0x80 % 128 + 128;
      b[off + 2] := data / 0x4000;
      n := 3;
    } else if data < 0x1000_0000 {
      Variant4(data);
      b[off] := data % 128 + 128;
      b[off + 1] := data / 0x80 % 128 + 128;
      b[off + 2] := data / 0x4000 % 128 + 128;
      b[off + 3] := data / 0x20_0000;
      n := 4;
    } else {
      Variant5(data);
      b[off] := data % 128 + 128;
      b[off + 1] := data / 0x80 % 128 + 128;
      b[off + 2] := data / 0x4000 % 128 + 128;
      b[off + 3] := data / 0x20_0000 % 128 + 128;
      b[off + 4] := data / 0x1000_0000;
      n := 5;
    }
    assert b[..] == Splice(old(b[..]), off, Variant(data));
  }

  function Pow128(k: nat): (p: nat)
    ensures p >= 1
  {
    if k == 0 then 1 else 128 * Pow128(k - 1)
  }

  /** The reader, with `left` bytes still to try, finds every byte it looks at: it stops at a
      byte below 128 or when it has tried them all. */
  predicate Readable(s: seq<byte>, left: nat)
  {
    left == 0 || (s != [] && (s[0] < 128 || Readable(s[1..], left - 1)))
  }

  /** The number whose groups of seven bits `s` starts with, if it ends within `left` bytes. */
  function Value(s: seq<byte>, left: nat): (v: Option<int>)
    requires Readable(s, left)
  {
    if left == 0 then None
    else if s[0] < 128 then Some(s[0])
    else
      match Value(s[1..], left - 1)
      case None => None
      case Some(v) => Some(s[0] - 128 + 128 * v)
  }

  /** The byte count the reader reports; one too many when no last byte came. */
  function Count(s: seq<byte>, left: nat): nat
    requires Readable(s, left)
  {
    if left == 0 || s[0] < 128 then 1 else 1 + Count(s[1..], left - 1)
  }

  /** A number truncated to the 32-bit word the reader gathers it in. */
  function Word(v: Option<int>): Option<int> {
    match v
    case None => None
    case Some(n) => Some(n % 0x1_0000_0000)
  }

  ghost predicate Gathered(whole: Option<int>, rest: Option<int>, res: int, weight: int) {
    whole == if rest == None then None else Some(res + weight * rest.value)
  }

  lemma GatherMore(whole: Option<int>, s: seq<byte>, left: nat, res: int, weight: int)
    requires left > 0 && Readable(s, left)
    requires Gathered(whole, Value(s, left), res, weight)
    ensures s[0] < 128 ==> whole == Some(res + (s[0] as int) * weight)
    ensures s[0] >= 128 ==>
              Gathered(whole, Value(s[1..], left - 1), res + (s[0] - 128) as int * weight, 128 * weight)
  {
    if s[0] >= 128 && Value(s[1..], left - 1).Some? {
      var d, v := s[0] - 128, Value(s[1..], left - 1).value;
      assert weight * (d + 128 * v) == d * weight + (128 * weight) * v;
    }
  }

  method ReadVariant4(b: array<byte>, off: nat) returns (value: Option<int>, n: nat)
    requires off <= b.Length && Readable(b[off..], 5)
    ensures value == Word(Value(b[off..], 5)) && n == Count(b[off..], 5)
  {
    ghost var s, k := b[off..], 0;
    var res: int, weight: int := 0, 1;
    var shift, p := 0, off;
    value := None;
    while shift <= 28
      invariant 0 <= k <= 5 && shift == 7 * k && p == off + k && k <= |s|
      invariant Readable(s[k..], 5 - k)
      invariant value == None
      invariant Gathered(Value(s, 5), Value(s[k..], 5 - k), res, weight)
      invariant Count(s, 5) == Count(s[k..], 5 - k) + k
      decreases 35 - shift
    {
      assert b[p] == s[k];
      GatherMore(Value(s, 5), s[k..], 5 - k, res, weight);
      assert s[k..][1..] == s[k + 1..];
      if b[p] < 128 {
        value := Some((res + (b[p] as int) * weight) % 0x1_0000_0000);
        break;
      }
      res := res + (b[p] - 128) as int * weight;
      weight := 128 * weight;
      p, k := p + 1, k + 1;
      shift := shift + 7;
    }
    n := p - off + 1;
  }

  lemma {:induction false} ReadWritten(x: nat, rest: seq<byte>, left: nat)
    requires left > 0 && x < Pow128(left)
    ensures Readable(Variant(x) + rest, left)
    ensures Value(Variant(x) + rest, left) == Some(x)
    ensures Count(Variant(x) + rest, left) == |Variant(x)|
  {
    if x >= 128 {
      assert (Variant(x) + rest)[1..] == Variant(x / 128) + rest;
      ReadWritten(x / 128, rest, left - 1);
    }
  }

  /** Reading back a written number gives the number and the byte count the writer returned,
      whatever follows it. */
  lemma ReadVariantOfVariant(x: nat, rest: seq<byte>)
    requires x < 0x1_0000_0000
    ensures Readable(Variant(x) + rest, 5)
    ensures Word(Value(Variant(x) + rest, 5)) == Some(x)
    ensures Count(Variant(x) + rest, 5) == |Variant(x)|
  {
    assert Pow128(4) == 0x1000_0000 && Pow128(5) == 0x8_0000_0000 by {
      assert Pow128(2) == 0x4000;
      assert Pow128(3) == 0x20_0000;
    }
    ReadWritten(x, rest, 5);
  }

  /** The reader gives no value exactly when every byte it tries announces another one. */
  lemma {:induction false} ReadVariantFails(s: seq<byte>, left: nat)
    requires Readable(s, left)
    ensures Value(s, left) == None <==> (|s| >= left && forall i :: 0 <= i < left ==> s[i] >= 128)
  {
    if left > 0 && s[0] >= 128 {
      ReadVariantFails(s[1..], left - 1);
      assert |s| >= left ==> forall i :: 0 < i < left ==> s[i] == s[1..][i - 1];
      assert |s| >= left ==> forall i :: 0 <= i < left - 1 ==> s[1..][i] == s[i + 1];
    }
  }

  function WriteAll(xs: seq<nat>): seq<byte> {
    if xs == [] then [] else Variant(xs[0]) + WriteAll(xs[1..])
  }

  /** Reads `count` numbers one after the other; `None` when a reader gave no value. */
  function ReadAll(s: seq<byte>, count: nat): (r: Option<(seq<int>, nat)>) {
    if count == 0 then Some(([], 0))
    else if !Readable(s, 5) || Value(s, 5) == None || Count(s, 5) > |s| then None
    else
      var n := Count(s, 5);
      match ReadAll(s[n..], count - 1)
      case None => None
      case Some((vs, m)) => Some(([Word(Value(s, 5)).value] + vs, n + m))
  }

  lemma ReadAllStep(x: nat, tail: seq<byte>, count: nat, vs: seq<int>, m: nat)
    requires x < 0x1_0000_0000
    requires ReadAll(tail, count) == Some((vs, m))
    ensures ReadAll(Variant(x) + tail, count + 1) == Some(([x] + vs, |Variant(x)| + m))
  {
    var s := Variant(x) + tail;
    ReadVariantOfVariant(x, tail);
    assert s[|Variant(x)|..] == tail;
  }

  /** Any run of written numbers reads back as the same run with the same byte count. */
  lemma {:induction false} ReadAllOfWriteAll(xs: seq<nat>, rest: seq<byte>)
    requires forall i :: 0 <= i < |xs| ==> xs[i] < 0x1_0000_0000
    ensures ReadAll(WriteAll(xs) + rest, |xs|) == Some((xs, |WriteAll(xs)|))
  {
    if xs != [] {
      var tail := WriteAll(xs[1..]) + rest;
      assert WriteAll(xs) + rest == Variant(xs[0]) + tail;
      ReadAllOfWriteAll(xs[1..], rest);
      var r := ReadAll(Variant(xs[0]) + tail, |xs|);
      assert r == Some(([xs[0]] + xs[1..], |Variant(xs[0])| + |WriteAll(xs[1..])|)) by {
        ReadAllStep(xs[0], tail, |xs| - 1, xs[1..], |WriteAll(xs[1..])|);
      }
      assert [xs[0]] + xs[1..] == xs;
    }
  }
}
