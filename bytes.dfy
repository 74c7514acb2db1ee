/** Raw byte buffers and the little-endian codec shared by every GPT tool:
    get4LE / put4LE / put8LE, isZero, the field exchange of mkgpt, and the
    memset / memcpy steps the tools perform on their sector buffers. */
module Bytes {

  newtype byte = x: int | 0 <= x < 256

  const TwoTo32: int := 0x1_0000_0000

  /** A C `unsigned int`. */
  type u32 = x: int | 0 <= x < TwoTo32

  /** Reduction modulo 2^32: what C unsigned arithmetic does on overflow. */
  function Wrap32(x: int): (r: u32)
    ensures 0 <= x < TwoTo32 ==> r == x
    ensures TwoTo32 <= x < 2 * TwoTo32 ==> r == x - TwoTo32
    ensures -TwoTo32 <= x < 0 ==> r == x + TwoTo32
    ensures 0 <= x ==> r <= x
  {
    x % TwoTo32
  }

  /** The four bytes put4LE stores for v, least significant first. */
  function Le4(v: u32): (b: seq<byte>)
    ensures |b| == 4
  {
    [(v % 256) as byte, (v / 0x100 % 256) as byte,
     (v / 0x1_0000 % 256) as byte, (v / 0x100_0000 % 256) as byte]
  }

  /** The eight bytes put8LE stores: v in the low word, zero in the high word. */
  function Le8(v: u32): (b: seq<byte>)
    ensures |b| == 8
  {
    Le4(v) + Le4(0)
  }

  /** get4LE: the unsigned value of the four little-endian bytes at off. */
  function Get4LE(s: seq<byte>, off: int): (v: u32)
    requires 0 <= off && off + 4 <= |s|
  {
    s[off] as int + 0x100 * s[off + 1] as int
      + 0x1_0000 * s[off + 2] as int + 0x100_0000 * s[off + 3] as int
  }

  lemma Get4LEOfLe4(v: u32)
    ensures Get4LE(Le4(v), 0) == v
  {
    var q1, q2, q3 := v / 0x100, v / 0x1_0000, v / 0x100_0000;
    assert q2 == q1 / 0x100 && q3 == q2 / 0x100 && q3 < 256;
    assert v == v % 256 + 0x100 * q1;
    assert q1 == q1 % 256 + 0x100 * q2;
    assert q2 == q2 % 256 + 0x100 * q3;
  }

  /** Euclidean division of lo + d * q by d, for a remainder lo below d. */
  lemma DivOfSum(lo: int, q: int, d: int)
    requires 0 <= lo < d
    ensures (lo + d * q) / d == q && (lo + d * q) % d == lo
  {
    var n := lo + d * q;
    var q', r' := n / d, n % d;
    assert d * q' + r' == n;
    assert d * (q' - q) == lo - r' by {
      assert d * (q' - q) == d * q' - d * q;
    }
    if q' - q >= 1 {
      MulAtLeast(d, q' - q);
    } else if q - q' >= 1 {
      MulAtLeast(d, q - q');
    }
  }

  lemma MulAtLeast(d: int, k: int)
    requires d > 0 && k >= 1
    ensures d * k >= d
  {
    assert d * k == d + d * (k - 1);
  }

  lemma Le4OfGet4LE(s: seq<byte>, off: int)
    requires 0 <= off && off + 4 <= |s|
    ensures Le4(Get4LE(s, off)) == s[off..off + 4]
  {
    var v := Get4LE(s, off);
    var b0, b1, b2, b3 := s[off] as int, s[off + 1] as int, s[off + 2] as int, s[off + 3] as int;
    assert v == b0 + 0x100 * (b1 + 0x100 * b2 + 0x1_0000 * b3);
    DivOfSum(b0, b1 + 0x100 * b2 + 0x1_0000 * b3, 0x100);
    DivOfSum(b1, b2 + 0x100 * b3, 0x100);
    assert v == b0 + 0x100 * b1 + 0x1_0000 * (b2 + 0x100 * b3);
    DivOfSum(b0 + 0x100 * b1, b2 + 0x100 * b3, 0x1_0000);
    DivOfSum(b2, b3, 0x100);
    assert v == b0 + 0x100 * b1 + 0x1_0000 * b2 + 0x100_0000 * b3;
    DivOfSum(b0 + 0x100 * b1 + 0x1_0000 * b2, b3, 0x100_0000);
    DivOfSum(b3, 0, 0x100);
  }

  /** get4LE reads only the four bytes it is pointed at. */
  lemma Get4LEOfSlice(s: seq<byte>, off: int, t: seq<byte>)
    requires 0 <= off && off + 4 <= |s|
    requires t == s[off..off + 4]
    ensures Get4LE(s, off) == Get4LE(t, 0)
  {
  }

  /** Big-endian value of a byte string, most significant byte first. */
  function BigEndian(s: seq<byte>): (v: nat)
  {
    if s == [] then 0 else BigEndian(s[..|s| - 1]) * 256 + s[|s| - 1] as nat
  }

  /** The four bytes of v, most significant first. */
  function Be4(v: u32): (b: seq<byte>)
    ensures |b| == 4
  {
    [(v / 0x100_0000 % 256) as byte, (v / 0x1_0000 % 256) as byte,
     (v / 0x100 % 256) as byte, (v % 256) as byte]
  }

  /** BigEndian of a four-byte string, written out. */
  lemma BigEndian4(b: seq<byte>)
    requires |b| == 4
    ensures BigEndian(b) == ((b[0] as nat * 256 + b[1] as nat) * 256 + b[2] as nat) * 256 + b[3] as nat
  {
    assert b[..3][..2][..1][..0] == [];
    assert b[..3][..2][..1] == [b[0]];
    assert b[..3][..2] == [b[0], b[1]];
    assert b[..3] == [b[0], b[1], b[2]];
    assert BigEndian([b[0]]) == b[0] as nat;
    assert BigEndian([b[0], b[1]]) == b[0] as nat * 256 + b[1] as nat;
    assert BigEndian([b[0], b[1], b[2]]) == (b[0] as nat * 256 + b[1] as nat) * 256 + b[2] as nat;
  }

  lemma BigEndianOfBe4(v: u32)
    ensures BigEndian(Be4(v)) == v
  {
    var b := Be4(v);
    BigEndian4(b);
    var q1, q2, q3 := v / 0x100, v / 0x1_0000, v / 0x100_0000;
    assert q2 == q1 / 0x100 && q3 == q2 / 0x100 && q3 < 256;
    assert b[0] as nat == q3 && b[1] as nat == q2 % 256 && b[2] as nat == q1 % 256 && b[3] as nat == v % 256;
    assert q2 == q3 * 256 + q2 % 256;
    assert q1 == q2 * 256 + q1 % 256;
    assert v == q1 * 256 + v % 256;
  }

  /** The C string held in s: the bytes before the first NUL, or all of s. */
  function CString(s: seq<byte>): (r: seq<byte>)
    ensures |r| <= |s| && r == s[..|r|]
    ensures forall i :: 0 <= i < |r| ==> r[i] != 0
    ensures |r| < |s| ==> s[|r|] == 0
  {
    if s == [] || s[0] == 0 then [] else [s[0]] + CString(s[1..])
  }

  predicate IsZero(s: seq<byte>)
  {
    forall i :: 0 <= i < |s| ==> s[i] == 0
  }

  function Zeros(n: nat): (z: seq<byte>)
    ensures |z| == n && IsZero(z)
  {
    seq(n, _ => 0)
  }

  /** Bitwise OR of two bytes, lowest bit first. */
  function Or(a: nat, b: nat): (r: nat)
    decreases a + b
  {
    if a == 0 then b
    else if b == 0 then a
    else 2 * Or(a / 2, b / 2) + (if a % 2 == 1 || b % 2 == 1 then 1 else 0)
  }

  lemma {:induction false} OrZero(a: nat, b: nat)
    ensures Or(a, b) == 0 <==> a == 0 && b == 0
  {
    if a != 0 && b != 0 {
      assert a % 2 == 1 || a / 2 > 0;
      if a % 2 == 0 && b % 2 == 0 {
        OrZero(a / 2, b / 2);
      }
    }
  }

  /** isZero: OR all bytes together and test the result against zero. */
  method IsZeroScan(buf: seq<byte>) returns (zero: bool)
    ensures zero <==> IsZero(buf)
  {
    var res: nat := 0;
    var i := 0;
    while i < |buf|
      invariant 0 <= i <= |buf|
      invariant res == 0 <==> IsZero(buf[..i])
    {
      OrZero(res, buf[i] as nat);
      assert buf[..i + 1] == buf[..i] + [buf[i]];
      res := Or(res, buf[i] as nat);
      i := i + 1;
    }
    assert buf[..i] == buf;
    zero := res == 0;
  }

  /** s with the bytes of x written over it from offset off on. */
  function Splice(s: seq<byte>, off: int, x: seq<byte>): (r: seq<byte>)
    requires 0 <= off && off + |x| <= |s|
    ensures |r| == |s|
  {
    s[..off] + x + s[off + |x|..]
  }

  /** The written range holds x. */
  lemma SpliceSlice(s: seq<byte>, off: int, x: seq<byte>)
    requires 0 <= off && off + |x| <= |s|
    ensures Splice(s, off, x)[off..off + |x|] == x
  {
  }

  lemma SpliceAt(s: seq<byte>, off: int, x: seq<byte>, i: int)
    requires 0 <= off && off + |x| <= |s| && 0 <= i < |s|
    ensures Splice(s, off, x)[i] == if off <= i < off + |x| then x[i - off] else s[i]
  {
  }

  /** A sequence that holds x at off and s everywhere else is s with x
      written at off. */
  lemma SpliceOfParts(s: seq<byte>, off: int, x: seq<byte>, t: seq<byte>)
    requires 0 <= off && off + |x| <= |s| && |t| == |s|
    requires forall j :: 0 <= j < |x| ==> t[off + j] == x[j]
    requires forall j :: 0 <= j < |s| && !(off <= j < off + |x|) ==> t[j] == s[j]
    ensures t == Splice(s, off, x)
  {
    forall j | 0 <= j < |s|
      ensures t[j] == Splice(s, off, x)[j]
    {
      SpliceAt(s, off, x, j);
      if off <= j < off + |x| {
        assert t[off + (j - off)] == x[j - off];
      }
    }
  }

  /** Writing leaves everything before the written range as it was. */
  lemma SplicePrefix(s: seq<byte>, off: int, x: seq<byte>, k: int)
    requires 0 <= off && off + |x| <= |s| && 0 <= k <= off
    ensures Splice(s, off, x)[..k] == s[..k]
    ensures Splice(s, off, x)[..off + |x|] == s[..off] + x
  {
  }

  /** get4LE after put4LE: the value written is the value read. */
  lemma Get4LEOfSplice(s: seq<byte>, off: int, v: u32)
    requires 0 <= off && off + 4 <= |s|
    ensures Get4LE(Splice(s, off, Le4(v)), off) == v
  {
    var r := Splice(s, off, Le4(v));
    assert r[off..off + 4] == Le4(v);
    Get4LEOfLe4(v);
    Get4LEOfSlice(r, off, Le4(v));
  }

  /** get4LE at a field the write did not touch reads the old value. */
  lemma Get4LEOfSpliceElsewhere(s: seq<byte>, off: int, x: seq<byte>, at: int)
    requires 0 <= off && off + |x| <= |s| && 0 <= at && at + 4 <= |s|
    requires at + 4 <= off || off + |x| <= at
    ensures Get4LE(Splice(s, off, x), at) == Get4LE(s, at)
  {
    var r := Splice(s, off, x);
    assert r[at] == s[at] && r[at + 1] == s[at + 1] && r[at + 2] == s[at + 2] && r[at + 3] == s[at + 3];
  }

  /** A write that starts inside (or right behind) an earlier one and
      reaches at least as far merges with it into a single write. */
  lemma SpliceExtend(s: seq<byte>, off: int, x: seq<byte>, k: int, y: seq<byte>)
    requires 0 <= off && 0 <= k <= |x| <= k + |y| && off + k + |y| <= |s|
    ensures Splice(Splice(s, off, x), off + k, y) == Splice(s, off, x[..k] + y)
  {
    var r := Splice(Splice(s, off, x), off + k, y);
    var t := Splice(s, off, x[..k] + y);
    forall i | 0 <= i < |s|
      ensures r[i] == t[i]
    {
      SpliceAt(Splice(s, off, x), off + k, y, i);
      SpliceAt(s, off, x, i);
      SpliceAt(s, off, x[..k] + y, i);
    }
  }

  /** Two adjacent writes are one write of both. */
  lemma SpliceAppend(s: seq<byte>, off: int, x: seq<byte>, y: seq<byte>)
    requires 0 <= off && off + |x| + |y| <= |s|
    ensures Splice(Splice(s, off, x), off + |x|, y) == Splice(s, off, x + y)
  {
    SpliceExtend(s, off, x, |x|, y);
    assert x[..|x|] == x;
  }

  /** A write of a whole buffer replaces it. */
  lemma SpliceWhole(s: seq<byte>, x: seq<byte>)
    requires |x| == |s|
    ensures Splice(s, 0, x) == x
  {
    assert s[..0] == [] && s[|x|..] == [];
  }

  /** Two writes of the same width at the same place: the second wins. */
  lemma SpliceTwice(s: seq<byte>, off: int, x: seq<byte>, y: seq<byte>)
    requires 0 <= off && off + |x| <= |s| && |y| == |x|
    ensures Splice(Splice(s, off, x), off, y) == Splice(s, off, y)
  {
    var r := Splice(s, off, x);
    assert r[..off] == s[..off];
    assert r[off + |x|..] == s[off + |x|..];
  }

  /** A write that falls inside an earlier one is a write into the earlier
      one's bytes. */
  lemma SpliceNested(s: seq<byte>, off: int, x: seq<byte>, k: int, y: seq<byte>)
    requires 0 <= off && 0 <= k && k + |y| <= |x| && off + |x| <= |s|
    ensures Splice(Splice(s, off, x), off + k, y) == Splice(s, off, Splice(x, k, y))
  {
    var r := Splice(Splice(s, off, x), off + k, y);
    var t := Splice(s, off, Splice(x, k, y));
    forall i | 0 <= i < |s|
      ensures r[i] == t[i]
    {
      SpliceAt(Splice(s, off, x), off + k, y, i);
      SpliceAt(s, off, x, i);
      SpliceAt(s, off, Splice(x, k, y), i);
      if off <= i < off + |x| {
        SpliceAt(x, k, y, i - off);
      }
    }
  }

  /** A single-byte store inside a written range is a store into x. */
  lemma SpliceUpdate(s: seq<byte>, off: int, x: seq<byte>, k: int, v: byte)
    requires 0 <= off && 0 <= k < |x| && off + |x| <= |s|
    ensures Splice(s, off, x)[off + k := v] == Splice(s, off, x[k := v])
  {
    var r := Splice(s, off, x)[off + k := v];
    var t := Splice(s, off, x[k := v]);
    forall i | 0 <= i < |s|
      ensures r[i] == t[i]
    {
      SpliceAt(s, off, x, i);
      SpliceAt(s, off, x[k := v], i);
    }
  }

  /** Writing y behind a prefix p and a run of g zeros uses up zeros. */
  lemma SpliceOverZeros(p: seq<byte>, g: nat, y: seq<byte>, n: nat)
    requires g + |y| <= n
    ensures Splice(p + Zeros(n), |p| + g, y) == p + Zeros(g) + y + Zeros(n - g - |y|)
  {
    var r := Splice(p + Zeros(n), |p| + g, y);
    var t := p + Zeros(g) + y + Zeros(n - g - |y|);
    forall i | 0 <= i < |r|
      ensures r[i] == t[i]
    {
      SpliceAt(p + Zeros(n), |p| + g, y, i);
    }
  }

  /** Writing back what is already there changes nothing. */
  lemma SpliceSame(s: seq<byte>, off: int, n: int)
    requires 0 <= off && 0 <= n && off + n <= |s|
    ensures Splice(s, off, s[off..off + n]) == s
  {
    assert s == s[..off] + s[off..off + n] + s[off + n..];
  }

  /** put4LE in place. */
  method Put4LE(a: array<byte>, off: int, v: u32)
    requires 0 <= off && off + 4 <= a.Length
    modifies a
    ensures a[..] == Splice(old(a[..]), off, Le4(v))
  {
    a[off] := (v % 256) as byte;
    a[off + 1] := (v / 0x100 % 256) as byte;
    a[off + 2] := (v / 0x1_0000 % 256) as byte;
    a[off + 3] := (v / 0x100_0000 % 256) as byte;
    assert a[..] == Splice(old(a[..]), off, Le4(v)) by {
      forall i | 0 <= i < a.Length
        ensures a[i] == Splice(old(a[..]), off, Le4(v))[i]
      {
        SpliceAt(old(a[..]), off, Le4(v), i);
      }
    }
  }

  /** put8LE in place: the low word is v, the high word zero. */
  method Put8LE(a: array<byte>, off: int, v: u32)
    requires 0 <= off && off + 8 <= a.Length
    modifies a
    ensures a[..] == Splice(old(a[..]), off, Le8(v))
  {
    ghost var s0 := a[..];
    Put4LE(a, off, v);
    Put4LE(a, off + 4, 0);
    forall i | 0 <= i < a.Length
      ensures a[i] == Splice(s0, off, Le8(v))[i]
    {
      SpliceAt(s0, off, Le8(v), i);
      SpliceAt(s0, off, Le4(v), i);
      SpliceAt(Splice(s0, off, Le4(v)), off + 4, Le4(0), i);
    }
  }

  /** s with the n bytes at o1 and the n bytes at o2 exchanged. */
  function SwapRanges(s: seq<byte>, o1: int, o2: int, n: nat): (r: seq<byte>)
    requires 0 <= o1 && o1 + n <= o2 && o2 + n <= |s|
    ensures |r| == |s|
  {
    Splice(Splice(s, o1, s[o2..o2 + n]), o2, s[o1..o1 + n])
  }

  lemma SwapAt(s: seq<byte>, o1: int, o2: int, n: nat, i: int)
    requires 0 <= o1 && o1 + n <= o2 && o2 + n <= |s|
    requires 0 <= i < |s|
    ensures SwapRanges(s, o1, o2, n)[i] ==
      if o1 <= i < o1 + n then s[i - o1 + o2]
      else if o2 <= i < o2 + n then s[i - o2 + o1]
      else s[i]
  {
    var t := Splice(s, o1, s[o2..o2 + n]);
    SpliceAt(s, o1, s[o2..o2 + n], i);
    SpliceAt(t, o2, s[o1..o1 + n], i);
  }

  /** The two 4-byte exchanges of xchg8LE, byte by byte: the two 8-byte
      fields change places. */
  lemma SwapPairAt(s: seq<byte>, o1: int, o2: int, i: int)
    requires 0 <= o1 && o1 + 8 <= o2 && o2 + 8 <= |s| && 0 <= i < |s|
    ensures SwapRanges(SwapRanges(s, o1, o2, 4), o1 + 4, o2 + 4, 4)[i] ==
      if o1 <= i < o1 + 8 then s[i - o1 + o2]
      else if o2 <= i < o2 + 8 then s[i - o2 + o1]
      else s[i]
  {
    var s1 := SwapRanges(s, o1, o2, 4);
    SwapAt(s1, o1 + 4, o2 + 4, 4, i);
    if o1 + 4 <= i < o1 + 8 {
      SwapAt(s, o1, o2, 4, i - o1 + o2);
    } else if o2 + 4 <= i < o2 + 8 {
      SwapAt(s, o1, o2, 4, i - o2 + o1);
    } else {
      SwapAt(s, o1, o2, 4, i);
    }
  }

  /** Exchanging the same two fields twice gives the buffer back. */
  lemma SwapRangesTwice(s: seq<byte>, o1: int, o2: int, n: nat)
    requires 0 <= o1 && o1 + n <= o2 && o2 + n <= |s|
    ensures SwapRanges(SwapRanges(s, o1, o2, n), o1, o2, n) == s
  {
    var r := SwapRanges(s, o1, o2, n);
    var t := SwapRanges(r, o1, o2, n);
    forall i | 0 <= i < |s|
      ensures t[i] == s[i]
    {
      SwapAt(r, o1, o2, n, i);
      if o1 <= i < o1 + n {
        SwapAt(s, o1, o2, n, i - o1 + o2);
      } else if o2 <= i < o2 + n {
        SwapAt(s, o1, o2, n, i - o2 + o1);
      } else {
        SwapAt(s, o1, o2, n, i);
      }
    }
  }

  /** xchg4LE: read both words, write each into the other's place. */
  method Xchg4LE(a: array<byte>, o1: int, o2: int)
    requires 0 <= o1 && o1 + 4 <= o2 && o2 + 4 <= a.Length
    modifies a
    ensures a[..] == SwapRanges(old(a[..]), o1, o2, 4)
  {
    ghost var s0 := a[..];
    var v1 := Get4LE(a[..], o1);
    var v2 := Get4LE(a[..], o2);
    Le4OfGet4LE(s0, o1);
    Le4OfGet4LE(s0, o2);
    Put4LE(a, o1, v2);
    ghost var s1 := a[..];
    Put4LE(a, o2, v1);
    ghost var want := SwapRanges(s0, o1, o2, 4);
    forall i | 0 <= i < a.Length
      ensures a[i] == want[i]
    {
      SwapAt(s0, o1, o2, 4, i);
      SpliceAt(s0, o1, Le4(v2), i);
      SpliceAt(s1, o2, Le4(v1), i);
      if o1 <= i < o1 + 4 {
        assert s0[o2..o2 + 4][i - o1] == s0[i - o1 + o2];
      } else if o2 <= i < o2 + 4 {
        assert s0[o1..o1 + 4][i - o2] == s0[i - o2 + o1];
      }
    }
  }

  /** xchg8LE done twice on the same two fields gives the buffer back. */
  lemma SwapPairTwice(s: seq<byte>, o1: int, o2: int)
    requires 0 <= o1 && o1 + 8 <= o2 && o2 + 8 <= |s|
    ensures var x := SwapRanges(SwapRanges(s, o1, o2, 4), o1 + 4, o2 + 4, 4);
      SwapRanges(SwapRanges(x, o1, o2, 4), o1 + 4, o2 + 4, 4) == s
  {
    var x := SwapRanges(SwapRanges(s, o1, o2, 4), o1 + 4, o2 + 4, 4);
    var y := SwapRanges(SwapRanges(x, o1, o2, 4), o1 + 4, o2 + 4, 4);
    forall i | 0 <= i < |s|
      ensures y[i] == s[i]
    {
      SwapPairAt(x, o1, o2, i);
      if o1 <= i < o1 + 8 {
        SwapPairAt(s, o1, o2, i - o1 + o2);
      } else if o2 <= i < o2 + 8 {
        SwapPairAt(s, o1, o2, i - o2 + o1);
      } else {
        SwapPairAt(s, o1, o2, i);
      }
    }
  }

  /** xchg8LE: exchange two 8-byte fields as two 4-byte exchanges, low
      words first. */
  method Xchg8LE(a: array<byte>, o1: int, o2: int)
    requires 0 <= o1 && o1 + 8 <= o2 && o2 + 8 <= a.Length
    modifies a
    ensures a[..] == SwapRanges(SwapRanges(old(a[..]), o1, o2, 4), o1 + 4, o2 + 4, 4)
  {
    Xchg4LE(a, o1, o2);
    Xchg4LE(a, o1 + 4, o2 + 4);
  }

  /** memset(&a[off], 0, len). */
  method ZeroFill(a: array<byte>, off: int, len: int)
    requires 0 <= off && 0 <= len && off + len <= a.Length
    modifies a
    ensures a[..] == Splice(old(a[..]), off, Zeros(len))
  {
    var i := off;
    while i < off + len
      invariant off <= i <= off + len
      invariant forall j :: off <= j < i ==> a[j] == 0
      invariant forall j :: 0 <= j < a.Length && !(off <= j < i) ==> a[j] == old(a[j])
    {
      a[i] := 0;
      i := i + 1;
    }
    forall j | 0 <= j < a.Length
      ensures a[j] == Splice(old(a[..]), off, Zeros(len))[j]
    {
      SpliceAt(old(a[..]), off, Zeros(len), j);
    }
  }

  /** memcpy(&a[off], src, |src|). */
  method CopyInto(a: array<byte>, off: int, src: seq<byte>)
    requires 0 <= off && off + |src| <= a.Length
    modifies a
    ensures a[..] == Splice(old(a[..]), off, src)
  {
    var i := 0;
    while i < |src|
      invariant 0 <= i <= |src|
      invariant forall j :: 0 <= j < i ==> a[off + j] == src[j]
      invariant forall j :: 0 <= j < a.Length && !(off <= j < off + i) ==> a[j] == old(a[j])
    {
      a[off + i] := src[i];
      i := i + 1;
    }
    forall j | 0 <= j < a.Length
      ensures a[j] == Splice(old(a[..]), off, src)[j]
    {
      SpliceAt(old(a[..]), off, src, j);
    }
  }
}
