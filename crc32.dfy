/** The table-driven CRC-32 every tool carries a copy of (crc32Init / crc32Sum):
    reflected polynomial 0xEDB88320, register preset to 0xFFFFFFFF, result
    XORed with 0xFFFFFFFF -- the CRC-32 of ISO-HDLC / IEEE 802.3.

    The register is an unsigned number; the C operators become arithmetic:
    `c >> k` is `c / 2^k`, `c & 1` is `c % 2`, `c & 0xFF` is `c % 256`, and
    `^` is the bitwise exclusive or `Xor` defined here. */
module Crc32 {
  import opened Bytes

  const Poly: u32 := 0xEDB8_8320
  const InitXor: u32 := 0xFFFF_FFFF
  const FinalXor: u32 := 0xFFFF_FFFF

  function Pow2(k: nat): (p: nat)
    ensures p >= 1
  {
    if k == 0 then 1 else 2 * Pow2(k - 1)
  }

  lemma Pow2Values()
    ensures Pow2(8) == 256 && Pow2(32) == TwoTo32
  {
    assert Pow2(4) == 16;
    assert Pow2(8) == 256;
    assert Pow2(16) == 0x1_0000;
    assert Pow2(24) == 0x100_0000;
  }

  /** Bitwise exclusive or, lowest bit first. */
  function Xor(a: nat, b: nat): nat
    decreases a + b
  {
    if a == 0 then b
    else if b == 0 then a
    else 2 * Xor(a / 2, b / 2) + (if a % 2 == b % 2 then 0 else 1)
  }

  /** Every number splits into its lowest bit and the rest, zero included. */
  lemma XorSplit(a: nat, b: nat)
    ensures Xor(a, b) == 2 * Xor(a / 2, b / 2) + (if a % 2 == b % 2 then 0 else 1)
  {
    if a == 0 {
      assert Xor(0, b / 2) == b / 2;
    } else if b == 0 {
      assert Xor(a / 2, 0) == a / 2;
    }
  }

  lemma XorHalves(a: nat, b: nat)
    ensures Xor(a, b) / 2 == Xor(a / 2, b / 2)
    ensures Xor(a, b) % 2 == (if a % 2 == b % 2 then 0 else 1)
  {
    XorSplit(a, b);
  }

  lemma {:induction false} XorBound(a: nat, b: nat, k: nat)
    requires a < Pow2(k) && b < Pow2(k)
    ensures Xor(a, b) < Pow2(k)
    decreases k
  {
    if a != 0 && b != 0 {
      XorBound(a / 2, b / 2, k - 1);
      XorSplit(a, b);
    }
  }

  lemma {:induction false} XorComm(a: nat, b: nat)
    ensures Xor(a, b) == Xor(b, a)
    decreases a + b
  {
    if a != 0 && b != 0 {
      XorComm(a / 2, b / 2);
    }
  }

  lemma {:induction false} XorSelf(a: nat)
    ensures Xor(a, a) == 0
    decreases a
  {
    if a != 0 {
      XorSelf(a / 2);
    }
  }

  lemma {:induction false} XorAssoc(a: nat, b: nat, c: nat)
    ensures Xor(Xor(a, b), c) == Xor(a, Xor(b, c))
    decreases a + b + c
  {
    if a == 0 {
    } else if a + b + c > 0 {
      XorSplit(a, b);
      XorSplit(b, c);
      XorSplit(Xor(a, b), c);
      XorSplit(a, Xor(b, c));
      XorHalves(a, b);
      XorHalves(b, c);
      XorAssoc(a / 2, b / 2, c / 2);
    }
  }

  /** Xor of a multiple of 2^k with a number below 2^k is plain addition. */
  lemma {:induction false} XorDisjoint(q: nat, r: nat, k: nat)
    requires r < Pow2(k)
    ensures Xor(Pow2(k) * q, r) == Pow2(k) * q + r
    decreases k
  {
    if k > 0 {
      var m := Pow2(k - 1) * q;
      assert Pow2(k) * q == 2 * m;
      XorSplit(2 * m, r);
      XorDisjoint(q, r / 2, k - 1);
    } else {
      assert r == 0;
    }
  }

  /** XOR keeps 32-bit values within 32 bits. */
  lemma XorBound32(a: u32, b: u32)
    ensures Xor(a, b) < TwoTo32
  {
    Pow2Values();
    XorBound(a, b, 32);
  }

  /** XOR with k one bits subtracts from 2^k - 1. */
  lemma {:induction false} XorOnes(x: nat, k: nat)
    requires x < Pow2(k)
    ensures Xor(x, Pow2(k) - 1) == Pow2(k) - 1 - x
    decreases k
  {
    if k > 0 && x != 0 {
      XorSplit(x, Pow2(k) - 1);
      XorOnes(x / 2, k - 1);
    }
  }

  /** The final XOR of crc32Sum complements the register. */
  lemma FinalXorComplements(x: u32)
    ensures XorU32(x, FinalXor) == FinalXor - x
  {
    Pow2Values();
    XorOnes(x, 32);
  }

  /** One pass of crc32Init's inner loop: shift right, and XOR the polynomial
      in when the bit shifted out was set. */
  function Step(c: u32): (r: u32)
  {
    if c % 2 != 0 then
      XorBound32(c / 2, Poly);
      Xor(c / 2, Poly)
    else
      c / 2
  }

  /** k passes of Step. */
  function Steps(c: u32, k: nat): u32
  {
    if k == 0 then c else Step(Steps(c, k - 1))
  }

  /** crc32Table[n]: n shifted eight times through Step. */
  function TableEntry(n: int): u32
    requires 0 <= n < 256
  {
    Steps(n, 8)
  }

  function XorU32(a: u32, b: u32): (r: u32)
  {
    XorBound32(a, b);
    Xor(a, b)
  }

  /** The table index crc32Sum uses: (crc ^ b) & 0xFF. */
  function Index(crc: u32, b: byte): (i: int)
    ensures 0 <= i < 256
  {
    XorU32(crc, b as int) % 256
  }

  /** One iteration of crc32Sum's loop: (crc >> 8) ^ table[(crc ^ b) & 0xFF]. */
  function Update(crc: u32, b: byte): u32
  {
    XorU32(crc / 256, TableEntry(Index(crc, b)))
  }

  /** The register after the loop has run over s, starting from crc:
      a left fold of Update. */
  function Fold(crc: u32, s: seq<byte>): u32
  {
    if s == [] then crc else Update(Fold(crc, s[..|s| - 1]), s[|s| - 1])
  }

  /** crc32Sum(s, |s|): the register after the loop, XORed with FinalXor,
      which is all ones and so complements it (FinalXorComplements). */
  function Crc32(s: seq<byte>): (r: u32)
    ensures s == [] ==> r == 0
  {
    FinalXor - Fold(InitXor, s)
  }

  /** The left fold can be split anywhere: the register after a + b is the
      register after b started from the register after a. */
  lemma {:induction false} FoldAppend(crc: u32, a: seq<byte>, b: seq<byte>)
    ensures Fold(crc, a + b) == Fold(Fold(crc, a), b)
    decreases |b|
  {
    if b != [] {
      assert (a + b)[..|a + b| - 1] == a + b[..|b| - 1];
      FoldAppend(crc, a, b[..|b| - 1]);
    } else {
      assert a + b == a;
    }
  }

  // ---- the bit-serial reference: no table ----

  /** The textbook bit-at-a-time CRC-32 step: XOR the byte into the register,
      then shift eight times. */
  function BitwiseUpdate(crc: u32, b: byte): u32
  {
    Steps(XorU32(crc, b as int), 8)
  }

  function BitwiseFold(crc: u32, s: seq<byte>): u32
  {
    if s == [] then crc else BitwiseUpdate(BitwiseFold(crc, s[..|s| - 1]), s[|s| - 1])
  }

  /** The CRC-32 computed one bit at a time, without a table. */
  function BitwiseCrc32(s: seq<byte>): u32
  {
    XorU32(BitwiseFold(InitXor, s), FinalXor)
  }

  lemma StepLinear(a: u32, b: u32)
    ensures Step(XorU32(a, b)) == XorU32(Step(a), Step(b))
  {
    var x := XorU32(a, b);
    XorHalves(a, b);
    var ha, hb := a / 2, b / 2;
    if a % 2 != 0 && b % 2 == 0 {
      XorAssoc(ha, hb, Poly);
      XorComm(hb, Poly);
      XorAssoc(ha, Poly, hb);
    } else if a % 2 == 0 && b % 2 != 0 {
      XorAssoc(ha, hb, Poly);
    } else if a % 2 != 0 && b % 2 != 0 {
      // (ha ^ P) ^ (hb ^ P) == ha ^ hb
      XorAssoc(ha, Poly, Xor(hb, Poly));
      XorComm(hb, Poly);
      XorAssoc(Poly, Poly, hb);
      XorSelf(Poly);
    }
  }

  lemma {:induction false} StepsLinear(a: u32, b: u32, k: nat)
    ensures Steps(XorU32(a, b), k) == XorU32(Steps(a, k), Steps(b, k))
    decreases k
  {
    if k > 0 {
      StepsLinear(a, b, k - 1);
      StepLinear(Steps(a, k - 1), Steps(b, k - 1));
    }
  }

  /** An even register is only shifted. */
  lemma StepOfEven(x: u32, h: u32)
    requires x == 2 * h
    ensures Step(x) == h
  {
  }

  /** k + 1 steps are one step after k. */
  lemma StepsUnfold(x: u32, k: nat)
    ensures Steps(x, k + 1) == Step(Steps(x, k))
  {
  }

  /** Shifting a multiple of 256 eight times never XORs the polynomial in:
      it only divides by 256. */
  lemma StepsOfByteMultiple(q: nat)
    requires 256 * q < TwoTo32
    ensures Steps(256 * q, 8) == q
  {
    var x := 256 * q;
    StepsUnfold(x, 0);
    StepOfEven(x, 128 * q);
    StepsUnfold(x, 1);
    StepOfEven(128 * q, 64 * q);
    StepsUnfold(x, 2);
    StepOfEven(64 * q, 32 * q);
    StepsUnfold(x, 3);
    StepOfEven(32 * q, 16 * q);
    StepsUnfold(x, 4);
    StepOfEven(16 * q, 8 * q);
    StepsUnfold(x, 5);
    StepOfEven(8 * q, 4 * q);
    StepsUnfold(x, 6);
    StepOfEven(4 * q, 2 * q);
    StepsUnfold(x, 7);
    StepOfEven(2 * q, q);
  }

  /** XORing a byte into the register touches only its low eight bits. */
  lemma XorLowByte(crc: u32, b: byte)
    ensures Xor(crc % 256, b as int) < 256
    ensures XorU32(crc, b as int) == 256 * (crc / 256) + Xor(crc % 256, b as int)
  {
    Pow2Values();
    var q, r := crc / 256, crc % 256;
    assert crc == 256 * q + r;
    XorBound(r, b as int, 8);
    var x := Xor(r, b as int);
    XorDisjoint(q, r, 8);
    XorDisjoint(q, x, 8);
    XorAssoc(256 * q, r, b as int);
    calc {
      XorU32(crc, b as int);
      Xor(crc, b as int);
      Xor(Xor(256 * q, r), b as int);
      Xor(256 * q, x);
      256 * q + x;
    }
  }

  lemma SplitByte(q: nat, low: nat)
    requires low < 256
    ensures (256 * q + low) % 256 == low
  {
  }

  /** The table index is the low byte of crc ^ b. */
  lemma IndexIsLowByte(crc: u32, b: byte)
    ensures Index(crc, b) == Xor(crc % 256, b as int)
  {
    XorLowByte(crc, b);
    SplitByte(crc / 256, Xor(crc % 256, b as int));
  }

  /** The table-driven step equals the bit-serial step. */
  lemma UpdateIsBitwise(crc: u32, b: byte)
    ensures Update(crc, b) == BitwiseUpdate(crc, b)
  {
    XorLowByte(crc, b);
    IndexIsLowByte(crc, b);
    var q, low := crc / 256, Xor(crc % 256, b as int);
    Pow2Values();
    XorDisjoint(q, low, 8);
    var high: u32 := 256 * q;
    assert XorU32(crc, b as int) == XorU32(high, low);
    StepsOfByteMultiple(q);
    StepsLinear(high, low, 8);
    calc {
      BitwiseUpdate(crc, b);
      Steps(XorU32(high, low), 8);
      XorU32(Steps(high, 8), Steps(low, 8));
      XorU32(q, TableEntry(low));
      Update(crc, b);
    }
  }

  lemma {:induction false} FoldIsBitwise(crc: u32, s: seq<byte>)
    ensures Fold(crc, s) == BitwiseFold(crc, s)
    decreases |s|
  {
    if s != [] {
      FoldIsBitwise(crc, s[..|s| - 1]);
      UpdateIsBitwise(Fold(crc, s[..|s| - 1]), s[|s| - 1]);
    }
  }

  /** crc32Sum computes the standard bit-serial CRC-32. */
  lemma Crc32IsBitwise(s: seq<byte>)
    ensures Crc32(s) == BitwiseCrc32(s)
  {
    FoldIsBitwise(InitXor, s);
    FinalXorComplements(BitwiseFold(InitXor, s));
  }

  // ---- the imperative table ----

  /** The 256-entry lookup table, a static array in every tool. */
  class Crc32Table {
    var entries: array<u32>

    ghost predicate Ready()
      reads this, entries
    {
      entries.Length == 256 && forall n :: 0 <= n < 256 ==> entries[n] == TableEntry(n)
    }

    /** Static storage: 256 zero entries, not yet filled. */
    constructor ()
      ensures fresh(entries) && entries.Length == 256
    {
      entries := new u32[256];
    }

    /** crc32Init: fill entry n with n shifted eight times through Step. */
    method Init()
      requires entries.Length == 256
      modifies entries
      ensures Ready()
    {
      var n := 0;
      while n < 256
        invariant 0 <= n <= 256
        invariant forall m :: 0 <= m < n ==> entries[m] == TableEntry(m)
      {
        var c: u32 := n;
        var k := 0;
        while k < 8
          invariant 0 <= k <= 8
          invariant c == Steps(n, k)
        {
          if c % 2 != 0 {
            c := XorU32(c / 2, Poly);
          } else {
            c := c / 2;
          }
          k := k + 1;
        }
        entries[n] := c;
        n := n + 1;
      }
    }

    /** crc32Sum: run the table-driven loop over buffer and apply the final XOR. */
    method Sum(buffer: seq<byte>) returns (r: u32)
      requires Ready()
      ensures r == Crc32(buffer)
    {
      var crc: u32 := InitXor;
      var i := 0;
      while i < |buffer|
        invariant 0 <= i <= |buffer|
        invariant crc == Fold(InitXor, buffer[..i])
      {
        assert buffer[..i + 1][..i] == buffer[..i];
        crc := XorU32(crc / 256, entries[Index(crc, buffer[i])]);
        i := i + 1;
      }
      assert buffer[..i] == buffer;
      r := XorU32(crc, FinalXor);
      FinalXorComplements(crc);
    }
  }

  /** The variant in src/gpt.c: crc32Sum fills the table itself on first use,
      guarded by a static initDone flag. */
  class LazyCrc32 {
    var initDone: bool
    var table: Crc32Table

    ghost predicate Valid()
      reads this, table, table.entries
    {
      table.entries.Length == 256 && (initDone ==> table.Ready())
    }

    constructor ()
      ensures Valid() && !initDone && fresh(table) && fresh(table.entries)
    {
      initDone := false;
      table := new Crc32Table();
    }

    /** Same result as the eagerly initialised table; afterwards the table is ready. */
    method Sum(buffer: seq<byte>) returns (r: u32)
      requires Valid()
      modifies this, table.entries
      ensures Valid() && initDone && table == old(table)
      ensures r == Crc32(buffer)
    {
      if !initDone {
        table.Init();
        initDone := true;
      }
      r := table.Sum(buffer);
    }
  }
}
