/** The free-space allocator of mkpart: the used slots, sorted by their
    first sector, split the usable range [firstSector, lastSector] into
    gaps; a new partition goes into the first gap that is big enough
    (findGap) or at a caller-chosen sector that must start enough free
    space (checkGap). */
module Allocator {
  import opened Bytes
  import opened Layout
  import opened Entries

  /** The first and last sector of a used partition (get4LE at 32 and 40). */
  datatype Extent = Extent(start: u32, end: u32)

  /** A run of free sectors [addr, addr + size). */
  datatype Gap = Gap(addr: nat, size: nat)

  function ExtentOf(table: seq<byte>, k: int): Extent
    requires |table| == NumberPartBytes && 0 <= k < NumberPartEntries
  {
    Extent(Get4LE(table, SlotBase(k) + StartOffset), Get4LE(table, SlotBase(k) + EndOffset))
  }

  /** The extents of the used slots among the first k, in slot order. */
  function UsedBefore(table: seq<byte>, k: nat): (r: seq<Extent>)
    requires |table| == NumberPartBytes && k <= NumberPartEntries
    ensures |r| <= k
  {
    if k == 0 then []
    else UsedBefore(table, k - 1) + (if SlotUsed(table, k - 1) then [ExtentOf(table, k - 1)] else [])
  }

  /** The extents of all used slots of a table. */
  function Used(table: seq<byte>): (r: seq<Extent>)
    requires |table| == NumberPartBytes
    ensures |r| <= NumberPartEntries
  {
    UsedBefore(table, NumberPartEntries)
  }

  /** The collected extents are exactly the extents of used slots. */
  lemma {:induction false} UsedBeforeHas(table: seq<byte>, k: nat, x: Extent)
    requires |table| == NumberPartBytes && k <= NumberPartEntries
    ensures x in UsedBefore(table, k) <==>
            exists j :: 0 <= j < k && SlotUsed(table, j) && ExtentOf(table, j) == x
  {
    if k > 0 {
      UsedBeforeHas(table, k - 1, x);
      if x in UsedBefore(table, k) && !(SlotUsed(table, k - 1) && ExtentOf(table, k - 1) == x) {
        assert x in UsedBefore(table, k - 1);
      }
    }
  }

  /** compare(): ascending by first sector. */
  predicate SortedByStart(s: seq<Extent>)
  {
    forall i, j :: 0 <= i < j < |s| ==> s[i].start <= s[j].start
  }

  /** Insertion of x in front of the first extent that starts at or
      behind it. */
  function Insert(x: Extent, s: seq<Extent>): (r: seq<Extent>)
    ensures |r| == |s| + 1
  {
    if s == [] || x.start <= s[0].start then [x] + s
    else [s[0]] + Insert(x, s[1..])
  }

  /** Insertion adds x and keeps everything else. */
  lemma {:induction false} InsertPerm(x: Extent, s: seq<Extent>)
    ensures multiset(Insert(x, s)) == multiset(s) + multiset{x}
  {
    if !(s == [] || x.start <= s[0].start) {
      assert s == [s[0]] + s[1..];
      InsertPerm(x, s[1..]);
    }
  }

  /** Insertion keeps a sorted table sorted. */
  lemma {:induction false} InsertSorted(x: Extent, s: seq<Extent>)
    requires SortedByStart(s)
    ensures SortedByStart(Insert(x, s))
  {
    if s != [] && x.start > s[0].start {
      var t := Insert(x, s[1..]);
      InsertSorted(x, s[1..]);
      InsertPerm(x, s[1..]);
      var r := [s[0]] + t;
      forall j | 0 < j < |r|
        ensures s[0].start <= r[j].start
      {
        var y := t[j - 1];
        assert y in multiset(t);
        assert y in multiset(s[1..]) + multiset{x};
        if y != x {
          var k :| 0 <= k < |s[1..]| && s[1..][k] == y;
          assert s[k + 1] == y;
        }
      }
    }
  }

  /** The table qsort leaves. Among extents with the same first sector
      qsort may pick any order; this function keeps slot order. The lemmas
      about the gaps hold for every input order, but whether recordGaps
      succeeds can depend on that order (EqualStartsOrderDecides). */
  function SortByStart(s: seq<Extent>): (r: seq<Extent>)
    ensures |r| == |s|
  {
    if s == [] then [] else Insert(s[0], SortByStart(s[1..]))
  }

  /** The sorted table is sorted by first sector and a permutation of its
      input. */
  lemma {:induction false} SortByStartSorts(s: seq<Extent>)
    ensures SortedByStart(SortByStart(s))
    ensures multiset(SortByStart(s)) == multiset(s)
  {
    if s != [] {
      assert s == [s[0]] + s[1..];
      SortByStartSorts(s[1..]);
      InsertSorted(s[0], SortByStart(s[1..]));
      InsertPerm(s[0], SortByStart(s[1..]));
    }
  }

  /** The gap between prevTop and currBase, recorded only when not empty. */
  function GapBetween(lo: nat, hi: int): (g: seq<Gap>)
  {
    if hi > lo then [Gap(lo, hi - lo)] else []
  }

  function Prepend(g: seq<Gap>, r: Result<seq<Gap>>): Result<seq<Gap>>
  {
    match r
    case Ok(rest) => Ok(g + rest)
    case Err(f) => r
  }

  /** recordGaps, with prevTop = end + 1 and currBase = lastSector + 1
      computed without wrap-around and an extent that ends before it
      starts refused: the gaps around the extents s (in the given order)
      from prevTop on, or the fault that stops it. */
  function GapsFrom(s: seq<Extent>, prevTop: nat, last: nat): (r: Result<seq<Gap>>)
    ensures r.Ok? ==> |r.value| <= |s| + 1
    decreases |s|
  {
    if s == [] then
      if last + 1 < prevTop then Err(TooBig)
      else Ok(GapBetween(prevTop, last + 1))
    else if s[0].start < prevTop then Err(Overlapping)
    else if s[0].end + 1 < s[0].start then Err(BadExtent)
    else Prepend(GapBetween(prevTop, s[0].start), GapsFrom(s[1..], s[0].end + 1, last))
  }

  /** recordGaps exactly as written: 32-bit prevTop and currBase. */
  function GapsAsWrittenFrom(s: seq<Extent>, prevTop: u32, last: u32): (r: Result<seq<Gap>>)
    ensures r.Ok? ==> |r.value| <= |s| + 1
    decreases |s|
  {
    if s == [] then
      var currBase := Wrap32(last + 1);
      if currBase < prevTop then Err(TooBig)
      else Ok(GapBetween(prevTop, currBase))
    else if s[0].start < prevTop then Err(Overlapping)
    else Prepend(GapBetween(prevTop, s[0].start), GapsAsWrittenFrom(s[1..], Wrap32(s[0].end + 1), last))
  }

  /** Sector x lies in one of the gaps. */
  predicate InGaps(g: seq<Gap>, x: int)
  {
    exists i :: 0 <= i < |g| && g[i].addr <= x < g[i].addr + g[i].size
  }

  /** Sector x lies in one of the extents [start, end]. */
  predicate InUsed(s: seq<Extent>, x: int)
  {
    exists i :: 0 <= i < |s| && s[i].start <= x <= s[i].end
  }

  /** The condition under which recordGaps succeeds: every extent ends no
      earlier than one sector before it starts, each starts at or behind
      the end of the one before it (the first at or behind prevTop), and
      the last one ends by lastSector. */
  predicate Chained(s: seq<Extent>, prevTop: int, last: int)
  {
    (forall i :: 0 <= i < |s| ==> s[i].start <= s[i].end + 1)
    && (|s| > 0 ==> prevTop <= s[0].start)
    && (forall i :: 0 < i < |s| ==> s[i - 1].end + 1 <= s[i].start)
    && (if |s| == 0 then prevTop else s[|s| - 1].end + 1) <= last + 1
  }

  /** recordGaps succeeds exactly on chained extents. */
  lemma {:induction false} GapsOkIff(s: seq<Extent>, prevTop: nat, last: nat)
    ensures GapsFrom(s, prevTop, last).Ok? <==> Chained(s, prevTop, last)
    decreases |s|
  {
    if s != [] {
      GapsOkIff(s[1..], s[0].end + 1, last);
      if Chained(s, prevTop, last) {
        assert Chained(s[1..], s[0].end + 1, last) by {
          forall i | 0 < i < |s[1..]|
            ensures s[1..][i - 1].end + 1 <= s[1..][i].start
          {
            assert s[i].end + 1 <= s[i + 1].start;
          }
        }
      }
      if GapsFrom(s, prevTop, last).Ok? {
        assert Chained(s, prevTop, last) by {
          forall i | 0 < i < |s|
            ensures s[i - 1].end + 1 <= s[i].start
          {
            if i > 1 {
              assert s[1..][i - 2].end + 1 <= s[1..][i - 1].start;
            }
          }
          forall i | 0 <= i < |s|
            ensures s[i].start <= s[i].end + 1
          {
            if i > 0 {
              assert s[1..][i - 1] == s[i];
            }
          }
          if |s| > 1 {
            assert s[|s| - 1] == s[1..][|s[1..]| - 1];
          }
        }
      }
    }
  }

  /** Every extent of a successful run lies in [prevTop, lastSector]
      (an empty one [start, start - 1] just behind prevTop). */
  lemma {:induction false} ExtentsWithin(s: seq<Extent>, prevTop: nat, last: nat, i: int)
    requires GapsFrom(s, prevTop, last).Ok? && 0 <= i < |s|
    ensures prevTop <= s[i].start <= s[i].end + 1 <= last + 1
    decreases |s|
  {
    if i > 0 {
      ExtentsWithin(s[1..], s[0].end + 1, last, i - 1);
    } else if |s| > 1 {
      ExtentsWithin(s[1..], s[0].end + 1, last, 0);
    }
  }

  lemma InGapsAppend(g1: seq<Gap>, g2: seq<Gap>, x: int)
    ensures InGaps(g1 + g2, x) <==> InGaps(g1, x) || InGaps(g2, x)
  {
    var g := g1 + g2;
    if InGaps(g, x) {
      var i :| 0 <= i < |g| && g[i].addr <= x < g[i].addr + g[i].size;
      if i >= |g1| {
        assert g2[i - |g1|] == g[i];
      } else {
        assert g1[i] == g[i];
      }
    }
    if InGaps(g2, x) {
      var i :| 0 <= i < |g2| && g2[i].addr <= x < g2[i].addr + g2[i].size;
      assert g[|g1| + i] == g2[i];
    }
    if InGaps(g1, x) {
      var i :| 0 <= i < |g1| && g1[i].addr <= x < g1[i].addr + g1[i].size;
      assert g[i] == g1[i];
    }
  }

  lemma InUsedCons(s: seq<Extent>, x: int)
    requires s != []
    ensures InUsed(s, x) <==> (s[0].start <= x <= s[0].end) || InUsed(s[1..], x)
  {
    if InUsed(s, x) {
      var i :| 0 <= i < |s| && s[i].start <= x <= s[i].end;
      if i > 0 {
        assert s[1..][i - 1] == s[i];
      }
    }
    if InUsed(s[1..], x) {
      var i :| 0 <= i < |s[1..]| && s[1..][i].start <= x <= s[1..][i].end;
      assert s[i + 1] == s[1..][i];
    }
  }

  /** Gaps and used extents tile the usable range: after a successful
      run, a sector is in a gap exactly when it lies in [prevTop,
      lastSector] and in no extent. */
  lemma {:induction false} GapsTile(s: seq<Extent>, prevTop: nat, last: nat, x: int)
    requires GapsFrom(s, prevTop, last).Ok?
    ensures InGaps(GapsFrom(s, prevTop, last).value, x) <==> prevTop <= x <= last && !InUsed(s, x)
    decreases |s|
  {
    var g := GapsFrom(s, prevTop, last).value;
    if s == [] {
      assert g == GapBetween(prevTop, last + 1);
      if InGaps(g, x) {
        assert g[0].addr <= x < g[0].addr + g[0].size;
      }
    } else {
      var e := s[0];
      var head := GapBetween(prevTop, e.start);
      var rest := GapsFrom(s[1..], e.end + 1, last).value;
      assert g == head + rest;
      GapsTile(s[1..], e.end + 1, last, x);
      InGapsAppend(head, rest, x);
      InUsedCons(s, x);
      if InUsed(s[1..], x) {
        var i :| 0 <= i < |s[1..]| && s[1..][i].start <= x <= s[1..][i].end;
        ExtentsWithin(s[1..], e.end + 1, last, i);
      }
      if InGaps(head, x) {
        assert head[0].addr <= x < head[0].addr + head[0].size;
      }
      if prevTop <= x < e.start {
        assert head[0] == Gap(prevTop, e.start - prevTop);
      }
      ExtentsWithin(s, prevTop, last, 0);
    }
  }

  /** Every gap of a successful run is non-empty and lies in [prevTop,
      lastSector], and the gaps ascend without touching. */
  predicate Spaced(g: seq<Gap>, lo: int, hi: int)
  {
    (forall i :: 0 <= i < |g| ==> g[i].size > 0 && lo <= g[i].addr && g[i].addr + g[i].size <= hi)
    && (forall i, j :: 0 <= i < j < |g| ==> g[i].addr + g[i].size <= g[j].addr)
  }

  lemma {:induction false} GapsSpaced(s: seq<Extent>, prevTop: nat, last: nat)
    requires GapsFrom(s, prevTop, last).Ok?
    ensures Spaced(GapsFrom(s, prevTop, last).value, prevTop, last + 1)
    ensures |GapsFrom(s, prevTop, last).value| <= |s| + 1
    decreases |s|
  {
    if s != [] {
      var e := s[0];
      GapsSpaced(s[1..], e.end + 1, last);
      var head := GapBetween(prevTop, e.start);
      var rest := GapsFrom(s[1..], e.end + 1, last).value;
      assert GapsFrom(s, prevTop, last).value == head + rest;
      ExtentsWithin(s, prevTop, last, 0);
      SpacedPrepend(head, rest, prevTop, e.end + 1, last + 1);
    }
  }

  /** A gap that ends by mid, or none, in front of gaps spaced in [mid, hi)
      keeps them spaced in [lo, hi). */
  lemma SpacedPrepend(head: seq<Gap>, rest: seq<Gap>, lo: int, mid: int, hi: int)
    requires lo <= mid <= hi && Spaced(rest, mid, hi)
    requires head == [] || (|head| == 1 && head[0].size > 0 && lo <= head[0].addr && head[0].addr + head[0].size <= mid)
    ensures Spaced(head + rest, lo, hi)
  {
    var g := head + rest;
    forall i, j | 0 <= i < j < |g|
      ensures g[i].addr + g[i].size <= g[j].addr
    {
      if i >= |head| {
        assert g[i] == rest[i - |head|] && g[j] == rest[j - |head|];
      } else {
        assert g[j] == rest[j - 1];
      }
    }
    forall i | 0 <= i < |g|
      ensures g[i].size > 0 && lo <= g[i].addr && g[i].addr + g[i].size <= hi
    {
      if i >= |head| {
        assert g[i] == rest[i - |head|];
      }
    }
  }

  /** Where no end is 0xFFFFFFFF, no extent ends before it starts and
      lastSector is below 0xFFFFFFFF, the code as written computes the
      corrected gaps. */
  lemma {:induction false} AsWrittenAgrees(s: seq<Extent>, prevTop: u32, last: u32)
    requires last < 0xFFFF_FFFF
    requires forall i :: 0 <= i < |s| ==> s[i].end < 0xFFFF_FFFF && s[i].start <= s[i].end + 1
    ensures GapsAsWrittenFrom(s, prevTop, last) == GapsFrom(s, prevTop, last)
    decreases |s|
  {
    if s != [] {
      assert forall i :: 0 <= i < |s[1..]| ==> s[1..][i] == s[i + 1];
      AsWrittenAgrees(s[1..], s[0].end + 1, last);
    }
  }

  /** Finding: an entry that ends at sector 0xFFFFFFFF makes prevTop wrap
      to 0, so the overrun is not reported and the last gap covers the
      partition. */
  lemma WrapHidesOverrun()
    ensures GapsAsWrittenFrom([Extent(10, 0xFFFF_FFFF)], 0, 100) == Ok([Gap(0, 10), Gap(0, 101)])
    ensures InUsed([Extent(10, 0xFFFF_FFFF)], 20) && InGaps([Gap(0, 10), Gap(0, 101)], 20)
    ensures GapsFrom([Extent(10, 0xFFFF_FFFF)], 0, 100) == Err(TooBig)
  {
    var s := [Extent(10, 0xFFFF_FFFF)];
    assert s[1..] == [];
    assert Wrap32(0xFFFF_FFFF + 1) == 0 && Wrap32(100 + 1) == 101;
    assert GapsAsWrittenFrom([], 0, 100) == Ok([Gap(0, 101)]);
    assert GapsAsWrittenFrom(s, 0, 100) == Prepend([Gap(0, 10)], Ok([Gap(0, 101)]));
    assert [Gap(0, 10)] + [Gap(0, 101)] == [Gap(0, 10), Gap(0, 101)];
    assert [Gap(0, 10), Gap(0, 101)][1].addr <= 20 < 101;
    assert s[0].start <= 20 <= s[0].end;
  }

  /** Finding: an entry whose end lies before its start moves prevTop
      backwards, so a later gap covers an earlier partition. */
  lemma BackwardExtentHidesUse()
    ensures GapsAsWrittenFrom(BackwardTable(), 0, 100)
            == Ok([Gap(0, 10), Gap(51, 9), Gap(6, 64), Gap(81, 20)])
    ensures InUsed(BackwardTable(), 20) && InGaps([Gap(0, 10), Gap(51, 9), Gap(6, 64), Gap(81, 20)], 20)
    ensures GapsFrom(BackwardTable(), 0, 100) == Err(BadExtent)
  {
    var s := BackwardTable();
    assert s[1..] == [Extent(60, 5), Extent(70, 80)];
    assert s[1..][1..] == [Extent(70, 80)];
    assert s[1..][1..][1..] == [];
    assert Wrap32(51) == 51 && Wrap32(6) == 6 && Wrap32(81) == 81 && Wrap32(101) == 101;
    assert GapsAsWrittenFrom([], 81, 100) == Ok([Gap(81, 20)]);
    assert [Gap(6, 64)] + [Gap(81, 20)] == [Gap(6, 64), Gap(81, 20)];
    assert GapsAsWrittenFrom(s[1..][1..], 6, 100) == Ok([Gap(6, 64), Gap(81, 20)]);
    assert [Gap(51, 9)] + [Gap(6, 64), Gap(81, 20)] == [Gap(51, 9), Gap(6, 64), Gap(81, 20)];
    assert GapsAsWrittenFrom(s[1..], 51, 100) == Ok([Gap(51, 9), Gap(6, 64), Gap(81, 20)]);
    assert [Gap(0, 10)] + [Gap(51, 9), Gap(6, 64), Gap(81, 20)] == [Gap(0, 10), Gap(51, 9), Gap(6, 64), Gap(81, 20)];
    assert s[0].start <= 20 <= s[0].end;
    assert [Gap(0, 10), Gap(51, 9), Gap(6, 64), Gap(81, 20)][2].addr <= 20 < 70;
  }

  /** A last usable sector of 0xFFFFFFFF makes currBase wrap to 0 in the
      code as written: with an entry in use the run stops as if the
      topmost partition were too big, where GapsFrom records a final gap
      up to sector 2^32. */
  lemma LastSectorWraps()
    ensures GapsAsWrittenFrom([Extent(2048, 4095)], 2048, 0xFFFF_FFFF) == Err(TooBig)
    ensures GapsFrom([Extent(2048, 4095)], 2048, 0xFFFF_FFFF) == Ok([Gap(4096, TwoTo32 - 4096)])
  {
    var s := [Extent(2048, 4095)];
    assert s[1..] == [];
    assert Wrap32(0xFFFF_FFFF + 1) == 0 && Wrap32(4095 + 1) == 4096;
    assert GapsAsWrittenFrom([], 4096, 0xFFFF_FFFF) == Err(TooBig);
    assert GapsFrom([], 4096, 0xFFFF_FFFF) == Ok([Gap(4096, TwoTo32 - 4096)]);
    assert GapBetween(2048, 2048) == [];
    assert [] + [Gap(4096, TwoTo32 - 4096)] == [Gap(4096, TwoTo32 - 4096)];
  }

  function BackwardTable(): seq<Extent>
  {
    [Extent(10, 50), Extent(60, 5), Extent(70, 80)]
  }

  /** A zero-size entry [10, 9] and an entry [10, 20] start at the same
      sector, so both orders are tables qsort may leave. recordGaps
      succeeds on one order and stops with "overlapping partitions" on
      the other; the model sorts in slot order. */
  lemma EqualStartsOrderDecides()
    ensures SortedByStart([Extent(10, 9), Extent(10, 20)])
    ensures SortedByStart([Extent(10, 20), Extent(10, 9)])
    ensures SortByStart([Extent(10, 9), Extent(10, 20)]) == [Extent(10, 9), Extent(10, 20)]
    ensures SortByStart([Extent(10, 20), Extent(10, 9)]) == [Extent(10, 20), Extent(10, 9)]
    ensures GapsFrom([Extent(10, 9), Extent(10, 20)], 0, 100) == Ok([Gap(0, 10), Gap(21, 80)])
    ensures GapsFrom([Extent(10, 20), Extent(10, 9)], 0, 100) == Err(Overlapping)
    ensures GapsAsWrittenFrom([Extent(10, 9), Extent(10, 20)], 0, 100) == Ok([Gap(0, 10), Gap(21, 80)])
    ensures GapsAsWrittenFrom([Extent(10, 20), Extent(10, 9)], 0, 100) == Err(Overlapping)
  {
    var a, b := Extent(10, 9), Extent(10, 20);
    assert [a, b][1..] == [b] && [b, a][1..] == [a];
    assert [b][1..] == [] && [a][1..] == [];
    assert SortByStart([b]) == [b] && SortByStart([a]) == [a];
    assert Wrap32(9 + 1) == 10 && Wrap32(20 + 1) == 21 && Wrap32(100 + 1) == 101;
    assert GapBetween(10, 10) == [] && GapBetween(21, 101) == [Gap(21, 80)];
    assert [] + [Gap(21, 80)] == [Gap(21, 80)];
    assert GapsFrom([], 21, 100) == Ok([Gap(21, 80)]);
    assert GapsFrom([b], 10, 100) == Ok([Gap(21, 80)]);
    assert GapsAsWrittenFrom([], 21, 100) == Ok([Gap(21, 80)]);
    assert GapsAsWrittenFrom([b], 10, 100) == Ok([Gap(21, 80)]);
    assert [Gap(0, 10)] + [Gap(21, 80)] == [Gap(0, 10), Gap(21, 80)];
  }

  /** findGap's choice: the index of the first gap of at least size
      sectors, or |g| when none is that big. */
  function FitIndex(g: seq<Gap>, size: int): (i: nat)
    ensures i <= |g|
    ensures i < |g| ==> g[i].size >= size
    ensures forall j :: 0 <= j < i ==> g[j].size < size
  {
    if g == [] then 0
    else if g[0].size >= size then 0
    else 1 + FitIndex(g[1..], size)
  }

  /** checkGap: the first gap that contains addr decides; its top is
      computed in 32 bits. */
  function FitsAt(g: seq<Gap>, addr: int, size: int): bool
  {
    if g == [] then false
    else
      var top := Wrap32(g[0].addr + g[0].size);
      if g[0].addr <= addr < top then top - addr >= size
      else FitsAt(g[1..], addr, size)
  }

  /** Gap i holds addr and at least size sectors from addr on. */
  predicate RoomAt(g: seq<Gap>, i: int, addr: int, size: int)
    requires 0 <= i < |g|
  {
    g[i].addr <= addr < g[i].addr + g[i].size && g[i].addr + g[i].size - addr >= size
  }

  /** For spaced gaps that end below 2^32, checkGap holds exactly when
      some gap holds addr and at least size sectors from addr on. */
  lemma {:induction false} FitsAtIff(g: seq<Gap>, lo: int, hi: int, addr: int, size: int)
    requires Spaced(g, lo, hi) && 0 <= lo && hi < TwoTo32
    ensures FitsAt(g, addr, size) <==> exists i :: 0 <= i < |g| && RoomAt(g, i, addr, size)
  {
    if g != [] {
      assert Spaced(g[1..], lo, hi) by {
        assert forall i :: 0 <= i < |g[1..]| ==> g[1..][i] == g[i + 1];
      }
      FitsAtIff(g[1..], lo, hi, addr, size);
      var top := g[0].addr + g[0].size;
      assert Wrap32(top) == top;
      if g[0].addr <= addr < top {
        FirstGapDecides(g, lo, hi, addr, size);
      } else {
        RoomInTail(g, addr, size);
      }
    }
  }

  /** When the first of spaced gaps holds addr, no later one does. */
  lemma FirstGapDecides(g: seq<Gap>, lo: int, hi: int, addr: int, size: int)
    requires Spaced(g, lo, hi) && g != [] && g[0].addr <= addr < g[0].addr + g[0].size
    ensures (exists i :: 0 <= i < |g| && RoomAt(g, i, addr, size)) <==> RoomAt(g, 0, addr, size)
  {
    forall i | 0 < i < |g|
      ensures !RoomAt(g, i, addr, size)
    {
      assert g[0].addr + g[0].size <= g[i].addr;
    }
  }

  /** When the first gap does not hold addr, the rest decide. */
  lemma RoomInTail(g: seq<Gap>, addr: int, size: int)
    requires g != [] && !(g[0].addr <= addr < g[0].addr + g[0].size)
    ensures (exists i :: 0 <= i < |g| && RoomAt(g, i, addr, size))
            <==> exists i :: 0 <= i < |g[1..]| && RoomAt(g[1..], i, addr, size)
  {
    if exists i :: 0 <= i < |g| && RoomAt(g, i, addr, size) {
      var i :| 0 <= i < |g| && RoomAt(g, i, addr, size);
      assert i > 0 && g[1..][i - 1] == g[i];
      assert RoomAt(g[1..], i - 1, addr, size);
    }
    if exists i :: 0 <= i < |g[1..]| && RoomAt(g[1..], i, addr, size) {
      var i :| 0 <= i < |g[1..]| && RoomAt(g[1..], i, addr, size);
      assert g[i + 1] == g[1..][i];
      assert RoomAt(g, i + 1, addr, size);
    }
  }

  /** When checkGap accepts addr, the sectors [addr, addr + size) all lie
      in one gap. */
  lemma {:induction false} FitsAtInGap(g: seq<Gap>, addr: int, size: int)
    requires FitsAt(g, addr, size)
    ensures exists i :: 0 <= i < |g| && g[i].addr <= addr && addr + size <= g[i].addr + g[i].size
  {
    var top := Wrap32(g[0].addr + g[0].size);
    if g[0].addr <= addr < top {
      assert top <= g[0].addr + g[0].size;
    } else {
      FitsAtInGap(g[1..], addr, size);
      var i :| 0 <= i < |g[1..]| && g[1..][i].addr <= addr && addr + size <= g[1..][i].addr + g[1..][i].size;
      assert g[i + 1] == g[1..][i];
    }
  }

  /** Sector x is free: inside the usable range [first, last] and in no
      used extent. */
  predicate Free(s: seq<Extent>, first: int, last: int, x: int)
  {
    first <= x <= last && !InUsed(s, x)
  }

  /** Whatever sectors lie inside a recorded gap are free: inside the
      usable range and in no used extent. */
  lemma InsideGapIsFree(s: seq<Extent>, first: nat, last: nat, i: int, lo: int, n: int)
    requires GapsFrom(s, first, last).Ok?
    requires 0 <= i < |GapsFrom(s, first, last).value|
    requires GapsFrom(s, first, last).value[i].addr <= lo && lo + n <= GapsFrom(s, first, last).value[i].addr + GapsFrom(s, first, last).value[i].size
    ensures forall x :: lo <= x < lo + n ==> Free(s, first, last, x)
  {
    var g := GapsFrom(s, first, last).value;
    forall x | lo <= x < lo + n
      ensures Free(s, first, last, x)
    {
      assert g[i].addr <= x < g[i].addr + g[i].size;
      assert InGaps(g, x);
      GapsTile(s, first, last, x);
    }
  }

  /** The place findGap picks is free for size sectors. */
  lemma FirstFitIsFree(s: seq<Extent>, first: nat, last: nat, size: int)
    requires GapsFrom(s, first, last).Ok?
    requires FitIndex(GapsFrom(s, first, last).value, size) < |GapsFrom(s, first, last).value|
    ensures var g := GapsFrom(s, first, last).value;
            forall x :: g[FitIndex(g, size)].addr <= x < g[FitIndex(g, size)].addr + size ==> Free(s, first, last, x)
  {
    var g := GapsFrom(s, first, last).value;
    var i := FitIndex(g, size);
    InsideGapIsFree(s, first, last, i, g[i].addr, size);
  }

  /** The place checkGap accepts is free for size sectors. */
  lemma FitsAtIsFree(s: seq<Extent>, first: nat, last: nat, addr: int, size: int)
    requires GapsFrom(s, first, last).Ok? && FitsAt(GapsFrom(s, first, last).value, addr, size)
    ensures forall x :: addr <= x < addr + size ==> Free(s, first, last, x)
  {
    var g := GapsFrom(s, first, last).value;
    FitsAtInGap(g, addr, size);
    var i :| 0 <= i < |g| && g[i].addr <= addr && addr + size <= g[i].addr + g[i].size;
    InsideGapIsFree(s, first, last, i, addr, size);
  }

  lemma PrependNothing(r: Result<seq<Gap>>)
    ensures Prepend([], r) == r
  {
    if r.Ok? {
      assert [] + r.value == r.value;
    }
  }

  lemma PrependTwice(a: seq<Gap>, b: seq<Gap>, r: Result<seq<Gap>>)
    ensures Prepend(a, Prepend(b, r)) == Prepend(a + b, r)
  {
    if r.Ok? {
      assert a + (b + r.value) == (a + b) + r.value;
    }
  }

  /** The collecting loop of buildSortedTable: every slot whose type GUID
      is not all zero contributes its extent, in slot order. */
  method CollectUsed(table: array<byte>) returns (used: seq<Extent>)
    requires table.Length == NumberPartBytes
    ensures used == Used(table[..])
  {
    used := [];
    var i := 0;
    while i < NumberPartEntries
      invariant 0 <= i <= NumberPartEntries
      invariant used == UsedBefore(table[..], i)
    {
      var base := SlotBase(i);
      var guid := table[base..base + 16];
      assert guid == table[..][SlotBase(i)..SlotBase(i) + 16];
      var zero := IsZeroScan(guid);
      if !zero {
        used := used + [ExtentOf(table[..], i)];
      }
      i := i + 1;
    }
  }

  /** mkpart's allocator state: the sorted copy of the used entries and the
      gap table with its fill count. */
  class GapTable {
    var sorted: seq<Extent>
    const gaps: array<Gap>
    var numGaps: int

    ghost predicate Valid()
      reads this
    {
      gaps.Length == NumberPartEntries + 1 && 0 <= numGaps <= gaps.Length && |sorted| <= NumberPartEntries
    }

    constructor ()
      ensures Valid() && fresh(gaps) && sorted == [] && numGaps == 0
    {
      sorted := [];
      gaps := new Gap[NumberPartEntries + 1](_ => Gap(0, 0));
      numGaps := 0;
    }

    /** buildSortedTable: collect the extents of the used slots, in slot
        order, and sort them by first sector. */
    method BuildSortedTable(table: array<byte>)
      requires Valid() && table.Length == NumberPartBytes
      modifies this
      ensures Valid() && numGaps == old(numGaps)
      ensures sorted == SortByStart(Used(table[..]))
    {
      var used := CollectUsed(table);
      sorted := SortByStart(used);
    }

    /** recordGaps (corrected): walk the sorted extents, recording the gap
        in front of each and the one behind the last. */
    method RecordGaps(first: u32, last: u32) returns (c: Check)
      requires Valid()
      modifies this, gaps
      ensures Valid() && sorted == old(sorted)
      ensures match GapsFrom(sorted, first, last)
        case Ok(g) => c == Pass([]) && gaps[..numGaps] == g
        case Err(f) => c == Fail([], f)
    {
      numGaps := 0;
      var prevTop: nat := first;
      var i := 0;
      assert sorted[0..] == sorted && gaps[..0] == [];
      PrependNothing(GapsFrom(sorted, first, last));
      while i < |sorted|
        invariant 0 <= i <= |sorted| && 0 <= numGaps <= i && Valid() && sorted == old(sorted)
        invariant GapsFrom(sorted, first, last) == Prepend(gaps[..numGaps], GapsFrom(sorted[i..], prevTop, last))
      {
        assert sorted[i..][1..] == sorted[i + 1..] && sorted[i..][0] == sorted[i];
        var currBase := sorted[i].start;
        if currBase < prevTop {
          return Fail([], Overlapping);
        }
        if sorted[i].end + 1 < currBase {
          return Fail([], BadExtent);
        }
        ghost var head := GapBetween(prevTop, currBase);
        ghost var rest := GapsFrom(sorted[i + 1..], sorted[i].end + 1, last);
        assert GapsFrom(sorted[i..], prevTop, last) == Prepend(head, rest);
        PrependTwice(gaps[..numGaps], head, rest);
        ghost var before := gaps[..numGaps];
        var gapSize := currBase - prevTop;
        if gapSize != 0 {
          gaps[numGaps] := Gap(prevTop, gapSize);
          numGaps := numGaps + 1;
        }
        assert gaps[..numGaps] == before + head;
        prevTop := sorted[i].end + 1;
        i := i + 1;
      }
      var currBase := last + 1;
      if currBase < prevTop {
        return Fail([], TooBig);
      }
      var gapSize := currBase - prevTop;
      if gapSize != 0 {
        gaps[numGaps] := Gap(prevTop, gapSize);
        numGaps := numGaps + 1;
      }
      c := Pass([]);
    }

    /** buildGapTable. */
    method BuildGapTable(table: array<byte>, first: u32, last: u32) returns (c: Check)
      requires Valid() && table.Length == NumberPartBytes
      modifies this, gaps
      ensures Valid() && sorted == SortByStart(Used(table[..]))
      ensures match GapsFrom(sorted, first, last)
        case Ok(g) => c == Pass([]) && gaps[..numGaps] == g
        case Err(f) => c == Fail([], f)
    {
      BuildSortedTable(table);
      c := RecordGaps(first, last);
    }

    /** findGap: the address of the first gap of at least size sectors, or 0. */
    method FindGap(size: u32) returns (addr: int)
      requires Valid()
      ensures var i := FitIndex(gaps[..numGaps], size);
              addr == if i < numGaps then gaps[i].addr else 0
    {
      var i := 0;
      while i < numGaps
        invariant 0 <= i <= numGaps
        invariant forall j :: 0 <= j < i ==> gaps[j].size < size
      {
        if gaps[i].size >= size {
          FitIndexIs(gaps[..numGaps], size, i);
          return gaps[i].addr;
        }
        i := i + 1;
      }
      FitIndexIs(gaps[..numGaps], size, numGaps);
      return 0;
    }

    /** checkGap. */
    method CheckGap(addr: int, size: u32) returns (ok: bool)
      requires Valid()
      ensures ok == FitsAt(gaps[..numGaps], addr, size)
    {
      var i := 0;
      while i < numGaps
        invariant 0 <= i <= numGaps
        invariant FitsAt(gaps[..numGaps], addr, size) == FitsAt(gaps[i..numGaps], addr, size)
      {
        assert gaps[i..numGaps][1..] == gaps[i + 1..numGaps];
        var base := gaps[i].addr;
        var top := Wrap32(base + gaps[i].size);
        if addr >= base && addr < top {
          return top - addr >= size;
        }
        i := i + 1;
      }
      return false;
    }
  }

  /** The first-fit index is determined by the sizes in front of it. */
  lemma FitIndexIs(g: seq<Gap>, size: int, i: int)
    requires 0 <= i <= |g| && (i < |g| ==> g[i].size >= size)
    requires forall j :: 0 <= j < i ==> g[j].size < size
    ensures FitIndex(g, size) == i
  {
  }
}
