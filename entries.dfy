/** The partition entry array: 128 slots of 128 bytes. A slot holds the
    partition type GUID, the unique partition GUID, the first and last
    sector and the attribute word (each as 8 little-endian bytes of which
    the tools use the low four), and a name of 36 UTF-16 units of which the
    tools use only the low byte. A slot whose type GUID is all zero is
    unused. */
module Entries {
  import opened Bytes
  import opened Layout
  import opened Guid

  const UniqOffset := 16
  const StartOffset := 32
  const EndOffset := 40
  const AttrOffset := 48
  const NameOffset := 56
  /** Name units a reader scans. */
  const NameUnits := 36
  /** Characters a writer stores at most; the 36th unit stays NUL. */
  const MaxNameChars := 35

  /** A partition entry as the tools exchange it (GptEntry): the GUIDs as the
      16 bytes of a uuid_t, the first and last sector, the attribute word and
      the name as a byte string. */
  datatype Entry = Entry(typeGuid: seq<byte>, uniqGuid: seq<byte>,
                         start: u32, end: u32, attr: u32, name: seq<byte>)

  predicate GuidsOk(e: Entry)
  {
    |e.typeGuid| == 16 && |e.uniqGuid| == 16
  }

  /** Byte offset of slot k, which holds partition number k + 1. */
  function SlotBase(k: int): int
  {
    k * SizeofPartEntry
  }

  /** !isZero(slot, 16): the slot's type GUID is not all zero. */
  predicate SlotUsed(table: seq<byte>, k: int)
    requires |table| == NumberPartBytes && 0 <= k < NumberPartEntries
  {
    !IsZero(table[SlotBase(k)..SlotBase(k) + 16])
  }

  /** The name a reader collects from the units starting at at: the low
      bytes up to the first NUL, at most n of them. */
  function NameFrom(s: seq<byte>, at: int, n: nat): (r: seq<byte>)
    requires 0 <= at && at + 2 * n <= |s|
    ensures |r| <= n
    ensures forall i :: 0 <= i < |r| ==> r[i] != 0 && r[i] == s[at + 2 * i]
    ensures |r| < n ==> s[at + 2 * |r|] == 0
    decreases n
  {
    if n == 0 || s[at] == 0 then [] else [s[at]] + NameFrom(s, at + 2, n - 1)
  }

  /** The name a writer stores: the C string, cut to 35 characters. */
  function StoredName(name: seq<byte>): (r: seq<byte>)
    ensures |r| <= MaxNameChars && |r| <= |CString(name)| && r == CString(name)[..|r|]
    ensures |r| < MaxNameChars ==> r == CString(name)
  {
    var c := CString(name);
    if |c| <= MaxNameChars then c else c[..MaxNameChars]
  }

  /** Characters widened to 16-bit little-endian units. */
  function Widen(c: seq<byte>): (r: seq<byte>)
    ensures |r| == 2 * |c|
  {
    if c == [] then [] else [c[0], 0] + Widen(c[1..])
  }

  lemma {:induction false} WidenAt(c: seq<byte>, j: int)
    requires 0 <= j < 2 * |c|
    ensures Widen(c)[j] == if j % 2 == 0 then c[j / 2] else 0
  {
    if j >= 2 {
      WidenAt(c[1..], j - 2);
    }
  }

  /** The 72-byte name area holding the characters c. */
  function NameField(c: seq<byte>): (r: seq<byte>)
    requires |c| <= NameUnits
    ensures |r| == 2 * NameUnits
  {
    Widen(c) + Zeros(2 * (NameUnits - |c|))
  }

  lemma NameFieldAt(c: seq<byte>, j: int)
    requires |c| <= NameUnits && 0 <= j < 2 * NameUnits
    ensures NameField(c)[j] == if j % 2 == 0 && j / 2 < |c| then c[j / 2] else 0
  {
    if j < 2 * |c| {
      WidenAt(c, j);
    }
  }

  /** Storing character i of c into the area that holds c[..i] gives the
      area that holds c[..i + 1]. */
  lemma NameFieldStep(c: seq<byte>, i: int)
    requires 0 <= i < |c| && i < NameUnits
    ensures NameField(c[..i])[2 * i := c[i]] == NameField(c[..i + 1])
  {
    var r := NameField(c[..i])[2 * i := c[i]];
    forall j | 0 <= j < 2 * NameUnits
      ensures r[j] == NameField(c[..i + 1])[j]
    {
      NameFieldAt(c[..i], j);
      NameFieldAt(c[..i + 1], j);
    }
  }

  /** The 56 bytes in front of the name. */
  function EntryHead(e: Entry): (r: seq<byte>)
    requires GuidsOk(e)
    ensures |r| == NameOffset
  {
    CopyLE(e.typeGuid) + CopyLE(e.uniqGuid) + Le8(e.start) + Le8(e.end) + Le8(e.attr)
  }

  /** The 128 bytes gptSetEntry leaves in a slot for e. */
  function EncodeEntry(e: Entry): (r: seq<byte>)
    requires GuidsOk(e)
    ensures |r| == SizeofPartEntry
  {
    EntryHead(e) + NameField(StoredName(e.name))
  }

  /** The entry gptGetEntry reads from the slot at base. */
  function DecodeEntry(s: seq<byte>, base: int): (e: Entry)
    requires 0 <= base && base + SizeofPartEntry <= |s|
    ensures GuidsOk(e)
  {
    Entry(CopyLE(s[base..base + 16]), CopyLE(s[base + UniqOffset..base + 32]),
          Get4LE(s, base + StartOffset), Get4LE(s, base + EndOffset), Get4LE(s, base + AttrOffset),
          NameFrom(s, base + NameOffset, NameUnits))
  }

  /** The name a reader collects is the widened string a writer stored,
      provided a NUL unit follows it. */
  lemma {:induction false} NameFromWidened(s: seq<byte>, at: int, n: nat, c: seq<byte>)
    requires 0 <= at && at + 2 * n <= |s| && |c| < n
    requires forall j :: 0 <= j < |c| ==> c[j] != 0 && s[at + 2 * j] == c[j]
    requires s[at + 2 * |c|] == 0
    ensures NameFrom(s, at, n) == c
    decreases |c|
  {
    if c != [] {
      assert s[at + 2 * 0] == c[0];
      forall j | 0 <= j < |c[1..]|
        ensures c[1..][j] != 0 && s[at + 2 + 2 * j] == c[1..][j]
      {
        assert s[at + 2 * (j + 1)] == c[j + 1];
      }
      assert s[at + 2 + 2 * |c[1..]|] == s[at + 2 * |c|];
      NameFromWidened(s, at + 2, n - 1, c[1..]);
      assert c == [c[0]] + c[1..];
    }
  }

  /** A reader depends on nothing but the slot's 128 bytes. */
  lemma DecodeReadsSlot(s: seq<byte>, b1: int, t: seq<byte>, b2: int)
    requires 0 <= b1 && b1 + SizeofPartEntry <= |s| && 0 <= b2 && b2 + SizeofPartEntry <= |t|
    requires s[b1..b1 + SizeofPartEntry] == t[b2..b2 + SizeofPartEntry]
    ensures DecodeEntry(s, b1) == DecodeEntry(t, b2)
  {
    var w := s[b1..b1 + SizeofPartEntry];
    assert forall k :: b1 <= k < b1 + SizeofPartEntry ==> s[k] == t[k - b1 + b2] by {
      forall k | b1 <= k < b1 + SizeofPartEntry
        ensures s[k] == t[k - b1 + b2]
      {
        assert s[k] == w[k - b1] == t[k - b1 + b2];
      }
    }
    SameSlice(s, b1, t, b2, 16);
    SameSlice(s, b1 + 16, t, b2 + 16, 16);
    assert Get4LE(s, b1 + StartOffset) == Get4LE(t, b2 + StartOffset);
    assert Get4LE(s, b1 + EndOffset) == Get4LE(t, b2 + EndOffset);
    assert Get4LE(s, b1 + AttrOffset) == Get4LE(t, b2 + AttrOffset);
    NameReadsUnits(s, b1 + NameOffset, t, b2 + NameOffset, NameUnits);
  }

  lemma SameSlice(s: seq<byte>, b1: int, t: seq<byte>, b2: int, n: nat)
    requires 0 <= b1 && b1 + n <= |s| && 0 <= b2 && b2 + n <= |t|
    requires forall k :: b1 <= k < b1 + n ==> s[k] == t[k - b1 + b2]
    ensures s[b1..b1 + n] == t[b2..b2 + n]
  {
    var x, y := s[b1..b1 + n], t[b2..b2 + n];
    forall j | 0 <= j < n
      ensures x[j] == y[j]
    {
      assert s[b1 + j] == t[b1 + j - b1 + b2];
    }
  }

  /** A reader looks only at the low bytes of the n units. */
  lemma {:induction false} NameReadsUnits(s: seq<byte>, a1: int, t: seq<byte>, a2: int, n: nat)
    requires 0 <= a1 && a1 + 2 * n <= |s| && 0 <= a2 && a2 + 2 * n <= |t|
    requires forall k :: a1 <= k < a1 + 2 * n ==> s[k] == t[k - a1 + a2]
    ensures NameFrom(s, a1, n) == NameFrom(t, a2, n)
    decreases n
  {
    if n > 0 {
      assert s[a1] == t[a2];
      NameReadsUnits(s, a1 + 2, t, a2 + 2, n - 1);
    }
  }

  /** Reading back an encoded entry gives the entry, with its name as stored. */
  lemma DecodeOfEncode(e: Entry)
    requires GuidsOk(e)
    ensures DecodeEntry(EncodeEntry(e), 0) == e.(name := StoredName(e.name))
  {
    EncodedHead(e);
    EncodedName(e);
  }

  lemma EncodedHead(e: Entry)
    requires GuidsOk(e)
    ensures CopyLE(EncodeEntry(e)[0..16]) == e.typeGuid
    ensures CopyLE(EncodeEntry(e)[16..32]) == e.uniqGuid
    ensures Get4LE(EncodeEntry(e), StartOffset) == e.start
    ensures Get4LE(EncodeEntry(e), EndOffset) == e.end
    ensures Get4LE(EncodeEntry(e), AttrOffset) == e.attr
  {
    var x := EncodeEntry(e);
    assert x[0..16] == CopyLE(e.typeGuid);
    assert x[16..32] == CopyLE(e.uniqGuid);
    CopyLETwice(e.typeGuid);
    CopyLETwice(e.uniqGuid);
    assert x[32..36] == Le4(e.start);
    assert x[40..44] == Le4(e.end);
    assert x[48..52] == Le4(e.attr);
    Get4LEOfSlice(x, 32, Le4(e.start));
    Get4LEOfSlice(x, 40, Le4(e.end));
    Get4LEOfSlice(x, 48, Le4(e.attr));
    Get4LEOfLe4(e.start);
    Get4LEOfLe4(e.end);
    Get4LEOfLe4(e.attr);
  }

  lemma EncodedName(e: Entry)
    requires GuidsOk(e)
    ensures NameFrom(EncodeEntry(e), NameOffset, NameUnits) == StoredName(e.name)
  {
    var x := EncodeEntry(e);
    var c := StoredName(e.name);
    var f := NameField(c);
    assert x[NameOffset..] == f;
    forall j | 0 <= j < |c|
      ensures c[j] != 0 && x[NameOffset + 2 * j] == c[j]
    {
      NameFieldAt(c, 2 * j);
      assert x[NameOffset + 2 * j] == f[2 * j];
    }
    NameFieldAt(c, 2 * |c|);
    assert x[NameOffset + 2 * |c|] == f[2 * |c|];
    NameFromWidened(x, NameOffset, NameUnits, c);
  }

  /** gptGetEntry after gptSetEntry on the same slot. */
  lemma DecodeEncoded(s: seq<byte>, base: int, e: Entry)
    requires GuidsOk(e) && 0 <= base && base + SizeofPartEntry <= |s|
    ensures DecodeEntry(Splice(s, base, EncodeEntry(e)), base) == e.(name := StoredName(e.name))
  {
    var x := EncodeEntry(e);
    SpliceSlice(s, base, x);
    assert x[0..SizeofPartEntry] == x;
    DecodeReadsSlot(Splice(s, base, x), base, x, 0);
    DecodeOfEncode(e);
  }

  /** Writing one slot leaves every other slot reading as before. */
  lemma DecodeOtherSlot(s: seq<byte>, base: int, x: seq<byte>, other: int)
    requires 0 <= base && base + |x| <= |s| && 0 <= other && other + SizeofPartEntry <= |s|
    requires other + SizeofPartEntry <= base || base + |x| <= other
    ensures DecodeEntry(Splice(s, base, x), other) == DecodeEntry(s, other)
  {
    var t := Splice(s, base, x);
    forall j | other <= j < other + SizeofPartEntry
      ensures t[j] == s[j]
    {
      SpliceAt(s, base, x, j);
    }
    assert t[other..other + SizeofPartEntry] == s[other..other + SizeofPartEntry];
    DecodeReadsSlot(t, other, s, other);
  }

  lemma {:induction false} NameFromFull(s: seq<byte>, at: int, n: nat, c: seq<byte>)
    requires 0 <= at && at + 2 * n <= |s| && |c| == n
    requires forall j :: 0 <= j < |c| ==> c[j] != 0 && s[at + 2 * j] == c[j]
    ensures NameFrom(s, at, n) == c
    decreases |c|
  {
    if c != [] {
      assert s[at + 2 * 0] == c[0];
      forall j | 0 <= j < |c[1..]|
        ensures c[1..][j] != 0 && s[at + 2 + 2 * j] == c[1..][j]
      {
        assert s[at + 2 * (j + 1)] == c[j + 1];
      }
      NameFromFull(s, at + 2, n - 1, c[1..]);
      assert c == [c[0]] + c[1..];
    }
  }

  /** The name loop of gptSetEntry and mkPartition: at most 35 characters,
      each into the low byte of its unit, stopping after the first NUL. The
      callers have cleared the slot, so the high bytes and the units behind
      the name stay zero. */
  method PutName(a: array<byte>, at: int, name: seq<byte>)
    requires 0 <= at && at + 2 * NameUnits <= a.Length
    requires forall j :: at <= j < at + 2 * NameUnits ==> a[j] == 0
    modifies a
    ensures a[..] == Splice(old(a[..]), at, NameField(StoredName(name)))
  {
    ghost var s0 := a[..];
    ghost var c := CString(name);
    assert s0[at..at + 2 * NameUnits] == NameField([]);
    SpliceSame(s0, at, 2 * NameUnits);
    var i := 0;
    while i < MaxNameChars
      invariant 0 <= i <= MaxNameChars && i <= |c|
      invariant a[..] == Splice(s0, at, NameField(c[..i]))
    {
      var ch := if i < |name| then name[i] else 0;
      ghost var before := a[..];
      a[at + 2 * i] := ch;
      if ch == 0 {
        assert i == |c|;
        NameFieldAt(c[..i], 2 * i);
        SpliceAt(s0, at, NameField(c[..i]), at + 2 * i);
        assert a[..] == before;
        break;
      }
      assert i < |c| && ch == c[i];
      SpliceUpdate(s0, at, NameField(c[..i]), 2 * i, ch);
      NameFieldStep(c, i);
      i := i + 1;
    }
    assert c[..i] == StoredName(name);
  }

  /** The steps gptSetEntry takes on slot base once the partition number
      has been checked: clear the slot, store both GUIDs in disk order, the
      first and last sector, the attribute word, and the name. */
  method PutEntry(a: array<byte>, base: int, e: Entry)
    requires GuidsOk(e) && 0 <= base && base + SizeofPartEntry <= a.Length
    modifies a
    ensures a[..] == Splice(old(a[..]), base, EncodeEntry(e))
  {
    ghost var s0 := a[..];
    ZeroFill(a, base, SizeofPartEntry);
    ghost var img := Zeros(SizeofPartEntry);
    UuidCopyLE(a, base, e.typeGuid);
    SpliceNested(s0, base, img, 0, CopyLE(e.typeGuid));
    img := Splice(img, 0, CopyLE(e.typeGuid));
    UuidCopyLE(a, base + UniqOffset, e.uniqGuid);
    SpliceNested(s0, base, img, UniqOffset, CopyLE(e.uniqGuid));
    img := Splice(img, UniqOffset, CopyLE(e.uniqGuid));
    Put4LE(a, base + StartOffset, e.start);
    SpliceNested(s0, base, img, StartOffset, Le4(e.start));
    img := Splice(img, StartOffset, Le4(e.start));
    Put4LE(a, base + EndOffset, e.end);
    SpliceNested(s0, base, img, EndOffset, Le4(e.end));
    img := Splice(img, EndOffset, Le4(e.end));
    Put4LE(a, base + AttrOffset, e.attr);
    SpliceNested(s0, base, img, AttrOffset, Le4(e.attr));
    img := Splice(img, AttrOffset, Le4(e.attr));
    HeadWrites(e);
    ClearedNameArea(s0, base, EntryHead(e), a[..]);
    PutName(a, base + NameOffset, e.name);
    SpliceNested(s0, base, img, NameOffset, NameField(StoredName(e.name)));
    NameOverZeros(EntryHead(e), NameField(StoredName(e.name)));
  }

  /** The five field stores over a cleared slot leave the entry's head in
      front of a cleared name area. */
  lemma HeadWrites(e: Entry)
    requires GuidsOk(e)
    ensures Splice(Splice(Splice(Splice(Splice(Zeros(SizeofPartEntry), 0, CopyLE(e.typeGuid)),
              UniqOffset, CopyLE(e.uniqGuid)), StartOffset, Le4(e.start)), EndOffset, Le4(e.end)),
              AttrOffset, Le4(e.attr))
            == EntryHead(e) + Zeros(2 * NameUnits)
  {
    var z := Zeros(SizeofPartEntry);
    assert z == [] + Zeros(SizeofPartEntry);
    SpliceOverZeros([], 0, CopyLE(e.typeGuid), SizeofPartEntry);
    var p1 := CopyLE(e.typeGuid);
    assert [] + Zeros(0) + p1 == p1;
    SpliceOverZeros(p1, 0, CopyLE(e.uniqGuid), 112);
    var p2 := p1 + CopyLE(e.uniqGuid);
    assert p1 + Zeros(0) + CopyLE(e.uniqGuid) == p2;
    SpliceOverZeros(p2, 0, Le4(e.start), 96);
    var p3 := p2 + Le4(e.start);
    assert p2 + Zeros(0) + Le4(e.start) == p3;
    SpliceOverZeros(p3, 4, Le4(e.end), 92);
    var p4 := p3 + Zeros(4) + Le4(e.end);
    SpliceOverZeros(p4, 4, Le4(e.attr), 84);
    assert Le4(0) == Zeros(4);
    assert p4 + Zeros(4) + Le4(e.attr) + Zeros(76) == EntryHead(e) + Zeros(72);
  }

  /** A slot holding head in front of a cleared name area has zeros there. */
  lemma ClearedNameArea(s0: seq<byte>, base: int, head: seq<byte>, t: seq<byte>)
    requires |head| == NameOffset && 0 <= base && base + SizeofPartEntry <= |s0|
    requires t == Splice(s0, base, head + Zeros(2 * NameUnits))
    ensures forall j :: base + NameOffset <= j < base + SizeofPartEntry ==> t[j] == 0
  {
    forall j | base + NameOffset <= j < base + SizeofPartEntry
      ensures t[j] == 0
    {
      SpliceAt(s0, base, head + Zeros(2 * NameUnits), j);
    }
  }

  lemma NameOverZeros(head: seq<byte>, f: seq<byte>)
    requires |head| == NameOffset && |f| == 2 * NameUnits
    ensures Splice(head + Zeros(2 * NameUnits), NameOffset, f) == head + f
  {
    SpliceOverZeros(head, 0, f, 2 * NameUnits);
    assert head + Zeros(0) + f + Zeros(0) == head + f;
  }

  /** The name loop of gptGetEntry and showPartTable: up to 36 units, low
      bytes only, stopping at the first NUL. */
  method ReadName(a: array<byte>, at: int) returns (name: seq<byte>)
    requires 0 <= at && at + 2 * NameUnits <= a.Length
    ensures name == NameFrom(a[..], at, NameUnits)
  {
    name := [];
    var j := 0;
    while j < NameUnits
      invariant 0 <= j <= NameUnits && |name| == j
      invariant name + NameFrom(a[..], at + 2 * j, NameUnits - j) == NameFrom(a[..], at, NameUnits)
    {
      var ch := a[at + 2 * j];
      if ch == 0 {
        break;
      }
      name := name + [ch];
      j := j + 1;
    }
  }

  /** The reading steps of gptGetEntry on slot base. */
  method GetFields(a: array<byte>, base: int) returns (e: Entry)
    requires 0 <= base && base + SizeofPartEntry <= a.Length
    ensures e == DecodeEntry(a[..], base)
  {
    var typeGuid := CopyLE(a[base..base + 16]);
    var uniqGuid := CopyLE(a[base + UniqOffset..base + 32]);
    var name := ReadName(a, base + NameOffset);
    e := Entry(typeGuid, uniqGuid, Get4LE(a[..], base + StartOffset), Get4LE(a[..], base + EndOffset),
               Get4LE(a[..], base + AttrOffset), name);
  }
}
