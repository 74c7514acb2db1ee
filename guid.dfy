/** uuid_copyLE: GUIDs are held in memory in the big-endian uuid_t order
    and stored on disk in the mixed-endian layout of Appendix A of the UEFI
    Specification -- the first three fields (4, 2 and 2 bytes) little-endian,
    the last eight bytes as they are. The same byte shuffle converts in both
    directions. */
module Guid {
  import opened Bytes

  /** uuid_copyLE(dst, src) as a value: the new 16 bytes of dst. */
  function CopyLE(src: seq<byte>): (dst: seq<byte>)
    requires |src| == 16
    ensures |dst| == 16
    ensures dst[8..] == src[8..]
  {
    [src[3], src[2], src[1], src[0], src[5], src[4], src[7], src[6]] + src[8..]
  }

  function Reverse(s: seq<byte>): (r: seq<byte>)
    ensures |r| == |s|
    ensures forall i :: 0 <= i < |s| ==> r[i] == s[|s| - 1 - i]
  {
    if s == [] then [] else Reverse(s[1..]) + [s[0]]
  }

  /** The shuffle reverses each of the three leading fields and keeps the rest. */
  lemma CopyLEReversesFields(src: seq<byte>)
    requires |src| == 16
    ensures CopyLE(src) == Reverse(src[0..4]) + Reverse(src[4..6]) + Reverse(src[6..8]) + src[8..]
  {
    var r := Reverse(src[0..4]) + Reverse(src[4..6]) + Reverse(src[6..8]) + src[8..];
    assert |r| == 16;
    forall i | 0 <= i < 16
      ensures CopyLE(src)[i] == r[i]
    {
    }
  }

  /** The leading field stored on disk reads back, little-endian, as the
      big-endian time_low field of the uuid_t. */
  lemma TimeLowIsLittleEndian(src: seq<byte>)
    requires |src| == 16
    ensures Get4LE(CopyLE(src), 0) == BigEndian(src[0..4])
  {
    var f := src[0..4];
    assert f[..3][..2][..1][..0] == [];
    assert f[..3][..2][..1] == [f[0]];
    assert f[..3][..2] == [f[0], f[1]];
    assert f[..3] == [f[0], f[1], f[2]];
    assert BigEndian([f[0]]) == f[0] as nat;
    assert BigEndian([f[0], f[1]]) == f[0] as nat * 256 + f[1] as nat;
    assert BigEndian([f[0], f[1], f[2]]) == (f[0] as nat * 256 + f[1] as nat) * 256 + f[2] as nat;
  }

  /** Applying the shuffle twice gives the original GUID back. */
  lemma CopyLETwice(src: seq<byte>)
    requires |src| == 16
    ensures CopyLE(CopyLE(src)) == src
  {
    var r := CopyLE(CopyLE(src));
    forall i | 0 <= i < 16
      ensures r[i] == src[i]
    {
    }
  }

  /** uuid_copyLE into a byte buffer at off: eight single-byte moves, then a
      loop copying bytes 8..15. */
  method UuidCopyLE(dst: array<byte>, off: int, src: seq<byte>)
    requires |src| == 16 && 0 <= off && off + 16 <= dst.Length
    modifies dst
    ensures dst[..] == Splice(old(dst[..]), off, CopyLE(src))
  {
    dst[off + 0] := src[3];
    dst[off + 1] := src[2];
    dst[off + 2] := src[1];
    dst[off + 3] := src[0];
    dst[off + 4] := src[5];
    dst[off + 5] := src[4];
    dst[off + 6] := src[7];
    dst[off + 7] := src[6];
    var i := 8;
    while i < 16
      invariant 8 <= i <= 16
      invariant forall j :: 0 <= j < i ==> dst[off + j] == CopyLE(src)[j]
      invariant forall j :: 0 <= j < dst.Length && !(off <= j < off + i) ==> dst[j] == old(dst[j])
    {
      dst[off + i] := src[i];
      i := i + 1;
    }
    forall j | 0 <= j < dst.Length
      ensures dst[j] == Splice(old(dst[..]), off, CopyLE(src))[j]
    {
      SpliceAt(old(dst[..]), off, CopyLE(src), j);
    }
  }
}
