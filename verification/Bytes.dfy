/**
 Bytes, fixed-width unsigned integers and their memory images on a little-endian host.
 A field that the source fills one byte at a time is an integer here; storing byte `k` of
 its image is `PutByte16`/`PutByte32`, and `ntohs`/`ntohl` are `Swap16`/`Swap32`.
 */
module Bytes {

  type byte = b: int | 0 <= b < 0x100
  type uint16 = v: int | 0 <= v < 0x1_0000
  type uint32 = v: int | 0 <= v < 0x1_0000_0000
  type uint64 = v: int | 0 <= v < 0x1_0000_0000_0000_0000

  const UINT32_MAX: uint32 := 0xFFFF_FFFF

  /** Truncation to 32 bits. */
  function Wrap(x: int): uint32 {
    x % 0x1_0000_0000
  }

  datatype Option<+T> = None | Some(value: T)

  function LE16(v: uint16): (s: seq<byte>)
    ensures |s| == 2
  {
    [v % 0x100, v / 0x100]
  }

  function LE32(v: uint32): (s: seq<byte>)
    ensures |s| == 4
  {
    [v % 0x100, v / 0x100 % 0x100, v / 0x1_0000 % 0x100, v / 0x100_0000]
  }

  function FromLE16(s: seq<byte>): (v: uint16)
    requires |s| == 2
  {
    s[0] as int + 0x100 * (s[1] as int)
  }

  function FromLE32(s: seq<byte>): (v: uint32)
    requires |s| == 4
  {
    s[0] as int + 0x100 * (s[1] as int) + 0x1_0000 * (s[2] as int) + 0x100_0000 * (s[3] as int)
  }

  function BE16(v: uint16): (s: seq<byte>)
    ensures |s| == 2
  {
    [v / 0x100, v % 0x100]
  }

  function BE32(v: uint32): (s: seq<byte>)
    ensures |s| == 4
  {
    [v / 0x100_0000, v / 0x1_0000 % 0x100, v / 0x100 % 0x100, v % 0x100]
  }

  function FromBE16(s: seq<byte>): (v: uint16)
    requires |s| == 2
  {
    0x100 * (s[0] as int) + s[1] as int
  }

  function FromBE32(s: seq<byte>): (v: uint32)
    requires |s| == 4
  {
    0x100_0000 * (s[0] as int) + 0x1_0000 * (s[1] as int) + 0x100 * (s[2] as int) + s[3] as int
  }

  function LE64(v: uint64): (s: seq<byte>)
    ensures |s| == 8
  {
    LE32(v % 0x1_0000_0000) + LE32(v / 0x1_0000_0000)
  }

  function FromLE64(s: seq<byte>): (v: uint64)
    requires |s| == 8
  {
    FromLE32(s[..4]) + 0x1_0000_0000 * FromLE32(s[4..])
  }

  /** Stores `b` at byte `k` of the image of `v`. */
  function PutByte16(v: uint16, k: nat, b: byte): uint16
    requires k < 2
  {
    FromLE16(LE16(v)[k := b])
  }

  function PutByte32(v: uint32, k: nat, b: byte): uint32
    requires k < 4
  {
    FromLE32(LE32(v)[k := b])
  }

  function Swap16(v: uint16): uint16 {
    FromBE16(LE16(v))
  }

  function Swap32(v: uint32): uint32 {
    FromBE32(LE32(v))
  }

  lemma Image16(v: uint16, s: seq<byte>)
    requires |s| == 2
    ensures FromLE16(LE16(v)) == v && LE16(FromLE16(s)) == s
    ensures FromBE16(BE16(v)) == v && BE16(FromBE16(s)) == s
  {
  }

  lemma LE32Inverse(v: uint32)
    ensures FromLE32(LE32(v)) == v
  {
    assert v == v % 0x100 + 0x100 * (v / 0x100 % 0x100) + 0x1_0000 * (v / 0x1_0000);
  }

  lemma FromLE32Inverse(s: seq<byte>)
    requires |s| == 4
    ensures LE32(FromLE32(s)) == s
  {
    var v := FromLE32(s);
    var s1: int, s2: int, s3: int := s[1], s[2], s[3];
    assert v / 0x100 == s1 + 0x100 * s2 + 0x1_0000 * s3;
    assert v / 0x1_0000 == s2 + 0x100 * s3;
    assert v / 0x100_0000 == s3;
  }

  lemma BE32Inverse(v: uint32)
    ensures FromBE32(BE32(v)) == v
  {
    var q := v / 0x100;
    var r := q / 0x100;
    assert v / 0x1_0000 == r && v / 0x100_0000 == r / 0x100;
  }

  lemma FromBE32Inverse(s: seq<byte>)
    requires |s| == 4
    ensures BE32(FromBE32(s)) == s
  {
    var v := FromBE32(s);
    var s0: int, s1: int, s2: int := s[0], s[1], s[2];
    assert v / 0x100 == s2 + 0x100 * s1 + 0x1_0000 * s0;
    assert v / 0x1_0000 == s1 + 0x100 * s0;
    assert v / 0x100_0000 == s0;
  }

  lemma LE64Inverse(v: uint64)
    ensures FromLE64(LE64(v)) == v
  {
    var s := LE64(v);
    assert s[..4] == LE32(v % 0x1_0000_0000) && s[4..] == LE32(v / 0x1_0000_0000);
    LE32Inverse(v % 0x1_0000_0000);
    LE32Inverse(v / 0x1_0000_0000);
  }

  /** Four stores, whatever the field held before, then `ntohl`: the big-endian value. */
  lemma StoredThenSwapped32(v: uint32, s: seq<byte>)
    requires |s| == 4
    ensures Swap32(PutByte32(PutByte32(PutByte32(PutByte32(v, 0, s[0]), 1, s[1]), 2, s[2]), 3, s[3])) == FromBE32(s)
    ensures PutByte32(PutByte32(PutByte32(PutByte32(v, 0, s[0]), 1, s[1]), 2, s[2]), 3, s[3]) == FromLE32(s)
  {
    var a: seq<byte> := LE32(v)[0 := s[0]];
    var b: seq<byte> := a[1 := s[1]];
    var c: seq<byte> := b[2 := s[2]];
    FromLE32Inverse(a);
    FromLE32Inverse(b);
    FromLE32Inverse(c);
    FromLE32Inverse(s);
    assert c[3 := s[3]] == s;
  }

  lemma StoredThenSwapped16(v: uint16, s: seq<byte>)
    requires |s| == 2
    ensures Swap16(PutByte16(PutByte16(v, 0, s[0]), 1, s[1])) == FromBE16(s)
  {
    var a: seq<byte> := LE16(v)[0 := s[0]];
    Image16(v, a);
    Image16(v, s);
    assert a[1 := s[1]] == s;
  }

  function Zeros(n: nat): (s: seq<byte>)
    ensures |s| == n && forall i | 0 <= i < n :: s[i] == 0
  {
    seq(n, _ => 0)
  }

  lemma Associate(x: seq<byte>, y: seq<byte>, z: seq<byte>)
    ensures x + (y + z) == x + y + z
  {
  }

  lemma SliceOfSlice(b: seq<byte>, p: nat, n: nat, i: nat, j: nat)
    requires p + n <= |b| && i <= j <= n
    ensures b[p..p + n][i..j] == b[p + i..p + j]
  {
    var s, t := b[p..p + n][i..j], b[p + i..p + j];
    assert |s| == |t| == j - i;
    forall x | 0 <= x < j - i ensures s[x] == t[x] {
      assert b[p..p + n][i + x] == b[p + i + x];
    }
  }

  /** `s` with `src` stored from offset `off`: what `memcpy` leaves behind. */
  function Splice(s: seq<byte>, off: nat, src: seq<byte>): (r: seq<byte>)
    requires off + |src| <= |s|
    ensures |r| == |s|
  {
    s[..off] + src + s[off + |src|..]
  }

  /** `memcpy(a + off, src, |src|)`. */
  method Store(a: array<byte>, off: nat, src: seq<byte>)
    requires off + |src| <= a.Length
    modifies a
    ensures a[..] == Splice(old(a[..]), off, src)
  {
    forall i | 0 <= i < |src| {
      a[off + i] := src[i];
    }
  }

  /** The same copy, seen by code that fills a buffer from the front. */
  method Append(a: array<byte>, off: nat, src: seq<byte>) returns (next: nat)
    requires off + |src| <= a.Length
    modifies a
    ensures next == off + |src| && a[..next] == old(a[..off]) + src
  {
    Store(a, off, src);
    next := off + |src|;
  }

  /** The bytes of a C string: everything before the first NUL. */
  function CString(s: seq<byte>): (r: seq<byte>)
    ensures |r| <= |s| && r == s[..|r|] && 0 !in r
    ensures |r| < |s| ==> s[|r|] == 0
  {
    if s == [] || s[0] == 0 then [] else [s[0]] + CString(s[1..])
  }

  /** A C string is fixed by where its terminator is. */
  lemma CStringOf(r: seq<byte>, rest: seq<byte>)
    requires 0 !in r
    ensures CString(r + [0] + rest) == r
  {
    var s := r + [0] + rest;
    if r != [] {
      CStringOf(r[1..], rest);
      assert s[1..] == r[1..] + [0] + rest;
    }
  }
}
