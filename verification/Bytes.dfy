/** Bytes and little-endian integers, as the packed structures of the program store them. */
module Bytes {

  type Byte = x: int | 0 <= x < 0x100
  type Word16 = x: int | 0 <= x < 0x1_0000
  type Word32 = x: int | 0 <= x < 0x1_0000_0000
  type Word64 = x: int | 0 <= x < 0x1_0000_0000_0000_0000

  function Le16(b: seq<Byte>, p: nat): (w: Word16)
    requires p + 2 <= |b|
  {
    var lo: int, hi: int := b[p], b[p + 1];
    lo + 0x100 * hi
  }

  function Le32(b: seq<Byte>, p: nat): (w: Word32)
    requires p + 4 <= |b|
  {
    var lo: int, hi: int := Le16(b, p), Le16(b, p + 2);
    lo + 0x1_0000 * hi
  }

  function Le64(b: seq<Byte>, p: nat): (w: Word64)
    requires p + 8 <= |b|
  {
    var lo: int, hi: int := Le32(b, p), Le32(b, p + 4);
    lo + 0x1_0000_0000 * hi
  }

  function Enc16(w: Word16): (b: seq<Byte>)
    ensures |b| == 2 && Le16(b, 0) == w
  {
    [w % 0x100, w / 0x100]
  }

  function Enc32(w: Word32): (b: seq<Byte>)
    ensures |b| == 4 && Le32(b, 0) == w
  {
    Enc16(w % 0x1_0000) + Enc16(w / 0x1_0000)
  }

  function Enc64(w: Word64): (b: seq<Byte>)
    ensures |b| == 8 && Le64(b, 0) == w
  {
    Enc32(w % 0x1_0000_0000) + Enc32(w / 0x1_0000_0000)
  }

  lemma Le64Of(s: seq<Byte>, p: nat, w: Word64)
    requires p + 8 <= |s| && s[p..p + 8] == Enc64(w)
    ensures Le64(s, p) == w
  {
    hide Enc64;
    var b := s[p..p + 8];
    assert s[p] == b[0] && s[p + 1] == b[1] && s[p + 2] == b[2] && s[p + 3] == b[3];
    assert s[p + 4] == b[4] && s[p + 5] == b[5] && s[p + 6] == b[6] && s[p + 7] == b[7];
  }

  function Zeros(n: nat): (z: seq<Byte>)
    ensures |z| == n
    ensures forall i :: 0 <= i < n ==> z[i] == 0
  {
    seq(n, _ => 0)
  }

  lemma SliceOfSlice<T>(s: seq<T>, p: nat, n: nat, i: nat, j: nat)
    requires i <= j <= n && p + n <= |s|
    ensures s[p..p + n][i..j] == s[p + i..p + j]
  {
    var inner := s[p..p + n][i..j];
    assert forall k :: 0 <= k < j - i ==> inner[k] == s[p + i + k];
  }

  lemma SplitsInThree<T>(a: seq<T>, b: seq<T>, c: seq<T>)
    ensures var s := a + b + c;
            s[..|a|] == a && s[|a|..|a| + |b|] == b && s[|a| + |b|..] == c
  {
    var s := a + b + c;
    assert s[..|a|] == a;
    assert s[|a|..|a| + |b|] == b;
    assert s[|a| + |b|..] == c;
  }
}
