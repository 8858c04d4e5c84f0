/** Bytes and the big-endian integer codecs shared by both logs and the wire protocol. */
module Bytes {

  type byte = x: int | 0 <= x < 256

  const U32_LIMIT: nat := 0x1_0000_0000
  const U64_LIMIT: nat := 0x1_0000_0000_0000_0000

  /** The limit that frames and messages share. */
  const MESSAGE_MAX: nat := 0x10_0000

  type u32 = x: int | 0 <= x < 0x1_0000_0000
  type u64 = x: int | 0 <= x < 0x1_0000_0000_0000_0000

  function Min(a: nat, b: nat): nat {
    if a < b then a else b
  }

  /** The value of the four bytes of s that start at index at, most significant first. */
  function U32At(s: seq<byte>, at: nat): u32
    requires at + 4 <= |s|
  {
    s[at] as int * 0x100_0000 + s[at + 1] as int * 0x1_0000 + s[at + 2] as int * 0x100 + s[at + 3] as int
  }

  /** The value of the eight bytes of s that start at index at, most significant first. */
  function U64At(s: seq<byte>, at: nat): u64
    requires at + 8 <= |s|
  {
    U32At(s, at) * U32_LIMIT + U32At(s, at + 4)
  }

  function U32Bytes(v: u32): (s: seq<byte>)
    ensures |s| == 4
  {
    [v / 0x100_0000, v / 0x1_0000 % 0x100, v / 0x100 % 0x100, v % 0x100]
  }

  function U64Bytes(v: u64): (s: seq<byte>)
    ensures |s| == 8
  {
    U32Bytes(v / U32_LIMIT) + U32Bytes(v % U32_LIMIT)
  }

  lemma Digits(v: u32)
    ensures v / 0x100_0000 * 0x100_0000 + v / 0x1_0000 % 0x100 * 0x1_0000 + v / 0x100 % 0x100 * 0x100 + v % 0x100 == v
  {
    var high := v / 0x1_0000;
    assert high == high / 0x100 * 0x100 + high % 0x100 && high / 0x100 == v / 0x100_0000;
    assert v / 0x100 == high * 0x100 + v / 0x100 % 0x100;
  }

  /** The digits of a written number to base 256, the most significant first. */
  lemma BigEndian(v: u32, w: u64)
    ensures var s := U32Bytes(v);
            v == 0x100_0000 * s[0] as int + 0x1_0000 * s[1] as int + 0x100 * s[2] as int + s[3] as int
    ensures var t := U64Bytes(w);
            w == 0x100_0000_0000_0000 * t[0] as int + 0x1_0000_0000_0000 * t[1] as int + 0x100_0000_0000 * t[2] as int
                 + 0x1_0000_0000 * t[3] as int + 0x100_0000 * t[4] as int + 0x1_0000 * t[5] as int
                 + 0x100 * t[6] as int + t[7] as int
  {
    Digits(v);
    Digits(w / U32_LIMIT);
    Digits(w % U32_LIMIT);
  }

  /** Reading back what was written, at any place of a longer string. */
  lemma U32RoundTrip(s: seq<byte>, at: nat, v: u32)
    requires at + 4 <= |s| && s[at..at + 4] == U32Bytes(v)
    ensures U32At(s, at) == v
  {
    var w := U32Bytes(v);
    assert s[at..at + 4][0] == w[0] && s[at..at + 4][1] == w[1];
    assert s[at..at + 4][2] == w[2] && s[at..at + 4][3] == w[3];
    Digits(v);
  }

  /** A four-byte field is determined by the value it reads as. */
  lemma U32Injective(s: seq<byte>, at: nat, t: seq<byte>, to: nat)
    requires at + 4 <= |s| && to + 4 <= |t| && U32At(s, at) == U32At(t, to)
    ensures s[at..at + 4] == t[to..to + 4]
  {
    assert s[at] == t[to];
    assert s[at + 1] == t[to + 1];
  }

  lemma U64RoundTrip(s: seq<byte>, at: nat, v: u64)
    requires at + 8 <= |s| && s[at..at + 8] == U64Bytes(v)
    ensures U64At(s, at) == v
  {
    var w := s[at..at + 8];
    assert s[at..at + 4] == w[..4] == U32Bytes(v / U32_LIMIT);
    assert s[at + 4..at + 8] == w[4..] == U32Bytes(v % U32_LIMIT);
    U32RoundTrip(s, at, v / U32_LIMIT);
    U32RoundTrip(s, at + 4, v % U32_LIMIT);
  }

  lemma U64Injective(s: seq<byte>, at: nat, t: seq<byte>, to: nat)
    requires at + 8 <= |s| && to + 8 <= |t| && U64At(s, at) == U64At(t, to)
    ensures s[at..at + 8] == t[to..to + 8]
  {
    assert U32At(s, at) == U32At(t, to);
    U32Injective(s, at, t, to);
    U32Injective(s, at + 4, t, to + 4);
    assert s[at..at + 8] == s[at..at + 4] + s[at + 4..at + 8];
    assert t[to..to + 8] == t[to..to + 4] + t[to + 4..to + 8];
  }

  lemma SliceOfSlice(s: seq<byte>, at: nat, w: seq<byte>, i: nat, j: nat)
    requires at + |w| <= |s| && s[at..at + |w|] == w && i <= j <= |w|
    ensures s[at + i..at + j] == w[i..j]
  {
    var a, b := s[at + i..at + j], w[i..j];
    forall k | 0 <= k < j - i
      ensures a[k] == b[k]
    {
      assert w[i + k] == s[at + (i + k)];
    }
  }

  lemma SliceOfConcat(s: seq<byte>, at: nat, a: seq<byte>, b: seq<byte>)
    requires at + |a| + |b| <= |s|
    ensures s[at..at + |a| + |b|] == a + b <==> s[at..at + |a|] == a && s[at + |a|..at + |a| + |b|] == b
  {
    var w := s[at..at + |a| + |b|];
    assert w == s[at..at + |a|] + s[at + |a|..at + |a| + |b|];
    assert (a + b)[..|a|] == a && (a + b)[|a|..] == b;
    assert w[..|a|] == s[at..at + |a|] && w[|a|..] == s[at + |a|..at + |a| + |b|];
  }

  lemma U64InPrefix(s: seq<byte>, n: nat, at: nat)
    requires at + 8 <= n <= |s|
    ensures U64At(s[..n], at) == U64At(s, at)
  {
  }
}
