/** CRC-32 as section 8 of RFC 1952 defines it, one bit at a time, and the damage it is certain to show.
    Registers are numbers; Xor is the bitwise operation on them. */
module Crc32 {
  import opened Bytes

  const POLYNOMIAL: u32 := 0xEDB8_8320

  function Xor(a: nat, b: nat): nat
    decreases a + b
  {
    if a + b == 0 then 0 else (a + b) % 2 + 2 * Xor(a / 2, b / 2)
  }

  /** One bit enters the register at its low end. */
  function BitStep(s: nat): nat {
    if s % 2 == 1 then Xor(s / 2, POLYNOMIAL) else s / 2
  }

  function BitSteps(s: nat, n: nat): nat
    decreases n
  {
    if n == 0 then s else BitSteps(BitStep(s), n - 1)
  }

  function ByteStep(s: nat, b: byte): nat {
    BitSteps(Xor(s, b), 8)
  }

  function Update(s: nat, data: seq<byte>): nat
    decreases |data|
  {
    if data == [] then s else Update(ByteStep(s, data[0]), data[1..])
  }

  function Invert(s: u32): u32 {
    U32_LIMIT - 1 - s
  }

  /** zlib's crc32(crc, data): the register is complemented on the way in and on the way out. */
  function Crc(crc: u32, data: seq<byte>): u32 {
    UpdateBound(Invert(crc), data);
    Invert(Update(Invert(crc), data))
  }

  /** The checksum of a whole string, as the unsigned number that is stored and compared. */
  function Checksum(data: seq<byte>): u32 {
    Crc(0, data)
  }

  // ---------- the bitwise operation ----------

  function Pow2(n: nat): (p: nat)
    ensures p >= 1
  {
    if n == 0 then 1 else 2 * Pow2(n - 1)
  }

  lemma Pow2At32()
    ensures Pow2(32) == U32_LIMIT && Pow2(31) == 0x8000_0000 && Pow2(8) == 256
  {
    assert Pow2(8) == 256;
    assert Pow2(16) == 0x1_0000;
    assert Pow2(24) == 0x100_0000;
    assert Pow2(31) == 0x8000_0000;
  }

  lemma {:induction false} XorBound(a: nat, b: nat, n: nat)
    requires a < Pow2(n) && b < Pow2(n)
    ensures Xor(a, b) < Pow2(n)
    decreases n
  {
    if n > 0 {
      XorBound(a / 2, b / 2, n - 1);
    }
  }

  lemma {:induction false} XorZero(a: nat)
    ensures Xor(a, 0) == a
  {
    if a > 0 {
      XorZero(a / 2);
    }
  }

  lemma {:induction false} XorCommutes(a: nat, b: nat)
    ensures Xor(a, b) == Xor(b, a)
    decreases a + b
  {
    if a + b > 0 {
      XorCommutes(a / 2, b / 2);
    }
  }

  lemma {:induction false} XorAssociates(a: nat, b: nat, c: nat)
    ensures Xor(Xor(a, b), c) == Xor(a, Xor(b, c))
    decreases a + b + c
  {
    if a + b + c > 0 {
      var x, y := Xor(a, b), Xor(b, c);
      XorAssociates(a / 2, b / 2, c / 2);
      XorHalf(a, b);
      XorHalf(b, c);
      XorHalf(x, c);
      XorHalf(a, y);
      Parity(a, b, c, x, y);
      assert Xor(x, c) == Xor(x, c) % 2 + 2 * (Xor(x, c) / 2);
      assert Xor(a, y) == Xor(a, y) % 2 + 2 * (Xor(a, y) / 2);
    }
  }

  lemma Parity(a: nat, b: nat, c: nat, x: nat, y: nat)
    requires x % 2 == (a + b) % 2 && y % 2 == (b + c) % 2
    ensures (x + c) % 2 == (a + y) % 2
  {
  }

  lemma XorHalf(a: nat, b: nat)
    ensures Xor(a, b) / 2 == Xor(a / 2, b / 2) && Xor(a, b) % 2 == (a + b) % 2
  {
  }

  lemma {:induction false} XorCancels(a: nat, b: nat, m: nat)
    requires Xor(a, m) == Xor(b, m)
    ensures a == b
    decreases a + b + m
  {
    if a + b + m > 0 {
      XorHalf(a, m);
      XorHalf(b, m);
      XorCancels(a / 2, b / 2, m / 2);
    }
  }

  /** The highest bit of one operand survives when the other does not reach it. */
  lemma {:induction false} XorKeepsTop(a: nat, b: nat, n: nat)
    requires a < Pow2(n) && Pow2(n) <= b
    ensures Xor(a, b) >= Pow2(n)
    decreases n
  {
    if n == 0 {
      XorCommutes(a, b);
      XorZero(b);
    } else {
      XorKeepsTop(a / 2, b / 2, n - 1);
    }
  }

  // ---------- every step keeps 32 bits and can be undone ----------

  lemma BitStepBound(s: nat)
    requires s < U32_LIMIT
    ensures BitStep(s) < U32_LIMIT
  {
    Pow2At32();
    XorBound(s / 2, POLYNOMIAL, 32);
  }

  lemma {:induction false} BitStepsBound(s: nat, n: nat)
    requires s < U32_LIMIT
    ensures BitSteps(s, n) < U32_LIMIT
    decreases n
  {
    if n > 0 {
      BitStepBound(s);
      BitStepsBound(BitStep(s), n - 1);
    }
  }

  lemma ByteStepBound(s: nat, b: byte)
    requires s < U32_LIMIT
    ensures ByteStep(s, b) < U32_LIMIT
  {
    Pow2At32();
    XorBound(s, b, 32);
    BitStepsBound(Xor(s, b), 8);
  }

  lemma {:induction false} UpdateBound(s: nat, data: seq<byte>)
    requires s < U32_LIMIT
    ensures Update(s, data) < U32_LIMIT
    decreases |data|
  {
    if data != [] {
      ByteStepBound(s, data[0]);
      UpdateBound(ByteStep(s, data[0]), data[1..]);
    }
  }

  lemma BitStepInjective(a: nat, b: nat)
    requires a < U32_LIMIT && b < U32_LIMIT && BitStep(a) == BitStep(b)
    ensures a == b
  {
    Pow2At32();
    XorKeepsTop(a / 2, POLYNOMIAL, 31);
    XorKeepsTop(b / 2, POLYNOMIAL, 31);
    if a % 2 == 1 && b % 2 == 1 {
      XorCancels(a / 2, b / 2, POLYNOMIAL);
    }
  }

  lemma {:induction false} BitStepsInjective(a: nat, b: nat, n: nat)
    requires a < U32_LIMIT && b < U32_LIMIT && BitSteps(a, n) == BitSteps(b, n)
    ensures a == b
    decreases n
  {
    if n > 0 {
      BitStepBound(a);
      BitStepBound(b);
      BitStepsInjective(BitStep(a), BitStep(b), n - 1);
      BitStepInjective(a, b);
    }
  }

  /** Two registers that differ stay different while both absorb the same bytes. */
  lemma {:induction false} UpdateInjective(s: nat, t: nat, data: seq<byte>)
    requires s < U32_LIMIT && t < U32_LIMIT && Update(s, data) == Update(t, data)
    ensures s == t
    decreases |data|
  {
    if data != [] {
      var b := data[0];
      ByteStepBound(s, b);
      ByteStepBound(t, b);
      UpdateInjective(ByteStep(s, b), ByteStep(t, b), data[1..]);
      Pow2At32();
      XorBound(s, b, 32);
      XorBound(t, b, 32);
      BitStepsInjective(Xor(s, b), Xor(t, b), 8);
      XorCancels(s, t, b);
    }
  }

  lemma {:induction false} UpdateAppend(s: nat, a: seq<byte>, b: seq<byte>)
    ensures Update(s, a + b) == Update(Update(s, a), b)
    decreases |a|
  {
    if a == [] {
      assert a + b == b;
    } else {
      assert (a + b)[1..] == a[1..] + b;
      UpdateAppend(ByteStep(s, a[0]), a[1..], b);
    }
  }

  /** Checksumming piece by piece, as the writer and the checker both do, gives the checksum of the whole. */
  lemma CrcChain(a: seq<byte>, b: seq<byte>)
    ensures Crc(Crc(0, a), b) == Checksum(a + b)
  {
    UpdateBound(Invert(0), a);
    UpdateAppend(Invert(0), a, b);
  }

  // ---------- bursts of up to 32 bits ----------

  /** y moved n places up. */
  function Raise(y: nat, n: nat): nat {
    if n == 0 then y else 2 * Raise(y, n - 1)
  }

  lemma RaiseEight(y: nat)
    ensures Raise(y, 8) == 256 * y
  {
    assert Raise(y, 1) == 2 * y;
    assert Raise(y, 2) == 4 * y;
    assert Raise(y, 3) == 8 * y;
    assert Raise(y, 4) == 16 * y;
    assert Raise(y, 5) == 32 * y;
    assert Raise(y, 6) == 64 * y;
    assert Raise(y, 7) == 128 * y;
  }

  /** A difference that is still n places from the low end of the register passes through n steps untouched. */
  lemma {:induction false} BitStepsPass(s: nat, y: nat, n: nat)
    ensures BitSteps(Xor(s, Raise(y, n)), n) == Xor(BitSteps(s, n), y)
    decreases n
  {
    hide Xor, BitStep;
    if n > 0 {
      BitStepPasses(s, Raise(y, n - 1));
      BitStepsPass(BitStep(s), y, n - 1);
    }
  }

  lemma Doubled(a: nat, r: nat)
    ensures (2 * r) / 2 == r && (a + 2 * r) % 2 == a % 2
  {
  }

  lemma BitStepPasses(s: nat, z: nat)
    ensures BitStep(Xor(s, 2 * z)) == Xor(BitStep(s), z)
  {
    hide Xor, BitStep;
    XorHalf(s, 2 * z);
    Doubled(s, z);
    BitStepPassesHalf(s, z, Xor(s, 2 * z));
  }

  lemma BitStepPassesHalf(s: nat, z: nat, x: nat)
    requires x / 2 == Xor(s / 2, z) && x % 2 == s % 2
    ensures BitStep(x) == Xor(BitStep(s), z)
  {
    hide Xor;
    if s % 2 == 1 {
      XorAssociates(s / 2, z, POLYNOMIAL);
      XorAssociates(s / 2, POLYNOMIAL, z);
      XorCommutes(z, POLYNOMIAL);
    }
  }

  /** What four bytes put into the register together. */
  function Quad(q: seq<byte>): nat
    requires |q| == 4
  {
    Xor(q[0], 256 * Xor(q[1], 256 * Xor(q[2], 256 * (q[3] as int))))
  }

  /** Absorbing a byte and then xor-ing u in is the same as having xor-ed u in above the byte. */
  lemma ByteStepLifts(s: nat, b: byte, u: nat)
    ensures BitSteps(Xor(s, Xor(b, 256 * u)), 8) == Xor(ByteStep(s, b), u)
  {
    hide Xor, BitStep, BitSteps;
    RaiseEight(u);
    XorAssociates(s, b, 256 * u);
    BitStepsPass(Xor(s, b), u, 8);
  }

  lemma UpdateQuad(s: nat, q: seq<byte>)
    requires |q| == 4
    ensures Update(s, q) == BitSteps(BitSteps(BitSteps(BitSteps(Xor(s, Quad(q)), 8), 8), 8), 8)
  {
    hide Xor, BitStep;
    var u3: nat := q[3];
    var u2 := Xor(q[2], 256 * u3);
    var u1 := Xor(q[1], 256 * u2);
    var s1 := ByteStep(s, q[0]);
    var s2 := ByteStep(s1, q[1]);
    var s3 := ByteStep(s2, q[2]);
    ByteStepLifts(s, q[0], u1);
    ByteStepLifts(s1, q[1], u2);
    ByteStepLifts(s2, q[2], u3);
    assert Update(s3, q[3..]) == ByteStep(s3, q[3]);
    assert q[2..][1..] == q[3..] && q[1..][1..] == q[2..];
    assert Update(s2, q[2..]) == Update(s3, q[3..]);
    assert Update(s1, q[1..]) == Update(s2, q[2..]);
  }

  /** Parts that share no bit are added. */
  lemma {:induction false} XorSplits(a: nat, b: nat, n: nat)
    requires a < Pow2(n)
    ensures Xor(a, Raise(b, n)) == a + Raise(b, n)
    decreases n
  {
    hide Xor;
    if n == 0 {
      XorCommutes(0, b);
      XorZero(b);
    } else {
      var r := Raise(b, n - 1);
      XorSplits(a / 2, b, n - 1);
      XorHalf(a, 2 * r);
      Doubled(a, r);
      Recombined(Xor(a, 2 * r), a, r);
    }
  }

  lemma Recombined(x: nat, a: nat, r: nat)
    requires x / 2 == a / 2 + r && x % 2 == a % 2
    ensures x == a + 2 * r
  {
  }

  lemma XorSplitsByte(a: byte, b: nat)
    ensures Xor(a, 256 * b) == a + 256 * b
  {
    Pow2At32();
    RaiseEight(b);
    XorSplits(a, b, 8);
  }

  lemma QuadInjective(q: seq<byte>, r: seq<byte>)
    requires |q| == 4 && |r| == 4 && Quad(q) == Quad(r)
    ensures q == r
  {
    hide Quad, Xor;
    QuadValue(q);
    QuadValue(r);
    var a, b := [q[3], q[2], q[1], q[0]], [r[3], r[2], r[1], r[0]];
    U32Injective(a, 0, b, 0);
    assert a == a[0..4] && b == b[0..4];
    assert q == [a[3], a[2], a[1], a[0]] && r == [b[3], b[2], b[1], b[0]];
  }

  lemma QuadValue(q: seq<byte>)
    requires |q| == 4
    ensures Quad(q) == q[0] as int + 256 * q[1] as int + 0x1_0000 * q[2] as int + 0x100_0000 * q[3] as int
  {
    hide Xor;
    XorSplitsByte(q[2], q[3]);
    XorSplitsByte(q[1], Xor(q[2], 256 * (q[3] as int)));
    XorSplitsByte(q[0], Xor(q[1], 256 * Xor(q[2], 256 * (q[3] as int))));
  }

  /** Four bytes that differ anywhere drive one register to two different values. */
  lemma UpdateQuadInjective(s: nat, q: seq<byte>, r: seq<byte>)
    requires s < U32_LIMIT && |q| == 4 && |r| == 4 && Update(s, q) == Update(s, r)
    ensures q == r
  {
    UpdateQuad(s, q);
    UpdateQuad(s, r);
    QuadValue(q);
    QuadValue(r);
    Pow2At32();
    XorBound(s, Quad(q), 32);
    XorBound(s, Quad(r), 32);
    var x, y := Xor(s, Quad(q)), Xor(s, Quad(r));
    BitStepsBound(x, 8);
    BitStepsBound(y, 8);
    var x1, y1 := BitSteps(x, 8), BitSteps(y, 8);
    BitStepsBound(x1, 8);
    BitStepsBound(y1, 8);
    var x2, y2 := BitSteps(x1, 8), BitSteps(y1, 8);
    BitStepsBound(x2, 8);
    BitStepsBound(y2, 8);
    BitStepsInjective(BitSteps(x2, 8), BitSteps(y2, 8), 8);
    BitStepsInjective(x2, y2, 8);
    BitStepsInjective(x1, y1, 8);
    BitStepsInjective(x, y, 8);
    XorCommutes(s, Quad(q));
    XorCommutes(s, Quad(r));
    XorCancels(Quad(q), Quad(r), s);
    QuadInjective(q, r);
  }

  /** a and b have the same length and agree outside the four positions that start at at. */
  predicate DifferInQuad(a: seq<byte>, b: seq<byte>, at: nat) {
    |a| == |b| && at + 4 <= |a| && a[..at] == b[..at] && a[at + 4..] == b[at + 4..]
  }

  /** Any damage confined to four consecutive bytes changes the checksum. */
  lemma BurstDetected(a: seq<byte>, b: seq<byte>, at: nat)
    requires DifferInQuad(a, b, at) && a != b
    ensures Checksum(a) != Checksum(b)
  {
    var q, r := a[at..at + 4], b[at..at + 4];
    assert a == a[..at] + q + a[at + 4..];
    assert b == b[..at] + r + b[at + 4..];
    assert q != r;
    if Checksum(a) == Checksum(b) {
      var s := Update(Invert(0), a[..at]);
      UpdateBound(Invert(0), a[..at]);
      UpdateAppend(Invert(0), a[..at] + q, a[at + 4..]);
      UpdateAppend(Invert(0), a[..at], q);
      UpdateAppend(Invert(0), b[..at] + r, b[at + 4..]);
      UpdateAppend(Invert(0), b[..at], r);
      UpdateBound(s, q);
      UpdateBound(s, r);
      UpdateBound(Invert(0), a);
      UpdateBound(Invert(0), b);
      UpdateInjective(Update(s, q), Update(s, r), a[at + 4..]);
      UpdateQuadInjective(s, q, r);
    }
  }

  lemma QuadAround(s: seq<byte>, j: nat, b: byte) returns (at: nat)
    requires |s| >= 4 && j < |s|
    ensures DifferInQuad(s, s[j := b], at)
  {
    at := if j + 4 <= |s| then j else |s| - 4;
    var t := s[j := b];
    assert s[..at] == t[..at] && s[at + 4..] == t[at + 4..];
  }

  /** n bytes with their checksum behind them. */
  predicate Sealed(s: seq<byte>, n: nat)
    requires n + 4 <= |s|
  {
    Checksum(s[..n]) == U32At(s, n)
  }

  /** Changing any one byte of the data or of the checksum breaks the seal. */
  lemma SealBroken(s: seq<byte>, n: nat, i: nat, b: byte)
    requires 4 <= n && n + 4 <= |s| && Sealed(s, n) && i < n + 4 && b != s[i]
    ensures !Sealed(s[i := b], n)
  {
    hide Checksum, U32At;
    var t := s[i := b];
    if i < n {
      var at := QuadAround(s[..n], i, b);
      assert t[..n] == s[..n][i := b];
      assert t[..n][i] != s[..n][i];
      BurstDetected(s[..n], t[..n], at);
      FieldUntouched(s, t, n);
    } else {
      assert t[..n] == s[..n];
      assert t[n..n + 4][i - n] != s[n..n + 4][i - n];
      if U32At(t, n) == U32At(s, n) {
        U32Injective(t, n, s, n);
      }
    }
  }

  lemma FieldUntouched(s: seq<byte>, t: seq<byte>, n: nat)
    requires n + 4 <= |s| == |t| && forall k :: n <= k < n + 4 ==> s[k] == t[k]
    ensures U32At(t, n) == U32At(s, n)
  {
  }
}
