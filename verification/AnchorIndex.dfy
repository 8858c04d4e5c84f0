/** The sparse index the scanner leaves behind: where its anchors lie, and what a lookup promises. */
module AnchorIndex {
  import opened Bytes
  import opened SegmentFormat
  import opened SegmentScan

  const ANCHOR_BYTES: nat := 0x1_0000
  /** No point of the log is this far behind the anchor a scan for it starts from. */
  const ANCHOR_REACH: nat := 0x10_0000 + 0x1_0000 + 20

  datatype AnchorState = AnchorState(anchors: seq<u64>, times: nat, bytes: nat)

  /** One accepted frame: counted, and anchored when either quota is reached. */
  function AnchorStep(s: AnchorState, start: u64, size: nat, interval: nat): AnchorState
    requires interval > 0
  {
    var times, bytes := s.times + 1, s.bytes + size;
    if times % interval == 0 || bytes >= ANCHOR_BYTES then AnchorState(s.anchors + [start], 0, 0)
    else AnchorState(s.anchors, times, bytes)
  }

  function AnchorsOf(fs: seq<Frame>, base: u64, pos: nat, interval: nat): AnchorState
    requires interval > 0 && pos >= SEGMENT_HEAD
  {
    if fs == [] then AnchorState([], 0, 0)
    else
      var init, last := fs[..|fs| - 1], fs[|fs| - 1];
      AnchorStep(AnchorsOf(init, base, pos, interval),
                 ExpectedOffset(base, pos + FramesSize(init)), FrameSize(last), interval)
  }

  // ---------- where frames start ----------

  /** How far behind the first frame of fs frame k starts. */
  function Start(fs: seq<Frame>, k: nat): nat
    requires k <= |fs|
  {
    FramesSize(fs[..k])
  }

  lemma StartNext(fs: seq<Frame>, k: nat)
    requires k < |fs|
    ensures Start(fs, k + 1) == Start(fs, k) + FrameSize(fs[k])
  {
    hide FramesBytes;
    assert fs[..k + 1] == fs[..k] + [fs[k]];
    FramesBytesAppend(fs[..k], [fs[k]]);
    assert FramesSize([fs[k]]) == FrameSize(fs[k]);
  }

  lemma {:induction false} StartMonotone(fs: seq<Frame>, j: nat, k: nat)
    requires j <= k <= |fs|
    ensures Start(fs, j) <= Start(fs, k)
    ensures j < k ==> Start(fs, j) < Start(fs, k)
    decreases k - j
  {
    if j < k {
      StartNext(fs, k - 1);
      StartMonotone(fs, j, k - 1);
    }
  }

  lemma StartsOfPrefix(fs: seq<Frame>, n: nat)
    requires n <= |fs|
    ensures forall k :: 0 <= k <= n ==> Start(fs[..n], k) == Start(fs, k)
  {
    forall k | 0 <= k <= n
      ensures Start(fs[..n], k) == Start(fs, k)
    {
      assert fs[..n][..k] == fs[..k];
    }
  }

  lemma StartOfEnd(fs: seq<Frame>)
    ensures Start(fs, |fs|) == FramesSize(fs)
  {
    assert fs[..|fs|] == fs;
  }

  lemma OffsetsInOrder(fs: seq<Frame>, k: nat, base: u64, pos: nat)
    requires pos >= SEGMENT_HEAD && k < |fs|
    requires base + (pos - SEGMENT_HEAD) + FramesSize(fs) <= U64_LIMIT
    ensures ExpectedOffset(base, pos + Start(fs, k)) == base + (pos - SEGMENT_HEAD) + Start(fs, k)
  {
    hide Start, FramesSize;
    StartMonotone(fs, k, |fs|);
    StartOfEnd(fs);
  }

  // ---------- the shape of the index ----------

  lemma AnchorsInit(fs: seq<Frame>, base: u64, pos: nat, interval: nat)
    requires interval > 0 && pos >= SEGMENT_HEAD && fs != []
    ensures var n := |fs| - 1;
            && AnchorsOf(fs, base, pos, interval) ==
               AnchorStep(AnchorsOf(fs[..n], base, pos, interval),
                          ExpectedOffset(base, pos + Start(fs, n)), FrameSize(fs[n]), interval)
            && (forall k :: 0 <= k <= n ==> Start(fs[..n], k) == Start(fs, k))
  {
    hide ExpectedOffset, FramesSize, AnchorStep;
    StartsOfPrefix(fs, |fs| - 1);
  }

  lemma QuotaReached(times: nat, interval: nat)
    requires times < interval
    ensures (times + 1) % interval == 0 <==> times + 1 == interval
  {
  }

  /** The greatest of the numbers ks below k; -1 when there is none. */
  function Before(ks: seq<nat>, k: nat): int {
    if ks == [] then -1
    else if ks[|ks| - 1] < k then ks[|ks| - 1]
    else Before(ks[..|ks| - 1], k)
  }

  predicate Rising(ks: seq<nat>, n: nat) {
    && (forall i, j :: 0 <= i < j < |ks| ==> ks[i] < ks[j])
    && (forall i :: 0 <= i < |ks| ==> ks[i] < n)
  }

  /** The offset at which each of the frames ks begins. */
  function OffsetsOf(fs: seq<Frame>, ks: seq<nat>, base: u64, pos: nat): seq<u64>
    requires pos >= SEGMENT_HEAD && Rising(ks, |fs|)
  {
    seq(|ks|, i requires 0 <= i < |ks| => ExpectedOffset(base, pos + Start(fs, ks[i])))
  }

  /** Frame k is due for an anchor, m being the anchored frame before it: interval frames lie behind m, or 64 KiB. */
  predicate Due(fs: seq<Frame>, m: int, k: nat, interval: nat)
    requires -1 <= m < k < |fs|
  {
    k - m == interval || Start(fs, k + 1) - Start(fs, m + 1) >= 64 * 1024
  }

  lemma {:induction false} BeforeMeaning(ks: seq<nat>, k: nat, n: nat)
    requires Rising(ks, n)
    ensures var m := Before(ks, k);
            && -1 <= m < k && (m == -1 || m in ks)
            && (forall j :: j in ks && j < k ==> j <= m)
    decreases |ks|
  {
    if ks != [] && ks[|ks| - 1] >= k {
      var init := ks[..|ks| - 1];
      BeforeMeaning(init, k, n);
      assert ks == init + [ks[|ks| - 1]];
    }
  }

  /** The anchored frames of fs: ks holds their numbers, and holds exactly the frames that were due. */
  predicate Sparse(fs: seq<Frame>, ks: seq<nat>, interval: nat) {
    && Rising(ks, |fs|)
    && (forall k :: 0 <= k < |fs| ==>
         -1 <= Before(ks, k) < k && (k in ks <==> Due(fs, Before(ks, k), k, interval)))
  }

  /** The scanner's counters measure the way from the latest anchored frame to the end. */
  predicate Counted(s: AnchorState, fs: seq<Frame>, ks: seq<nat>, interval: nat) {
    var m := Before(ks, |fs|);
    && -1 <= m < |fs|
    && s.times == |fs| - m - 1 && s.times < interval
    && s.bytes == Start(fs, |fs|) - Start(fs, m + 1) && s.bytes < ANCHOR_BYTES
  }

  lemma BeforeAppended(ks: seq<nat>, n: nat)
    requires Rising(ks, n)
    ensures forall k :: 0 <= k <= n ==> Before(ks + [n], k) == Before(ks, k)
    ensures Before(ks + [n], n + 1) == n
    ensures Before(ks, n + 1) == Before(ks, n)
  {
    assert (ks + [n])[..|ks|] == ks;
  }

  lemma DueInPrefix(fs: seq<Frame>, n: nat, m: int, k: nat, interval: nat)
    requires -1 <= m < k < n <= |fs|
    ensures Due(fs[..n], m, k, interval) == Due(fs, m, k, interval)
  {
    hide Start;
    StartsOfPrefix(fs, n);
  }

  /** One frame more, anchored when it is due. */
  lemma SparseStep(fs: seq<Frame>, ks: seq<nat>, interval: nat)
    requires fs != [] && Sparse(fs[..|fs| - 1], ks, interval)
    ensures var n := |fs| - 1;
            && -1 <= Before(ks, n) < n
            && Sparse(fs, if Due(fs, Before(ks, n), n, interval) then ks + [n] else ks, interval)
  {
    hide Due, Before, Start;
    var n := |fs| - 1;
    BeforeMeaning(ks, n, n);
    BeforeAppended(ks, n);
    var now := if Due(fs, Before(ks, n), n, interval) then ks + [n] else ks;
    forall k | 0 <= k < |fs|
      ensures -1 <= Before(now, k) < k && (k in now <==> Due(fs, Before(now, k), k, interval))
    {
      BeforeMeaning(now, k, |fs|);
      if k < n {
        DueInPrefix(fs, n, Before(ks, k), k, interval);
      }
    }
  }

  lemma OffsetsInPrefix(fs: seq<Frame>, n: nat, ks: seq<nat>, base: u64, pos: nat)
    requires pos >= SEGMENT_HEAD && n <= |fs| && Rising(ks, n)
    ensures OffsetsOf(fs[..n], ks, base, pos) == OffsetsOf(fs, ks, base, pos)
  {
    hide Start, ExpectedOffset;
    StartsOfPrefix(fs, n);
  }

  lemma NothingAnchored(fs: seq<Frame>, base: u64, pos: nat, interval: nat) returns (ks: seq<nat>)
    requires interval > 0 && pos >= SEGMENT_HEAD && fs == []
    ensures Sparse(fs, ks, interval)
    ensures AnchorsOf(fs, base, pos, interval).anchors == OffsetsOf(fs, ks, base, pos)
    ensures Counted(AnchorsOf(fs, base, pos, interval), fs, ks, interval)
  {
    ks := [];
  }

  lemma AnchorLawStep(fs: seq<Frame>, base: u64, pos: nat, interval: nat, was: seq<nat>) returns (ks: seq<nat>)
    requires interval > 0 && pos >= SEGMENT_HEAD && fs != []
    requires var gs := fs[..|fs| - 1];
             && Sparse(gs, was, interval)
             && AnchorsOf(gs, base, pos, interval).anchors == OffsetsOf(gs, was, base, pos)
             && Counted(AnchorsOf(gs, base, pos, interval), gs, was, interval)
    ensures Sparse(fs, ks, interval)
    ensures AnchorsOf(fs, base, pos, interval).anchors == OffsetsOf(fs, ks, base, pos)
    ensures Counted(AnchorsOf(fs, base, pos, interval), fs, ks, interval)
  {
    hide ExpectedOffset, FramesSize, Start, Before, AnchorsOf;
    var n := |fs| - 1;
    SparseStep(fs, was, interval);
    AnchorsInit(fs, base, pos, interval);
    StartNext(fs, n);
    QuotaReached(AnchorsOf(fs[..n], base, pos, interval).times, interval);
    BeforeAppended(was, n);
    OffsetsInPrefix(fs, n, was, base, pos);
    ks := if Due(fs, Before(was, n), n, interval) then was + [n] else was;
  }

  /** Which frames the scanner anchors: exactly those that are due, counted from the anchor before them. */
  lemma {:induction false} AnchorLaw(fs: seq<Frame>, base: u64, pos: nat, interval: nat) returns (ks: seq<nat>)
    requires interval > 0 && pos >= SEGMENT_HEAD
    ensures Sparse(fs, ks, interval)
    ensures AnchorsOf(fs, base, pos, interval).anchors == OffsetsOf(fs, ks, base, pos)
    ensures Counted(AnchorsOf(fs, base, pos, interval), fs, ks, interval)
  {
    hide ExpectedOffset, FramesSize, Start, Sparse, OffsetsOf, Before;
    if fs == [] {
      ks := NothingAnchored(fs, base, pos, interval);
    } else {
      var n := |fs| - 1;
      ks := AnchorLaw(fs[..n], base, pos, interval);
      ks := AnchorLawStep(fs, base, pos, interval, ks);
    }
  }

  /** Every anchor is the offset of a frame's first byte. */
  predicate AnchoredAt(fs: seq<Frame>, base: u64, pos: nat, a: u64, k: nat)
    requires pos >= SEGMENT_HEAD
  {
    k < |fs| && a == ExpectedOffset(base, pos + Start(fs, k))
  }

  lemma AnchorsAreStarts(fs: seq<Frame>, base: u64, pos: nat, interval: nat, i: nat) returns (k: nat)
    requires interval > 0 && pos >= SEGMENT_HEAD
    requires i < |AnchorsOf(fs, base, pos, interval).anchors|
    ensures AnchoredAt(fs, base, pos, AnchorsOf(fs, base, pos, interval).anchors[i], k)
  {
    hide AnchorsOf, ExpectedOffset, Start, Before, Due;
    var ks := AnchorLaw(fs, base, pos, interval);
    k := ks[i];
  }

  predicate Increasing(s: seq<u64>) {
    forall i, j :: 0 <= i < j < |s| ==> s[i] < s[j]
  }

  /** Anchors are strictly increasing as long as absolute offsets fit in 64 bits. */
  lemma {:induction false} AnchorsIncrease(fs: seq<Frame>, base: u64, pos: nat, interval: nat)
    requires interval > 0 && pos >= SEGMENT_HEAD
    requires base + (pos - SEGMENT_HEAD) + FramesSize(fs) <= U64_LIMIT
    ensures var s := AnchorsOf(fs, base, pos, interval).anchors;
            && Increasing(s)
            && (forall i :: 0 <= i < |s| ==> s[i] < base + (pos - SEGMENT_HEAD) + FramesSize(fs))
  {
    hide Start, FramesSize, ExpectedOffset;
    if fs != [] {
      var n := |fs| - 1;
      AnchorsInit(fs, base, pos, interval);
      StartNext(fs, n);
      StartOfEnd(fs);
      StartOfEnd(fs[..n]);
      OffsetsInOrder(fs, n, base, pos);
      AnchorsIncrease(fs[..n], base, pos, interval);
    }
  }

  /** What was anchored once stays anchored while the scan goes on. */
  lemma {:induction false} AnchorsGrow(fs: seq<Frame>, k: nat, base: u64, pos: nat, interval: nat)
    requires interval > 0 && pos >= SEGMENT_HEAD && k <= |fs|
    ensures AnchorsOf(fs[..k], base, pos, interval).anchors <= AnchorsOf(fs, base, pos, interval).anchors
  {
    if k == |fs| {
      assert fs[..k] == fs;
    } else {
      var n := |fs| - 1;
      AnchorsInit(fs, base, pos, interval);
      assert fs[..n][..k] == fs[..k];
      AnchorsGrow(fs[..n], k, base, pos, interval);
    }
  }

  /** Density: from any frame k, going back fewer than interval frames and fewer than ANCHOR_REACH bytes
      leads to an anchored frame m or to the first frame. */
  lemma AnchorNearby(fs: seq<Frame>, k: nat, base: u64, pos: nat, interval: nat) returns (m: nat)
    requires interval > 0 && pos >= SEGMENT_HEAD && k < |fs|
    ensures m <= k && k - m < interval && Start(fs, k) - Start(fs, m) < ANCHOR_REACH
    ensures m == 0 || ExpectedOffset(base, pos + Start(fs, m)) in AnchorsOf(fs, base, pos, interval).anchors
  {
    hide ExpectedOffset, FramesSize, AnchorsOf, Start, Before, Due;
    var gs := fs[..k + 1];
    var ks := AnchorLaw(gs, base, pos, interval);
    var latest := Before(ks, k + 1);
    BeforeMeaning(ks, k + 1, k + 1);
    AnchorsGrow(fs, k + 1, base, pos, interval);
    StartsOfPrefix(fs, k + 1);
    StartNext(fs, k);
    m := if latest < 0 then 0 else latest;
    if latest >= 0 {
      StartNext(fs, m);
      StartMonotone(fs, m, k);
      var i :| 0 <= i < |ks| && ks[i] == latest;
      assert AnchorsOf(gs, base, pos, interval).anchors[i] in AnchorsOf(fs, base, pos, interval).anchors;
    } else {
      assert Start(fs, 0) == 0 by { EmptyStart(fs); }
    }
  }

  /** A log short of both quotas leaves no anchor at all. */
  lemma ShortLogUnanchored(fs: seq<Frame>, base: u64, pos: nat, interval: nat)
    requires interval > 0 && pos >= SEGMENT_HEAD
    requires |fs| < interval && FramesSize(fs) < 64 * 1024
    ensures AnchorsOf(fs, base, pos, interval).anchors == []
  {
    hide AnchorsOf, Start, Before, FramesSize;
    var ks := AnchorLaw(fs, base, pos, interval);
    if ks != [] {
      var k := ks[0];
      var m := Before(ks, k);
      BeforeMeaning(ks, k, |fs|);
      StartOfEnd(fs);
      StartMonotone(fs, k + 1, |fs|);
    }
  }

  lemma EmptyStart(fs: seq<Frame>)
    ensures Start(fs, 0) == 0
  {
  }

  // ---------- looking an offset up ----------

  /** The plain search: the greatest entry that is not above target, 0 when there is none. */
  function LinearFind(s: seq<u64>, target: u64): u64 {
    if s == [] then 0
    else if s[|s| - 1] <= target then s[|s| - 1]
    else LinearFind(s[..|s| - 1], target)
  }

  /** Conversion of an unsigned 64-bit value to a 32-bit int and back, as an assignment through an int does. */
  function ThroughInt(a: u64): u64 {
    var low := a % U32_LIMIT;
    if low < 0x8000_0000 then low else U64_LIMIT - U32_LIMIT + low
  }

  /** The values that survive the way through an int. */
  lemma ThroughIntExact(a: u64)
    ensures ThroughInt(a) == a <==> a < 0x8000_0000 || a >= U64_LIMIT - 0x8000_0000
  {
  }

  /** What the search hands out for the entry g it found below its target. */
  function Handed(g: u64): u64 {
    if ThroughInt(g) == U64_LIMIT - 1 then 0 else ThroughInt(g)
  }

  /** The answer of the search that goes through an int: an entry equal to the target comes back whole. */
  function FoundThroughInt(s: seq<u64>, target: u64): u64 {
    if target in s then target else Handed(LinearFind(s, target))
  }

  lemma {:induction false} LinearFindMeaning(s: seq<u64>, target: u64)
    requires Increasing(s)
    ensures var r := LinearFind(s, target);
            if forall i :: 0 <= i < |s| ==> s[i] > target then r == 0
            else r in s && r <= target && (forall i :: 0 <= i < |s| && s[i] <= target ==> s[i] <= r)
  {
    if s != [] && s[|s| - 1] > target {
      var init := s[..|s| - 1];
      LinearFindMeaning(init, target);
      assert forall i :: 0 <= i < |s| - 1 ==> init[i] == s[i];
    }
  }

  lemma {:induction false} LinearFindNothing(s: seq<u64>, target: u64)
    requires forall i :: 0 <= i < |s| ==> s[i] > target
    ensures LinearFind(s, target) == 0
  {
    if s != [] {
      LinearFindNothing(s[..|s| - 1], target);
    }
  }

  /** The entries below n are at most target, those from n on are above it. */
  lemma {:induction false} LinearFindSplit(s: seq<u64>, target: u64, n: nat)
    requires 0 < n <= |s| && s[n - 1] <= target
    requires forall i :: n <= i < |s| ==> s[i] > target
    ensures LinearFind(s, target) == s[n - 1]
  {
    if n < |s| {
      LinearFindSplit(s[..|s| - 1], target, n);
    }
  }

  /** The program's search is the plain search exactly when the entry it lands on is the target itself
      or survives the way through an int. */
  lemma FindIdxExact(s: seq<u64>, target: u64)
    requires Increasing(s)
    ensures var g := LinearFind(s, target);
            FoundThroughInt(s, target) == g <==>
            target in s || g < 0x8000_0000 || g >= U64_LIMIT - 0x8000_0000
  {
    hide LinearFind;
    LinearFindMeaning(s, target);
    var g := LinearFind(s, target);
    ThroughIntExact(g);
    if target in s {
      var i :| 0 <= i < |s| && s[i] == target;
      assert s[i] <= g;
    }
  }

  /** Otherwise the answer keeps the low 32 bits of that entry and takes its sign from them; all ones become 0. */
  lemma FindIdxWrapped(s: seq<u64>, target: u64)
    requires target !in s
    ensures var g, r := LinearFind(s, target), FoundThroughInt(s, target);
            && (g % U32_LIMIT == 0xFFFF_FFFF ==> r == 0)
            && (g % U32_LIMIT != 0xFFFF_FFFF ==>
                 r % U32_LIMIT == g % U32_LIMIT && (r < 0x8000_0000 || r >= 0xFFFF_FFFF_8000_0000))
  {
    hide LinearFind;
  }

  /** An anchor at 2 GiB is lost: a reader looking for the byte behind it is sent far beyond the log. */
  lemma FindIdxLosesLargeAnchors()
    ensures LinearFind([0x8000_0000], 0x8000_0001) == 0x8000_0000
    ensures FoundThroughInt([0x8000_0000], 0x8000_0001) == 0xFFFF_FFFF_8000_0000
  {
  }

  /** A lookup below the last byte of frame k starts the reader close in front of it. */
  lemma LookupIsClose(fs: seq<Frame>, k: nat, base: u64, pos: nat, interval: nat, target: u64) returns (m: nat)
    requires interval > 0 && pos >= SEGMENT_HEAD && k < |fs|
    requires base + (pos - SEGMENT_HEAD) + FramesSize(fs) <= U64_LIMIT
    requires base + (pos - SEGMENT_HEAD) + Start(fs, k) <= target < base + (pos - SEGMENT_HEAD) + Start(fs, k + 1)
    ensures var found := LinearFind(AnchorsOf(fs, base, pos, interval).anchors, target);
            && m <= k && k - m < interval && Start(fs, k) - Start(fs, m) < ANCHOR_REACH
            && (found == ExpectedOffset(base, pos + Start(fs, m)) || (found == 0 && m == 0))
  {
    hide FramesSize, AnchorsOf, LinearFind, ExpectedOffset;
    var s := AnchorsOf(fs, base, pos, interval).anchors;
    AnchorsIncrease(fs, base, pos, interval);
    LinearFindMeaning(s, target);
    var near := AnchorNearby(fs, k, base, pos, interval);
    var found := LinearFind(s, target);
    OffsetsInOrder(fs, near, base, pos);
    StartMonotone(fs, near, k);
    if forall i :: 0 <= i < |s| ==> s[i] > target {
      m := 0;
      if near != 0 {
        assert false;
      }
    } else {
      var i :| 0 <= i < |s| && s[i] == found;
      m := AnchorsAreStarts(fs, base, pos, interval, i);
      OffsetsInOrder(fs, m, base, pos);
      if m > k {
        StartMonotone(fs, k + 1, m);
        assert false;
      }
      if m < near {
        StartMonotone(fs, m, near);
        assert false;
      }
      StartMonotone(fs, near, m);
    }
  }

  /** End to end: what the program's search returns for an offset within frame k starts the reader close in front of it,
      or at the first frame, as long as the anchors lie below 2^31. */
  lemma FindIdxIsClose(fs: seq<Frame>, k: nat, base: u64, pos: nat, interval: nat, target: u64) returns (m: nat)
    requires interval > 0 && pos >= SEGMENT_HEAD && k < |fs|
    requires base + (pos - SEGMENT_HEAD) + FramesSize(fs) <= U64_LIMIT
    requires base + (pos - SEGMENT_HEAD) + Start(fs, k) <= target < base + (pos - SEGMENT_HEAD) + Start(fs, k + 1)
    requires forall a :: a in AnchorsOf(fs, base, pos, interval).anchors ==> a < 0x8000_0000
    ensures var found := FoundThroughInt(AnchorsOf(fs, base, pos, interval).anchors, target);
            && m <= k && k - m < interval && Start(fs, k) - Start(fs, m) < ANCHOR_REACH
            && (found == ExpectedOffset(base, pos + Start(fs, m)) || (found == 0 && m == 0))
  {
    hide AnchorsOf, Start, FoundThroughInt, ExpectedOffset;
    var s := AnchorsOf(fs, base, pos, interval).anchors;
    AnchorsIncrease(fs, base, pos, interval);
    LinearFindMeaning(s, target);
    FindIdxExact(s, target);
    m := LookupIsClose(fs, k, base, pos, interval, target);
  }
}
