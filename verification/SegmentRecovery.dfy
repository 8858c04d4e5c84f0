/** The recovery scanner as the program runs it: one reused read buffer, one pass, a verdict and an index. */
module Recovery {
  import opened Bytes
  import opened FileIo
  import opened SegmentFormat
  import opened SegmentScan
  import opened AnchorIndex

  datatype EndKind = EndClean | EndTorn | EndCorrupt | HeadBad
  datatype ScanEnd = ScanEnd(kind: EndKind, validEnd: nat, tornEnd: nat, corruptAt: CorruptAt, lastEpoch: u32)

  /** The answer record for a scan that started at pos. */
  function EndOf(pos: nat, r: Scan): ScanEnd {
    var e, last := pos + FramesSize(r.frames), LastEpoch(0, r.frames);
    match r.stop
    case CleanEnd => ScanEnd(EndClean, e, 0, AtLen, last)
    case TornTail => ScanEnd(EndTorn, e, e, AtLen, last)
    case Corrupted(at) => ScanEnd(EndCorrupt, if r.frames == [] then 0 else e, 0, at, last)
  }

  /** The answer for a whole file; stale is what positions 8..12 of the read buffer hold at the start. */
  function Verdict(file: seq<byte>, pos: nat, prev: u32, stale: seq<byte>): ScanEnd
    requires |stale| == 4
    requires SegmentBase(file) != 0 ==> SEGMENT_HEAD <= pos <= |file|
  {
    if SegmentBase(file) == 0 then ScanEnd(HeadBad, 0, 0, AtLen, 0)
    else EndOf(pos, ScanFrom(file, SegmentBase(file), pos, prev, stale))
  }

  /** What a read leaves at positions 8..12 of the buffer is what the scan takes for the length field. */
  lemma BufferAfterRead(file: seq<byte>, pos: nat, before: seq<byte>, after: seq<byte>, n: nat)
    requires |before| == |after| && |after| >= 12 && pos <= |file| && n <= |after|
    requires n <= |file| - pos && (n == |file| - pos || n >= 12)
    requires after[..n] == file[pos..pos + n] && after[n..] == before[n..]
    ensures after[8..12] == LenBytesSeen(file, pos, before[8..12])
    ensures U32At(after, 8) == LenSeen(file, pos, before[8..12])
  {
    var seen := LenBytesSeen(file, pos, before[8..12]);
    forall i | 0 <= i < 4
      ensures after[8 + i] == seen[i]
    {
      if 8 + i < n {
        assert after[..n][8 + i] == file[pos..pos + n][8 + i];
      } else {
        assert after[n..][8 + i - n] == before[n..][8 + i - n];
      }
    }
    assert after[8..12] == seen;
  }

  /** One turn of the loop in terms of what was read: n bytes, of which the length field says len. */
  lemma TurnCases(file: seq<byte>, base: u64, pos: nat, prev: u32, stale: seq<byte>, n: nat)
    requires SEGMENT_HEAD <= pos <= |file| && |stale| == 4
    requires n == Min(FRAME_HEAD + Min(MESSAGE_MAX, |file| - pos), |file| - pos)
    ensures var len, t := LenSeen(file, pos, stale), TakeTurn(file, base, pos, prev, stale);
            if len > MESSAGE_MAX then t == Stopped(Corrupted(AtLen))
            else if n < FRAME_HEAD || n < FRAME_HEAD + len then t == Stopped(TornTail)
            else
              var c := CheckFrame(file, pos, n, ExpectedOffset(base, pos), prev);
              && !c.kind.Torn?
              && (c.kind.Corrupt? ==> t == Stopped(Corrupted(c.corruptAt)))
              && (c.kind.Valid? ==>
                    && c.corruptAt == AtLen && t.Accepted? && c.len == |t.frame.payload| == len
                    && c.epoch == t.frame.epoch
                    && pos + FrameSize(t.frame) <= |file|)
  {
    hide LenBytesSeen, Crc32.Crc;
    if pos + 12 <= |file| {
      LenSeenWhole(file, pos, stale);
    }
  }

  /** The scan of the whole file is the frames done so far followed by the scan from here. */
  ghost predicate Progress(whole: Scan, file: seq<byte>, base: u64, start: nat, prev0: u32, done: seq<Frame>,
                           pos: nat, prev: u32, stale: seq<byte>) {
    && SEGMENT_HEAD <= pos <= |file| && |stale| == 4
    && pos == start + FramesSize(done) && prev == LastEpoch(prev0, done)
    && whole == After(done, ScanFrom(file, base, pos, prev, stale))
  }

  lemma ProgressStarts(file: seq<byte>, base: u64, pos: nat, prev: u32, stale: seq<byte>, interval: nat)
    requires SEGMENT_HEAD <= pos <= |file| && |stale| == 4 && interval > 0
    ensures Progress(ScanFrom(file, base, pos, prev, stale), file, base, pos, prev, [], pos, prev, stale)
    ensures AnchorsOf([], base, pos, interval) == AnchorState([], 0, 0) && FramesSize([]) == 0
  {
    hide ScanFrom;
    var r := ScanFrom(file, base, pos, prev, stale);
    assert [] + r.frames == r.frames;
  }

  lemma ProgressStops(whole: Scan, file: seq<byte>, base: u64, start: nat, prev0: u32, done: seq<Frame>,
                      pos: nat, prev: u32, stale: seq<byte>)
    requires Progress(whole, file, base, start, prev0, done, pos, prev, stale)
    requires TakeTurn(file, base, pos, prev, stale).Stopped?
    ensures whole == Scan(done, TakeTurn(file, base, pos, prev, stale).stop)
  {
    hide TakeTurn, FramesSize;
    FirstTurn(file, base, pos, prev, stale);
    assert done + [] == done;
  }

  lemma ProgressAdvances(whole: Scan, file: seq<byte>, base: u64, start: nat, prev0: u32, done: seq<Frame>,
                         pos: nat, prev: u32, stale: seq<byte>)
    requires Progress(whole, file, base, start, prev0, done, pos, prev, stale)
    requires TakeTurn(file, base, pos, prev, stale).Accepted?
    ensures var f := TakeTurn(file, base, pos, prev, stale).frame;
            var next := pos + FrameSize(f);
            && next == start + FramesSize(done + [f])
            && next <= |file|
            && if next == |file| then whole == Scan(done + [f], CleanEnd)
               else Progress(whole, file, base, start, prev0, done + [f], next, f.epoch, LenBytesSeen(file, pos, stale))
  {
    hide TakeTurn, LenBytesSeen, FrameAt, FrameStartsAt, FramesBytes;
    var f := TakeTurn(file, base, pos, prev, stale).frame;
    var next := pos + FrameSize(f);
    TurnFits(file, base, pos, prev, stale, f);
    FramesBytesAppend(done, [f]);
    assert FramesSize([f]) == FrameSize(f);
    if next < |file| {
      var rest := ScanFrom(file, base, next, f.epoch, LenBytesSeen(file, pos, stale));
      assert done + ([f] + rest.frames) == done + [f] + rest.frames;
    }
  }

  lemma AnchorsSnoc(fs: seq<Frame>, f: Frame, base: u64, pos: nat, interval: nat)
    requires interval > 0 && pos >= SEGMENT_HEAD
    ensures AnchorsOf(fs + [f], base, pos, interval) ==
            AnchorStep(AnchorsOf(fs, base, pos, interval), ExpectedOffset(base, pos + FramesSize(fs)),
                FrameSize(f), interval)
  {
    hide ExpectedOffset, FramesSize, AnchorStep;
    assert (fs + [f])[..|fs|] == fs;
  }

  class SegmentRecovery {
    var buf: array<byte>
    var idx: seq<u64>
    var file: File
    var offset: nat
    var prevEpoch: u32
    const interval: nat

    constructor (interval: nat, file: File)
      ensures buf.Length == FRAME_HEAD + MESSAGE_MAX && fresh(buf)
      ensures this.interval == interval && this.file == file
      ensures idx == [] && offset == SEGMENT_HEAD && prevEpoch == 0
    {
      this.interval := interval;
      this.file := file;
      idx := [];
      offset := SEGMENT_HEAD;
      prevEpoch := 0;
      buf := new byte[FRAME_HEAD + MESSAGE_MAX];
    }

    method ReadSegment32() returns (base: u64)
      ensures file.healthy ==> base == SegmentBase(file.data)
      ensures base != 0 ==> base == SegmentBase(file.data)
    {
      hide CompareMagicCrc;
      var head := new byte[SEGMENT_HEAD];
      var n := file.Pread(head, SEGMENT_HEAD, 0);
      if n != SEGMENT_HEAD {
        return 0;
      }
      assert head[..] == file.data[..SEGMENT_HEAD];
      assert U64At(head[..], 12) == U64At(file.data, 12);
      base := if CompareMagicCrc(head[..]) then U64At(head[..], 12) else 0;
    }

    method ServerIdx(anchor: u64)
      modifies this`idx
      ensures idx == old(idx) + [anchor]
    {
      idx := idx + [anchor];
    }

    method TruncateSegment(len: nat)
      requires len <= |file.data|
      modifies file`data, file`refused
      ensures file.data == old(file.data)[..len] || file.data == old(file.data)
      ensures file.refused == old(file.refused) ==> file.data == old(file.data)[..len]
    {
      var r := file.Ftruncate(len);
    }

    /** One read of the loop: as much of the next frame as there can be, and the length field it shows. */
    method ReadFrame(ghost base: u64, size: nat) returns (n: int, len: nat)
      requires buf.Length == FRAME_HEAD + MESSAGE_MAX
      requires SEGMENT_HEAD <= offset <= size == |file.data|
      modifies buf
      ensures n == -1 ==> !file.healthy
      ensures n <= buf.Length
      ensures n != -1 ==> buf[8..12] == LenBytesSeen(file.data, offset, old(buf[8..12]))
      ensures n != -1 ==>
                var t := TakeTurn(file.data, base, offset, prevEpoch, old(buf[8..12]));
                if len > MESSAGE_MAX then t == Stopped(Corrupted(AtLen))
                else if n < FRAME_HEAD || n < FRAME_HEAD + len then t == Stopped(TornTail)
                else
                  var c := CheckFrame(buf[..], 0, n, ExpectedOffset(base, offset), prevEpoch);
                  && !c.kind.Torn?
                  && (c.kind.Corrupt? ==> t == Stopped(Corrupted(c.corruptAt)))
                  && (c.kind.Valid? ==>
                        && c.corruptAt == AtLen && t.Accepted? && c.len == |t.frame.payload| == len
                        && c.epoch == t.frame.epoch)
    {
      hide TakeTurn, ExpectedOffset, CheckFrame, U32At, FrameAt, FrameStartsAt, LenBytesSeen, LenSeen;
      ghost var before, stale := buf[..], buf[8..12];
      n := file.Pread(buf, FRAME_HEAD + Min(MESSAGE_MAX, size - offset), offset);
      len := U32At(buf[..], 8);
      if n != -1 {
        BufferAfterRead(file.data, offset, before, buf[..], n);
        TurnCases(file.data, base, offset, prevEpoch, stale, n);
        if n >= FRAME_HEAD {
          assert buf[..][0..n] == file.data[offset..offset + n];
          CheckFrameLocal(buf[..], 0, file.data, offset, n, ExpectedOffset(base, offset), prevEpoch);
        }
      }
    }

    /** The pass over the file. A fresh object starts at 32; what the same object scanned before is not read again. */
    method SegmentScanner() returns (ans: ScanEnd)
      requires buf.Length == FRAME_HEAD + MESSAGE_MAX && interval > 0
      requires SegmentBase(file.data) != 0 ==> SEGMENT_HEAD <= offset <= |file.data|
      modifies this`idx, this`offset, this`prevEpoch, buf
      ensures file.healthy ==> ans == Verdict(file.data, old(offset), old(prevEpoch), old(buf[8..12]))
      ensures file.healthy && ans.kind != HeadBad ==>
                var r := ScanFrom(file.data, SegmentBase(file.data), old(offset), old(prevEpoch), old(buf[8..12]));
                && offset == old(offset) + FramesSize(r.frames)
                && prevEpoch == LastEpoch(old(prevEpoch), r.frames)
                && idx == old(idx) + AnchorsOf(r.frames, SegmentBase(file.data), old(offset), interval).anchors
    {
      hide ScanFrom, TakeTurn, FramesSize, AnchorsOf, ExpectedOffset, CheckFrame, SegmentBase, U32At,
           FrameAt, FrameStartsAt, LenBytesSeen, LenSeen, Progress, FrameBytes, ThroughInt, CompareMagicCrc,
               LenBytesAfter;
      var base := ReadSegment32();
      var times, byteSince := 0, 0;
      var size := file.Fstat();
      if size == -1 {
        return ScanEnd(EndCorrupt, 0, 0, AtLen, 0);
      }
      if base == 0 {
        return ScanEnd(HeadBad, 0, 0, AtLen, 0);
      }
      ghost var data, start, prev0, anchored := file.data, offset, prevEpoch, idx;
      ghost var whole := ScanFrom(data, base, offset, prevEpoch, buf[8..12]);
      ghost var done: seq<Frame> := [];
      ProgressStarts(data, base, offset, prevEpoch, buf[8..12], interval);
      var lastEpoch: u32, validEnd: nat := 0, 0;
      while true
        invariant SEGMENT_HEAD <= start && size == |data|
        invariant Progress(whole, data, base, start, prev0, done, offset, prevEpoch, buf[8..12])
        invariant offset <= size && offset == start + FramesSize(done) && prevEpoch == LastEpoch(prev0, done)
        invariant lastEpoch == LastEpoch(0, done) && validEnd == if done == [] then 0 else offset
        invariant AnchorsOf(done, base, start, interval).times == times
        invariant AnchorsOf(done, base, start, interval).bytes == byteSince
        invariant idx == anchored + AnchorsOf(done, base, start, interval).anchors
        decreases size - offset
      {
        ghost var stale := buf[8..12];
        var n, len := ReadFrame(base, size);
        if n != -1 && TakeTurn(data, base, offset, prevEpoch, stale).Stopped? {
          ProgressStops(whole, data, base, start, prev0, done, offset, prevEpoch, stale);
        }
        if len > MESSAGE_MAX {
          return ScanEnd(EndCorrupt, validEnd, 0, AtLen, lastEpoch);
        }
        if n < FRAME_HEAD || n < FRAME_HEAD + len {
          return ScanEnd(EndTorn, offset, offset, AtLen, lastEpoch);
        }
        var result := CheckFrame(buf[..], 0, n, ExpectedOffset(base, offset), prevEpoch);
        if result.kind.Corrupt? {
          return ScanEnd(EndCorrupt, validEnd, 0, result.corruptAt, lastEpoch);
        }
        if result.kind.Torn? {
          return ScanEnd(EndTorn, offset, offset, result.corruptAt, lastEpoch);
        }
        ghost var f := TakeTurn(data, base, offset, prevEpoch, stale).frame;
        ProgressAdvances(whole, data, base, start, prev0, done, offset, prevEpoch, stale);
        AnchorsSnoc(done, f, base, start, interval);
        times, byteSince, lastEpoch := times + 1, byteSince + FRAME_HEAD + len, result.epoch;
        if times % interval == 0 || byteSince >= 1024 * 64 {
          times, byteSince := 0, 0;
          ServerIdx(ExpectedOffset(base, offset));
        }
        done := done + [f];
        offset := offset + result.len + FRAME_HEAD;
        prevEpoch := result.epoch;
        validEnd := offset;
        if validEnd == size {
          return ScanEnd(EndClean, validEnd, 0, result.corruptAt, lastEpoch);
        }
      }
    }

    /** Binary search over the anchors; the candidate is kept in an int. */
    method FindIdx(target: u64) returns (r: u64)
      requires Increasing(idx) && |idx| <= 0x8000_0000
      ensures r == FoundThroughInt(idx, target)
    {
      hide LinearFind;
      if idx == [] {
        LinearFindNothing(idx, target);
        return 0;
      }
      var left, right := 0, |idx| - 1;
      var result := U64_LIMIT - 1;
      while left <= right
        invariant 0 <= left <= right + 1 <= |idx|
        invariant forall i :: 0 <= i < left ==> idx[i] < target
        invariant forall i :: right < i < |idx| ==> idx[i] > target
        invariant result == if left == 0 then U64_LIMIT - 1 else ThroughInt(idx[left - 1])
      {
        var medium := left + (right - left) / 2;
        if target == idx[medium] {
          return idx[medium];
        } else if target > idx[medium] {
          left := medium + 1;
          result := ThroughInt(idx[medium]);
        } else {
          right := medium - 1;
        }
      }
      if left == 0 {
        LinearFindNothing(idx, target);
      } else {
        LinearFindSplit(idx, target, left);
      }
      r := if result != U64_LIMIT - 1 then result else 0;
    }
  }
}
