/** The writer of a segment. Writes may be short or fail and truncations may be refused;
    the bytes below offset are always exactly what the successful appends wrote. */
module SegmentWriter {
  import opened Bytes
  import opened Crc32
  import opened FileIo
  import opened SegmentFormat
  import opened SegmentScan
  import opened Recovery
  import opened RecoveryProofs

  class Segment {
    var file: File?
    var offset: nat
    var baseOffset: u64
    var walltime: u64
    var lastEpoch: u32
    /** What was on disk when the file was opened, the epoch the writer started with, and the successful appends. */
    ghost var prior: seq<byte>
    ghost var firstEpoch: u32
    ghost var log: seq<Frame>

    ghost predicate Valid()
      reads this, file
    {
      && file != null
      && offset <= |file.data|
      && file.data[..offset] == prior + FramesBytes(log)
      && lastEpoch == LastEpoch(firstEpoch, log)
    }

    /** A file, if there is one, reaches at least to offset; this holds even after opening has failed. */
    ghost predicate Open()
      reads this, file
    {
      file != null ==> offset <= |file.data|
    }

    constructor ()
      ensures file == null && offset == 0 && baseOffset == 0 && walltime == 0 && lastEpoch == 0
    {
      file := null;
      offset, baseOffset, walltime, lastEpoch := 0, 0, 0, 0;
      prior, firstEpoch, log := [], 0, [];
    }

    /** Writes w at offset, and succeeds exactly when the write was whole. On any failure offset and everything below
        it stay as they were. */
    method WriteLen(w: seq<byte>) returns (ok: bool)
      requires file != null && Open()
      modifies this`offset, file`data, file`refused, file`faults
      ensures Open()
      ensures ok ==> file.data == Overwritten(old(file.data), old(offset), w)
      ensures !ok && old(|file.data|) == old(offset) ==> LeftBehind(old(file.data), file.data, w)
      ensures ok ==> offset == old(offset) + |w| && file.data[..offset] == old(file.data[..offset]) + w
      ensures !ok ==> offset == old(offset) && file.data[..offset] == old(file.data[..offset])
      ensures old(|file.data|) == old(offset) && file.refused == old(file.refused) ==> |file.data| == offset
      ensures file.refused >= old(file.refused)
      ensures ok ==> file.refused == old(file.refused)
      ensures file.faults >= old(file.faults) && (ok <==> file.faults == old(file.faults))
    {
      var n := file.Pwrite(w, offset);
      if n == -1 {
        ok := false;
      } else if n < |w| {
        assert old(file.data)[..offset] == old(file.data) || old(|file.data|) != offset;
        assert |file.data| == offset + n || old(|file.data|) != offset;
        var r := file.Ftruncate(offset);
        ok := false;
      } else {
        assert w[..n] == w;
        offset := offset + |w|;
        ok := true;
      }
    }

    /** A new file (null: open failed). The header carries the member baseOffset. */
    method Creat(target: File?, now: u64) returns (ok: bool)
      requires target != null ==> target.data == []
      requires offset == 0
      modifies this, target
      ensures Open()
      ensures ok <==> target != null && target.faults == old(target.faults)
      ensures ok ==> Valid() && file == target && file.data == prior == HeaderBytes(1, old(baseOffset), now)
      ensures ok ==> log == [] && offset == SEGMENT_HEAD && lastEpoch == old(lastEpoch)
      ensures target != null && target.refused == old(target.refused) && !ok && offset == 0 ==> target.data == []
    {
      file := target;
      if file == null {
        return false;
      }
      var head := HeaderBytes(1, baseOffset, now);
      ok := WriteLen(head);
      if !ok {
        var r := file.Ftruncate(offset);
        return false;
      }
      var synced := file.Sync();
      if synced == -1 {
        return false;
      }
      var named := file.Sync();
      if named == -1 {
        return false;
      }
      prior, firstEpoch, log := head, lastEpoch, [];
      assert file.data == file.data[..offset];
      assert old(target.data)[..0] + head == head;
    }

    /** An existing file (null: open failed). lastEpoch is not read back from disk. */
    method OpenAppend(target: File?) returns (ok: bool)
      modifies this
      ensures old(offset) == 0 ==> Open()
      ensures ok ==> Valid() && file == target && prior == file.data && log == [] && offset == |file.data|
      ensures ok ==> |file.data| >= SEGMENT_HEAD && CompareMagicCrc(file.data[..SEGMENT_HEAD])
      ensures ok ==> baseOffset == U64At(file.data, 12) && walltime == U64At(file.data, 20)
      ensures lastEpoch == old(lastEpoch)
      ensures target != null && target.healthy ==>
                (ok <==> |target.data| >= SEGMENT_HEAD && CompareMagicCrc(target.data[..SEGMENT_HEAD]))
    {
      hide CompareMagicCrc, U64At, FrameBytes;
      file := target;
      if file == null {
        return false;
      }
      var head := new byte[SEGMENT_HEAD];
      var n := file.Pread(head, SEGMENT_HEAD, 0);
      if n != SEGMENT_HEAD {
        return false;
      }
      assert head[..] == file.data[..SEGMENT_HEAD];
      U64InPrefix(file.data, SEGMENT_HEAD, 12);
      U64InPrefix(file.data, SEGMENT_HEAD, 20);
      if !CompareMagicCrc(head[..]) {
        return false;
      }
      baseOffset, walltime := U64At(head[..], 12), U64At(head[..], 20);
      var size := file.Fstat();
      if size == -1 {
        return false;
      }
      offset := size;
      prior, firstEpoch, log := file.data, lastEpoch, [];
      assert file.data[..offset] == prior + [];
      return true;
    }

    /** Appends one frame: all of it if the frame is acceptable and both writes are whole, and then it counts. Otherwise
        nothing below offset changes; what a refused truncation leaves behind offset is the beginning of the frame,
        and it is the whole frame only if the payload is empty. */
    method Append(resp: seq<byte>, byteOff: u64, epoch: u32) returns (ok: bool)
      requires Open()
      modifies this`offset, this`lastEpoch, this`log, file
      ensures Open() && (old(Valid()) ==> Valid())
      ensures ok <==> && |resp| <= MESSAGE_MAX && epoch >= old(lastEpoch)
                      && file != null && file.faults == old(file.faults)
      ensures |resp| > MESSAGE_MAX || epoch < old(lastEpoch) ==> !ok && (file != null ==> file.data == old(file.data))
      ensures ok ==> log == old(log) + [Frame(byteOff, epoch, resp)] && offset == old(offset) + FRAME_HEAD + |resp|
      ensures ok ==> file.data[..offset] == old(file.data[..offset]) + FrameBytes(Frame(byteOff, epoch, resp))
      ensures !ok ==> log == old(log) && offset == old(offset)
      ensures file != null ==> file.data[..old(offset)] == old(file.data[..offset])
      ensures file != null && old(|file.data|) == old(offset) && file.refused == old(file.refused) ==>
                |file.data| == offset
      ensures !ok && file != null && old(|file.data|) == old(offset) && |resp| <= MESSAGE_MAX ==>
                var left, frame := file.data[offset..], FrameBytes(Frame(byteOff, epoch, resp));
                left <= frame && (left == frame ==> resp == [])
    {
      hide FrameBytes, FramesBytes;
      if |resp| > MESSAGE_MAX {
        return false;
      }
      if epoch < lastEpoch {
        return false;
      }
      if file == null {
        return false;
      }
      var f := Frame(byteOff, epoch, resp);
      ok := WriteFrame(f);
      if ok {
        lastEpoch := epoch;
        log := log + [f];
        AppendedBytes(old(log), f);
      }
    }

    /** The two writes of append; when the second fails, the first is taken back. */
    method WriteFrame(f: Frame) returns (ok: bool)
      requires file != null && Open()
      modifies this`offset, file
      ensures Open() && offset >= old(offset)
      ensures ok <==> file.faults == old(file.faults)
      ensures offset == if ok then old(offset) + FrameSize(f) else old(offset)
      ensures file.data[..old(offset)] == old(file.data[..offset])
      ensures ok ==> file.data[..offset] == old(file.data[..offset]) + FrameBytes(f)
      ensures old(|file.data|) == old(offset) && file.refused == old(file.refused) ==> |file.data| == offset
      ensures !ok && old(|file.data|) == old(offset) ==>
                var left := file.data[offset..];
                left <= FrameBytes(f) && (left == FrameBytes(f) ==> f.payload == [])
    {
      hide FrameHeadBytes;
      ghost var before, below, head := file.data, file.data[..offset], FrameHeadBytes(f);
      ok := WriteLen(FrameHeadBytes(f));
      if !ok {
        if |before| == offset {
          HeadLeft(before, file.data, head, f.payload);
        }
        return;
      }
      ghost var middle := file.data;
      assert |before| == old(offset) ==> middle == before + head;
      ok := WriteLen(f.payload);
      if ok {
        assert file.data[..offset] == below + head + f.payload == below + FrameBytes(f);
        assert file.data[..old(offset)] == file.data[..offset][..old(offset)];
      } else {
        assert file.data[..offset - FRAME_HEAD] == file.data[..offset][..offset - FRAME_HEAD];
        if |before| == old(offset) {
          PayloadLeft(before, file.data, head, f.payload);
        }
        offset := offset - FRAME_HEAD;
        var r := file.Ftruncate(offset);
      }
    }
  }

  /** A failed write left the first bytes of w behind the file, or nothing. */
  predicate LeftBehind(before: seq<byte>, after: seq<byte>, w: seq<byte>) {
    before <= after && after[|before|..] <= w && (after != before ==> after[|before|..] != w)
  }

  lemma HeadLeft(before: seq<byte>, after: seq<byte>, head: seq<byte>, payload: seq<byte>)
    requires LeftBehind(before, after, head) && head != []
    ensures after[|before|..] <= head + payload && after[|before|..] != head + payload
  {
  }

  lemma PayloadLeft(before: seq<byte>, after: seq<byte>, head: seq<byte>, payload: seq<byte>)
    requires LeftBehind(before + head, after, payload)
    ensures before <= after && after[|before|..] <= head + payload
    ensures after[|before|..] == head + payload ==> payload == []
  {
    var more := after[|before + head|..];
    assert after == before + head + more;
    assert after[|before|..] == head + more;
    if head + more == head + payload {
      assert (head + more)[|head|..] == more && (head + payload)[|head|..] == payload;
    }
  }

  lemma AppendedBytes(fs: seq<Frame>, f: Frame)
    ensures FramesBytes(fs + [f]) == FramesBytes(fs) + FrameBytes(f)
  {
    hide FrameBytes;
    FramesBytesAppend(fs, [f]);
    assert FramesBytes([f]) == FrameBytes(f) + FramesBytes([]);
    assert FrameBytes(f) + [] == FrameBytes(f);
  }

  // ---------- what a session leaves for recovery ----------

  /** The caller numbered the appends by their place and did not go back behind the epoch on disk. */
  predicate Disciplined(prior: seq<byte>, onDisk: seq<Frame>, log: seq<Frame>) {
    && |prior| >= SEGMENT_HEAD
    && Placed(SegmentBase(prior), |prior|, LastEpoch(0, onDisk), log)
  }

  /** One more append with the expected offset and a current epoch keeps the discipline. */
  lemma DisciplineKept(prior: seq<byte>, onDisk: seq<Frame>, log: seq<Frame>, f: Frame)
    requires Disciplined(prior, onDisk, log)
    ensures Disciplined(prior, onDisk, log + [f]) <==>
            f.offset == ExpectedOffset(SegmentBase(prior), |prior| + FramesSize(log))
            && f.epoch >= LastEpoch(LastEpoch(0, onDisk), log)
  {
    hide FramesSize, SegmentBase, ExpectedOffset;
    PlacedAppend(SegmentBase(prior), |prior|, LastEpoch(0, onDisk), log, [f]);
    assert [f][1..] == [];
  }

  lemma SessionOnDisk(data: seq<byte>, offset: nat, prior: seq<byte>, onDisk: seq<Frame>, log: seq<Frame>)
    requires SegmentBase(prior) != 0 && LogUpTo(prior, onDisk, |prior|) && Disciplined(prior, onDisk, log)
    requires offset <= |data| && data[..offset] == prior + FramesBytes(log)
    ensures SegmentBase(data) == SegmentBase(prior)
    ensures LogUpTo(data, onDisk + log, offset)
  {
    hide FramesSize, FramesBytes, SegmentBase, Placed;
    var base, n := SegmentBase(prior), |prior|;
    FramesBytesSize(log);
    FramesBytesAppend(onDisk, log);
    assert data[..n] == data[..offset][..n] == prior;
    BaseOfPrefix(data, n);
    HoldsCut(data, base, SEGMENT_HEAD, 0, onDisk, n);
    assert data[n..offset] == data[..offset][n..] == FramesBytes(log);
    HoldsAppend(data, base, SEGMENT_HEAD, 0, onDisk, log);
  }

  /** After any session: every frame that was on disk or was appended successfully is found by a scan after a crash
      at any length that keeps the bytes below offset, whatever failed writes left behind them. If no truncation was
      refused the file ends at offset, is clean, and holds exactly those frames. */
  lemma SessionSurvives(data: seq<byte>, offset: nat, prior: seq<byte>, onDisk: seq<Frame>, log: seq<Frame>,
                        cut: nat, stale: seq<byte>)
    requires SegmentBase(prior) != 0 && LogUpTo(prior, onDisk, |prior|) && Disciplined(prior, onDisk, log)
    requires offset <= |data| && data[..offset] == prior + FramesBytes(log)
    requires offset <= cut <= |data| && |stale| == 4
    ensures |data[..cut]| >= SEGMENT_HEAD
    ensures onDisk + log <= ScanFrom(data[..cut], SegmentBase(prior), SEGMENT_HEAD, 0, stale).frames
    ensures onDisk + log != [] ==> FreshVerdict(data[..cut], stale).validEnd >= offset
    ensures cut == offset ==> ScanFrom(data[..cut], SegmentBase(prior), SEGMENT_HEAD, 0, stale).frames == onDisk + log
    ensures onDisk + log != [] && cut == offset ==>
              FreshVerdict(data[..cut], stale) == ScanEnd(EndClean, offset, 0, AtLen, LastEpoch(0, onDisk + log))
  {
    hide FramesSize, FramesBytes, SegmentBase, Holds, ScanFrom, Placed;
    SessionOnDisk(data, offset, prior, onDisk, log);
    WrittenFramesSurvive(data, onDisk + log, offset, cut, stale);
    HoldsCut(data, SegmentBase(data), SEGMENT_HEAD, 0, onDisk + log, cut);
    if cut == offset {
      ScanTakes(data[..cut], SegmentBase(data), SEGMENT_HEAD, 0, stale, onDisk + log);
      NothingBehind(data[..cut], SegmentBase(data), SEGMENT_HEAD, 0, stale, onDisk + log);
    }
  }

  /** Where the file ends with its frames, the scan finds no others. */
  lemma NothingBehind(file: seq<byte>, base: u64, pos: nat, prev: u32, stale: seq<byte>, fs: seq<Frame>)
    requires |stale| == 4 && Holds(file, base, pos, prev, fs) && pos + FramesSize(fs) == |file|
    ensures ScanFrom(file, base, pos, prev, stale).frames == fs
  {
    hide FramesBytes, Placed, TakeTurn, FrameBytes;
    ScanTakes(file, base, pos, prev, stale, fs);
    if fs == [] {
      NothingLeft(file, base, pos, prev, stale);
    }
  }

  lemma NothingLeft(file: seq<byte>, base: u64, pos: nat, prev: u32, stale: seq<byte>)
    requires SEGMENT_HEAD <= pos == |file| && |stale| == 4
    ensures ScanFrom(file, base, pos, prev, stale).frames == []
  {
    hide LenSeen, CheckFrame;
  }

  // ---------- any session, any offsets ----------

  /** How many frames of the log stand in their place one after the other. */
  function InPlace(base: u64, pos: nat, prev: u32, log: seq<Frame>): (k: nat)
    requires pos >= SEGMENT_HEAD
    ensures k <= |log|
    decreases |log|
  {
    if log == [] || log[0].offset != ExpectedOffset(base, pos) || log[0].epoch < prev then 0
    else 1 + InPlace(base, pos + FrameSize(log[0]), log[0].epoch, log[1..])
  }

  lemma {:induction false} InPlaceGreatest(base: u64, pos: nat, prev: u32, log: seq<Frame>)
    requires pos >= SEGMENT_HEAD
    ensures var k := InPlace(base, pos, prev, log);
            && Placed(base, pos, prev, log[..k]) && (Placed(base, pos, prev, log) <==> k == |log|)
            && (k < |log| ==> Misplaced(base, pos + FramesSize(log[..k]), LastEpoch(prev, log[..k]), log[k]))
    decreases |log|
  {
    hide ExpectedOffset;
    var k := InPlace(base, pos, prev, log);
    if k > 0 {
      InPlaceGreatest(base, pos + FrameSize(log[0]), log[0].epoch, log[1..]);
      assert log[..k][1..] == log[1..][..k - 1] && log[..k][0] == log[0];
      LastOfTail(prev, [0, 0, 0, 0], log[..k]);
    } else {
      assert log[..0] == [];
    }
  }

  /** The frame has another offset than its place, or an epoch that goes back. */
  predicate Misplaced(base: u64, pos: nat, prev: u32, f: Frame)
    requires pos >= SEGMENT_HEAD
  {
    f.offset != ExpectedOffset(base, pos) || f.epoch < prev
  }

  function MisplacedAt(prev: u32, f: Frame): CorruptAt {
    if f.epoch < prev then AtEpoch else AtOffset
  }

  /** Whatever offsets and epochs the appends of a session were given: the next scan finds exactly the frames in front
      of the first one out of place, and says there what was wrong; it is clean iff none is. */
  lemma SessionVerdict(prior: seq<byte>, onDisk: seq<Frame>, log: seq<Frame>, stale: seq<byte>)
    requires SegmentBase(prior) != 0 && LogUpTo(prior, onDisk, |prior|) && |stale| == 4
    requires |prior| >= SEGMENT_HEAD && log != []
    ensures var base, p := SegmentBase(prior), LastEpoch(0, onDisk);
            var k := InPlace(base, |prior|, p, log);
            var v, done := FreshVerdict(prior + FramesBytes(log), stale), onDisk + log[..k];
            var e := |prior| + FramesSize(log[..k]);
            && (k == |log| <==> Placed(base, |prior|, p, log))
            && if k == |log| then v == ScanEnd(EndClean, e, 0, AtLen, LastEpoch(0, done))
               else CorruptFrom(v, done, e, log[k])
  {
    hide FrameBytes, ScanFrom, Verdict, FreshVerdict, Holds, SegmentBase, InPlace, Placed, FramesBytes, FramesSize,
         LastEpoch, CorruptFrom, Misplaced;
    var base, p := SegmentBase(prior), LastEpoch(0, onDisk);
    var k := InPlace(base, |prior|, p, log);
    InPlaceGreatest(base, |prior|, p, log);
    if k == |log| {
      assert log[..k] == log;
      InPlaceVerdict(prior, onDisk, log, stale);
    } else {
      LastOfBoth(onDisk, log[..k]);
      MisplacedVerdict(prior, onDisk, log, k, stale);
    }
  }

  lemma InPlaceVerdict(prior: seq<byte>, onDisk: seq<Frame>, log: seq<Frame>, stale: seq<byte>)
    requires SegmentBase(prior) != 0 && LogUpTo(prior, onDisk, |prior|) && |stale| == 4
    requires log != [] && Disciplined(prior, onDisk, log)
    ensures FreshVerdict(prior + FramesBytes(log), stale)
            == ScanEnd(EndClean, |prior| + FramesSize(log), 0, AtLen, LastEpoch(0, onDisk + log))
  {
    hide FrameBytes, ScanFrom, FreshVerdict, LogUpTo, SegmentBase, Disciplined, FramesBytes, FramesSize, LastEpoch;
    var data := prior + FramesBytes(log);
    FramesBytesSize(log);
    assert data[..|data|] == data;
    SessionSurvives(data, |data|, prior, onDisk, log, |data|, stale);
  }

  lemma MisplacedVerdict(prior: seq<byte>, onDisk: seq<Frame>, log: seq<Frame>, k: nat, stale: seq<byte>)
    requires SegmentBase(prior) != 0 && LogUpTo(prior, onDisk, |prior|) && |stale| == 4
    requires |prior| >= SEGMENT_HEAD && k < |log| && Disciplined(prior, onDisk, log[..k])
    requires var e := |prior| + FramesSize(log[..k]);
             Misplaced(SegmentBase(prior), e, LastEpoch(0, onDisk + log[..k]), log[k])
    ensures CorruptFrom(FreshVerdict(prior + FramesBytes(log), stale), onDisk + log[..k],
                        |prior| + FramesSize(log[..k]), log[k])
  {
    hide FrameBytes, SegmentBase, FramesSize, Disciplined, FramesBytes, Misplaced, CorruptFrom, FreshVerdict, LogUpTo,
         LastEpoch;
    FrameInLog(prior, log, k);
    MisplacedBehind(prior + FramesBytes(log), prior, onDisk, log[..k], log[k], stale);
  }

  /** The scan accepted done, which ends at e, and found f out of place there. */
  predicate CorruptFrom(v: ScanEnd, done: seq<Frame>, e: nat, f: Frame) {
    var last := LastEpoch(0, done);
    v == ScanEnd(EndCorrupt, if done == [] then 0 else e, 0, MisplacedAt(last, f), last)
  }

  lemma MisplacedBehind(data: seq<byte>, prior: seq<byte>, onDisk: seq<Frame>, log: seq<Frame>, f: Frame,
                        stale: seq<byte>)
    requires SegmentBase(prior) != 0 && LogUpTo(prior, onDisk, |prior|) && |stale| == 4
    requires |prior| >= SEGMENT_HEAD && Disciplined(prior, onDisk, log)
    requires var e := |prior| + FramesSize(log);
             && e + FrameSize(f) <= |data| && data[..e] == prior + FramesBytes(log)
             && data[e..e + FrameSize(f)] == FrameBytes(f)
             && Misplaced(SegmentBase(prior), e, LastEpoch(0, onDisk + log), f)
    ensures CorruptFrom(FreshVerdict(data, stale), onDisk + log, |prior| + FramesSize(log), f)
  {
    hide FrameBytes, SegmentBase, FramesSize, Disciplined, FramesBytes, Misplaced, FreshVerdict, Holds, LastEpoch,
         CorruptFrom;
    SessionOnDisk(data, |prior| + FramesSize(log), prior, onDisk, log);
    CorruptBehind(data, onDisk + log, f, stale);
  }

  lemma LastOfBoth(a: seq<Frame>, b: seq<Frame>)
    ensures LastEpoch(LastEpoch(0, a), b) == LastEpoch(0, a + b)
  {
  }

  lemma CorruptBehind(file: seq<byte>, done: seq<Frame>, f: Frame, stale: seq<byte>)
    requires SegmentBase(file) != 0 && Holds(file, SegmentBase(file), SEGMENT_HEAD, 0, done) && |stale| == 4
    requires var e := SEGMENT_HEAD + FramesSize(done);
             && e + FrameSize(f) <= |file| && file[e..e + FrameSize(f)] == FrameBytes(f)
             && Misplaced(SegmentBase(file), e, LastEpoch(0, done), f)
    ensures CorruptFrom(FreshVerdict(file, stale), done, SEGMENT_HEAD + FramesSize(done), f)
  {
    hide FrameBytes, ScanFrom, TakeTurn, Holds, LenBytesAfter, SegmentBase, FramesSize, Misplaced, MisplacedAt;
    var base, e := SegmentBase(file), SEGMENT_HEAD + FramesSize(done);
    BaseNeedsHeader(file);
    ScanTakes(file, base, SEGMENT_HEAD, 0, stale, done);
    var lens := LenBytesAfter(stale, done);
    TurnOnWritten(file, base, e, LastEpoch(0, done), lens, f);
    FirstTurn(file, base, e, LastEpoch(0, done), lens);
    assert done + [] == done;
  }

  /** Where frame k of a log lies. */
  lemma FrameInLog(prior: seq<byte>, log: seq<Frame>, k: nat)
    requires k < |log|
    ensures var data, e := prior + FramesBytes(log), |prior| + FramesSize(log[..k]);
            && e + FrameSize(log[k]) <= |data| && data[..e] == prior + FramesBytes(log[..k])
            && data[e..e + FrameSize(log[k])] == FrameBytes(log[k])
  {
    hide FrameBytes, FramesBytes, FramesSize;
    var a, w, b := FramesBytes(log[..k]), FrameBytes(log[k]), FramesBytes(log[k + 1..]);
    FramesBytesSize(log[..k]);
    LogSplits(log, k);
    Between(prior, a, w, b);
  }

  lemma LogSplits(log: seq<Frame>, k: nat)
    requires k < |log|
    ensures FramesBytes(log) == FramesBytes(log[..k]) + (FrameBytes(log[k]) + FramesBytes(log[k + 1..]))
  {
    hide FrameBytes;
    assert log == log[..k] + log[k..];
    FramesBytesAppend(log[..k], log[k..]);
    assert log[k..][0] == log[k] && log[k..][1..] == log[k + 1..];
  }

  lemma Between(prior: seq<byte>, a: seq<byte>, w: seq<byte>, b: seq<byte>)
    ensures var data, e := prior + (a + (w + b)), |prior| + |a|;
            data[..e] == prior + a && data[e..e + |w|] == w
  {
  }

  /** One turn of the scan on a frame that a writer wrote, in its place or not. */
  lemma TurnOnWritten(file: seq<byte>, base: u64, e: nat, prev: u32, stale: seq<byte>, f: Frame)
    requires SEGMENT_HEAD <= e && e + FrameSize(f) <= |file| && file[e..e + FrameSize(f)] == FrameBytes(f)
    requires |stale| == 4
    ensures TakeTurn(file, base, e, prev, stale) ==
            if Misplaced(base, e, prev, f) then Stopped(Corrupted(MisplacedAt(prev, f))) else Accepted(f)
  {
    hide FrameBytes, U32At, U64At, ExpectedOffset, LenBytesSeen, Crc;
    FieldsRoundTrip(file, e, f);
    FrameRoundTrip(file, e, f);
    LenSeenWhole(file, e, stale);
    CoveredOfFrame(file, e, f);
    CrcChain(file[e + 8..e + 16], file[e + FRAME_HEAD..e + FRAME_HEAD + |f.payload|]);
  }

  /** A writer that reopened a segment accepts any first epoch. A session log that is in order by itself is found
      whole exactly when its first epoch is not below the last one on disk; otherwise the segment counts as corrupt
      from the first frame of the session on. */
  lemma ReopenedEpoch(prior: seq<byte>, onDisk: seq<Frame>, log: seq<Frame>, stale: seq<byte>)
    requires SegmentBase(prior) != 0 && LogUpTo(prior, onDisk, |prior|) && |stale| == 4
    requires |prior| >= SEGMENT_HEAD && log != [] && Placed(SegmentBase(prior), |prior|, 0, log)
    ensures var v := FreshVerdict(prior + FramesBytes(log), stale);
            var p := LastEpoch(0, onDisk);
            if log[0].epoch >= p then v == ScanEnd(EndClean, |prior| + FramesSize(log), 0, AtLen, LastEpoch(0, log))
            else v == ScanEnd(EndCorrupt, |prior|, 0, AtEpoch, p)
  {
    hide FrameBytes, ScanFrom, Verdict, FreshVerdict, Holds, SegmentBase, FramesBytes, FramesSize;
    SessionVerdict(prior, onDisk, log, stale);
    assert log[..|log|] == log && log[..0] == [] && onDisk + [] == onDisk;
    NoFrames();
  }

  // ---------- what a failed append leaves ----------

  /** The file ends with the beginning of a frame, as a failed append leaves it when the truncation is refused. The
      next scan finds the frames that count and nothing else, unless all of the frame is there and in its place. */
  lemma LeftoverFound(prior: seq<byte>, onDisk: seq<Frame>, log: seq<Frame>, f: Frame, left: seq<byte>,
                      stale: seq<byte>)
    requires SegmentBase(prior) != 0 && LogUpTo(prior, onDisk, |prior|) && Disciplined(prior, onDisk, log)
    requires |stale| == 4 && left <= FrameBytes(f)
    ensures var base, e := SegmentBase(prior), |prior| + FramesSize(log);
            var data, last := prior + FramesBytes(log) + left, LastEpoch(LastEpoch(0, onDisk), log);
            && SegmentBase(data) == base && |data| >= SEGMENT_HEAD
            && ScanFrom(data, base, SEGMENT_HEAD, 0, stale).frames ==
               onDisk + log + if left == FrameBytes(f) && !Misplaced(base, e, last, f) then [f] else []
  {
    hide FrameBytes, ScanFrom, Holds, LenBytesAfter, SegmentBase, FramesSize, Disciplined, FramesBytes;
    var base, data := SegmentBase(prior), prior + FramesBytes(log) + left;
    var e, done := |prior| + FramesSize(log), onDisk + log;
    FramesBytesSize(log);
    assert data[..e] == prior + FramesBytes(log);
    SessionOnDisk(data, e, prior, onDisk, log);
    assert done + [] == done;
    if left == [] {
      NothingBehind(data, base, SEGMENT_HEAD, 0, stale, done);
      assert FrameBytes(f) != [] by { assert |FrameBytes(f)| == FrameSize(f); }
    } else {
      ScanTakes(data, base, SEGMENT_HEAD, 0, stale, done);
      assert data[e..] == left;
      LeftoverTurn(data, base, e, LastEpoch(0, done), LenBytesAfter(stale, done), f, left);
    }
  }

  lemma LeftoverTurn(file: seq<byte>, base: u64, e: nat, prev: u32, stale: seq<byte>, f: Frame, left: seq<byte>)
    requires SEGMENT_HEAD <= e <= |file| && file[e..] == left && left <= FrameBytes(f) && |stale| == 4
    ensures ScanFrom(file, base, e, prev, stale).frames ==
            if left == FrameBytes(f) && !Misplaced(base, e, prev, f) then [f] else []
  {
    hide FrameBytes, TakeTurn, Misplaced;
    if left == FrameBytes(f) {
      assert file[e..e + FrameSize(f)] == FrameBytes(f);
      TurnOnWritten(file, base, e, prev, stale, f);
    } else {
      BeginningRejected(file, base, e, prev, stale, f, left);
    }
  }

  /** The beginning of a frame is no frame. */
  lemma BeginningRejected(file: seq<byte>, base: u64, e: nat, prev: u32, stale: seq<byte>, f: Frame, left: seq<byte>)
    requires SEGMENT_HEAD <= e <= |file| && file[e..] == left && left < FrameBytes(f) && |stale| == 4
    ensures TakeTurn(file, base, e, prev, stale).Stopped?
  {
    hide FrameBytes, TakeTurn, U32At, ExpectedOffset;
    var t := TakeTurn(file, base, e, prev, stale);
    if t.Accepted? {
      var g, w := t.frame, FrameBytes(f);
      TurnAccepts(file, base, e, prev, stale, g);
      FieldsRoundTrip(file, e, g);
      FieldsRoundTrip(w, 0, f);
      SameField(file, e, w);
      assert false;
    }
  }

  lemma SameField(file: seq<byte>, e: nat, w: seq<byte>)
    requires e + 12 <= |file| && file[e..] <= w
    ensures U32At(file, e + 8) == U32At(w, 8)
  {
    assert forall i :: 0 <= i < 12 ==> file[e..][i] == w[i];
    assert forall i :: 0 <= i < 12 ==> file[e + i] == w[i];
  }

  /** So an append that returned false may still be found: with an empty payload the head is the whole frame, and if the
      second write fails and the truncation is refused, it stays. */
  lemma FailedAppendFound(prior: seq<byte>, onDisk: seq<Frame>, log: seq<Frame>, epoch: u32, stale: seq<byte>)
    requires SegmentBase(prior) != 0 && LogUpTo(prior, onDisk, |prior|) && Disciplined(prior, onDisk, log)
    requires |stale| == 4 && epoch >= LastEpoch(LastEpoch(0, onDisk), log)
    ensures var e := |prior| + FramesSize(log);
            var f := Frame(ExpectedOffset(SegmentBase(prior), e), epoch, []);
            FreshVerdict(prior + FramesBytes(log) + FrameHeadBytes(f), stale)
            == ScanEnd(EndClean, e + FRAME_HEAD, 0, AtLen, epoch)
  {
    hide ScanFrom, Verdict, FreshVerdict, SegmentBase, FramesBytes, FramesSize, FrameHeadBytes, ExpectedOffset, LogUpTo;
    var e := |prior| + FramesSize(log);
    var f := Frame(ExpectedOffset(SegmentBase(prior), e), epoch, []);
    var data := prior + FramesBytes(log) + FrameHeadBytes(f);
    AppendedBytes(log, f);
    assert FrameBytes(f) == FrameHeadBytes(f);
    assert data == prior + FramesBytes(log + [f]);
    DisciplineKept(prior, onDisk, log, f);
    FramesBytesSize(log + [f]);
    FramesBytesAppend(log, [f]);
    SizeOfOne(f);
    assert data[..|data|] == data;
    SessionSurvives(data, |data|, prior, onDisk, log + [f], |data|, stale);
  }

  lemma SizeOfOne(f: Frame)
    ensures FramesSize([f]) == FrameSize(f)
  {
  }
}
