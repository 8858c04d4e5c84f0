/** What recovery promises for whole segment files. */
module RecoveryProofs {
  import opened Bytes
  import opened SegmentFormat
  import opened SegmentScan
  import opened AnchorIndex
  import opened Recovery

  /** A fresh scanner's answer. */
  function FreshVerdict(file: seq<byte>, stale: seq<byte>): ScanEnd
    requires |stale| == 4
  {
    BaseNeedsHeader(file);
    Verdict(file, SEGMENT_HEAD, 0, stale)
  }

  lemma BaseNeedsHeader(file: seq<byte>)
    ensures SegmentBase(file) != 0 ==> |file| >= SEGMENT_HEAD
  {
  }

  /** The segment that was created with this base and then received the frames fs. */
  function SegmentFile(base: u64, walltime: u64, fs: seq<Frame>): seq<byte> {
    HeaderBytes(1, base, walltime) + FramesBytes(fs)
  }

  lemma SegmentFileHolds(base: u64, walltime: u64, fs: seq<Frame>)
    requires Placed(base, SEGMENT_HEAD, 0, fs)
    ensures var file := SegmentFile(base, walltime, fs);
            && |file| == SEGMENT_HEAD + FramesSize(fs)
            && Holds(file, base, SEGMENT_HEAD, 0, fs)
  {
    hide HeaderBytes, FramesBytes, FramesSize, Placed;
    FramesBytesSize(fs);
    var file := SegmentFile(base, walltime, fs);
    assert file[SEGMENT_HEAD..SEGMENT_HEAD + FramesSize(fs)] == FramesBytes(fs);
  }

  lemma CutBase(base: u64, walltime: u64, fs: seq<Frame>, cut: nat)
    requires SEGMENT_HEAD <= cut <= |SegmentFile(base, walltime, fs)|
    ensures SegmentBase(SegmentFile(base, walltime, fs)[..cut]) == base
  {
    hide HeaderBytes, FramesBytes, SegmentBase;
    var file, h := SegmentFile(base, walltime, fs), HeaderBytes(1, base, walltime);
    HeaderBase(base, walltime, file[..cut][SEGMENT_HEAD..]);
    assert file[..cut] == h + file[..cut][SEGMENT_HEAD..];
  }

  /** Crash cut. Whatever length a crash leaves of a legal segment, as long as one whole frame is there, the
      scan ends at the greatest frame boundary with the epoch of the last whole frame. It is clean exactly at
      a boundary, and it is called corrupt exactly when the stale bytes in the read buffer make the torn
      length field exceed the limit. */
  lemma CrashCut(base: u64, walltime: u64, fs: seq<Frame>, cut: nat, stale: seq<byte>)
    requires base > 0 && Placed(base, SEGMENT_HEAD, 0, fs) && |stale| == 4
    requires SEGMENT_HEAD <= cut <= |SegmentFile(base, walltime, fs)|
    requires WholeFrames(fs, cut - SEGMENT_HEAD) > 0
    ensures var k := WholeFrames(fs, cut - SEGMENT_HEAD);
            var e := SEGMENT_HEAD + FramesSize(fs[..k]);
            var v := FreshVerdict(SegmentFile(base, walltime, fs)[..cut], stale);
            && e <= cut && (forall j :: k < j <= |fs| ==> SEGMENT_HEAD + FramesSize(fs[..j]) > cut)
            && v.validEnd == e && v.lastEpoch == fs[k - 1].epoch && v.corruptAt == AtLen && v.kind != HeadBad
            && (v.kind.EndClean? <==> cut == e)
            && (v.kind.EndCorrupt? <==> k < |fs| && Misjudged(|fs[k - 1].payload|, |fs[k].payload|, cut - e))
            && (v.kind.EndTorn? ==> v.tornEnd == e)
  {
    hide FramesBytes, FramesSize, Placed, SegmentFile, SegmentBase, ScanFrom, LenSeen, FrameBytes, U32Bytes, Holds,
         WholeFrames;
    var file := SegmentFile(base, walltime, fs);
    var k := WholeFrames(fs, cut - SEGMENT_HEAD);
    var whole, prevLen := fs[..k], |fs[k - 1].payload|;
    var e := SEGMENT_HEAD + FramesSize(whole);
    SegmentFileHolds(base, walltime, fs);
    CutBase(base, walltime, fs, cut);
    WholeFramesGreatest(fs, cut - SEGMENT_HEAD);
    NextFrameCrosses(fs, cut - SEGMENT_HEAD);
    CutScan(file, base, SEGMENT_HEAD, 0, stale, fs, cut);
    assert LenBytesAfter(stale, whole) == U32Bytes(prevLen);
    if k < |fs| {
      HoldsPrefix(file, base, SEGMENT_HEAD, 0, fs, k, cut);
      MixedLength(file, e, prevLen, fs[k], cut);
    } else {
      assert fs[..k] == fs;
    }
  }

  /** Payloads strictly below 1 MiB: a crash never looks like corruption. */
  lemma CrashCutNeverCorrupt(base: u64, walltime: u64, fs: seq<Frame>, cut: nat, stale: seq<byte>)
    requires base > 0 && Placed(base, SEGMENT_HEAD, 0, fs) && |stale| == 4
    requires SEGMENT_HEAD <= cut <= |SegmentFile(base, walltime, fs)|
    requires WholeFrames(fs, cut - SEGMENT_HEAD) > 0
    requires forall f :: f in fs ==> |f.payload| < MESSAGE_MAX
    ensures var v := FreshVerdict(SegmentFile(base, walltime, fs)[..cut], stale);
            v.kind.EndClean? || v.kind.EndTorn?
  {
    hide FramesBytes, FramesSize, Placed, SegmentFile, FreshVerdict, WholeFrames;
    CrashCut(base, walltime, fs, cut, stale);
  }

  /** A crash in the first frame: at least 12 bytes of it make the scan independent of the buffer; with fewer, the
      uninitialised buffer decides between torn and corrupt. */
  lemma CrashInFirstFrame(base: u64, walltime: u64, fs: seq<Frame>, cut: nat, stale: seq<byte>)
    requires base > 0 && Placed(base, SEGMENT_HEAD, 0, fs) && |stale| == 4
    requires SEGMENT_HEAD <= cut <= |SegmentFile(base, walltime, fs)|
    requires WholeFrames(fs, cut - SEGMENT_HEAD) == 0
    ensures var c := SegmentFile(base, walltime, fs)[..cut];
            var v := FreshVerdict(c, stale);
            if LenSeen(c, SEGMENT_HEAD, stale) > MESSAGE_MAX then v == ScanEnd(EndCorrupt, 0, 0, AtLen, 0)
            else v == ScanEnd(EndTorn, SEGMENT_HEAD, SEGMENT_HEAD, AtLen, 0)
    ensures cut >= SEGMENT_HEAD + 12 ==>
              LenSeen(SegmentFile(base, walltime, fs)[..cut], SEGMENT_HEAD, stale) <= MESSAGE_MAX
  {
    hide FramesBytes, Placed, SegmentFile, SegmentBase, ScanFrom, LenSeen, FrameBytes, U32Bytes, Holds, WholeFrames;
    var file := SegmentFile(base, walltime, fs);
    SegmentFileHolds(base, walltime, fs);
    CutBase(base, walltime, fs, cut);
    CutScan(file, base, SEGMENT_HEAD, 0, stale, fs, cut);
    assert FramesSize(fs[..0]) == 0;
    if cut >= SEGMENT_HEAD + 12 {
      HoldsPrefix(file, base, SEGMENT_HEAD, 0, fs, 0, cut);
      FieldsRoundTrip(file, SEGMENT_HEAD, fs[0]);
      LenSeenWhole(file[..cut], SEGMENT_HEAD, stale);
      assert U32At(file[..cut], SEGMENT_HEAD + 8) == U32At(file, SEGMENT_HEAD + 8);
    }
  }

  /** A crash in the header. */
  lemma CrashInHeader(file: seq<byte>, stale: seq<byte>)
    requires |file| < SEGMENT_HEAD && |stale| == 4
    ensures FreshVerdict(file, stale) == ScanEnd(HeadBad, 0, 0, AtLen, 0)
  {
  }

  /** A writable log with a full-size payload that a crash turns into "corrupt": ten bytes of the second frame
      are left, so its length field reads 0x00100001 out of 0x00100000 and the 0x00000001 of the frame before. */
  lemma CrashCutMisjudged(stale: seq<byte>) returns (fs: seq<Frame>, cut: nat)
    requires |stale| == 4
    ensures Placed(1, SEGMENT_HEAD, 0, fs) && SEGMENT_HEAD <= cut <= |SegmentFile(1, 0, fs)|
    ensures WholeFrames(fs, cut - SEGMENT_HEAD) == 1
    ensures FreshVerdict(SegmentFile(1, 0, fs)[..cut], stale).kind.EndCorrupt?
  {
    hide FrameBytes, SegmentFile, FreshVerdict, FramesBytes;
    var big: seq<byte> := seq(MESSAGE_MAX, i => 0);
    var f, g := Frame(1, 0, [7]), Frame(22, 0, big);
    fs := [f, g];
    assert fs[1..] == [g] && fs[1..][1..] == [];
    assert Placed(1, SEGMENT_HEAD + 21, 0, [g]);
    assert Placed(1, SEGMENT_HEAD, 0, fs);
    assert FramesSize([g]) == FrameSize(g);
    assert FramesSize(fs) == FrameSize(f) + FrameSize(g);
    SegmentFileHolds(1, 0, fs);
    cut := SEGMENT_HEAD + 21 + 10;
    assert WholeFrames([g], 10) == 0;
    assert fs[..1] == [f];
    assert FramesSize([f]) == 21;
    CrashCut(1, 0, fs, cut, stale);
  }

  /** A header that creat or its caller wrote is bad exactly when its base offset is 0, whatever follows it. */
  lemma WrittenHeaderVerdict(base: u64, walltime: u64, rest: seq<byte>, stale: seq<byte>)
    requires |stale| == 4
    ensures FreshVerdict(HeaderBytes(1, base, walltime) + rest, stale).kind.HeadBad? <==> base == 0
  {
    hide ScanFrom, HeaderBytes, SegmentBase, FramesSize;
    HeaderBase(base, walltime, rest);
  }

  /** Segment::creat writes the base offset 0, so nothing that is ever appended behind its header is recovered. */
  lemma CreatedSegmentIsHeadBad(walltime: u64, rest: seq<byte>, stale: seq<byte>)
    requires |stale| == 4
    ensures FreshVerdict(HeaderBytes(1, 0, walltime) + rest, stale) == ScanEnd(HeadBad, 0, 0, AtLen, 0)
  {
    hide HeaderBytes, SegmentBase, ScanFrom;
    HeaderBase(0, walltime, rest);
  }

  // ---------- arbitrary files ----------

  /** The first e bytes of the file are an accepted header and the frames fs, each legal in its place. */
  predicate LogUpTo(file: seq<byte>, fs: seq<Frame>, e: nat) {
    && Holds(file, SegmentBase(file), SEGMENT_HEAD, 0, fs)
    && e == SEGMENT_HEAD + FramesSize(fs)
  }

  /** Soundness and maximality for every file with an accepted header and every buffer: a nonzero validEnd ends a
      legal log, the only one that ends there, and no legal log reaches further; clean means it is the whole file. */
  lemma VerdictSound(file: seq<byte>, stale: seq<byte>) returns (fs: seq<Frame>)
    requires SegmentBase(file) != 0 && |stale| == 4
    ensures var v := FreshVerdict(file, stale);
            && !v.kind.HeadBad?
            && (v.validEnd != 0 ==> LogUpTo(file, fs, v.validEnd) && v.lastEpoch == LastEpoch(0, fs))
            && (v.validEnd == 0 ==> fs == [])
            && (v.kind.EndClean? <==> fs != [] && v.validEnd == |file|)
            && (v.kind.EndTorn? ==> v.tornEnd == v.validEnd)
    ensures forall gs, e :: LogUpTo(file, gs, e) ==> gs <= fs
    ensures forall gs, e :: LogUpTo(file, gs, e) && e == SEGMENT_HEAD + FramesSize(fs) ==> gs == fs
  {
    hide FramesBytes, FramesSize, Placed, SegmentBase, ScanFrom, Holds;
    var base := SegmentBase(file);
    BaseNeedsHeader(file);
    fs := ScanFrom(file, base, SEGMENT_HEAD, 0, stale).frames;
    ScanSound(file, base, SEGMENT_HEAD, 0, stale);
    assert FramesSize([]) == 0 by { NoFrames(); }
    forall gs, e | LogUpTo(file, gs, e)
      ensures gs <= fs
      ensures e == SEGMENT_HEAD + FramesSize(fs) ==> gs == fs
    {
      ScanLongest(file, base, SEGMENT_HEAD, 0, stale, gs);
      if FramesSize(gs) == FramesSize(fs) {
        PrefixSameSize(gs, fs);
      }
    }
  }

  lemma NoFrames()
    ensures FramesSize([]) == 0
  {
  }

  /** Idempotence: truncating where the scan stopped and scanning again, with any buffer, finds the same frames
      and epoch, now clean, and builds the same index. */
  lemma RecoveryIdempotent(file: seq<byte>, stale: seq<byte>, stale': seq<byte>, interval: nat)
    requires SegmentBase(file) != 0 && |stale| == 4 && |stale'| == 4 && interval > 0
    requires FreshVerdict(file, stale).validEnd > SEGMENT_HEAD
    ensures var v := FreshVerdict(file, stale);
            && v.validEnd <= |file|
            && var kept := file[..v.validEnd];
               var base := SegmentBase(file);
               && SegmentBase(kept) == base && |kept| >= SEGMENT_HEAD && |file| >= SEGMENT_HEAD
               && FreshVerdict(kept, stale') == ScanEnd(EndClean, v.validEnd, 0, AtLen, v.lastEpoch)
               && AnchorsOf(ScanFrom(kept, base, SEGMENT_HEAD, 0, stale').frames, base, SEGMENT_HEAD, interval)
                  == AnchorsOf(ScanFrom(file, base, SEGMENT_HEAD, 0, stale).frames, base, SEGMENT_HEAD, interval)
  {
    hide FramesBytes, FramesSize, Placed, ScanFrom, Holds, AnchorsOf, CompareMagicCrc, U64At;
    var base := SegmentBase(file);
    BaseNeedsHeader(file);
    var fs := ScanFrom(file, base, SEGMENT_HEAD, 0, stale).frames;
    var e := SEGMENT_HEAD + FramesSize(fs);
    ScanSound(file, base, SEGMENT_HEAD, 0, stale);
    HoldsBound(file, base, SEGMENT_HEAD, 0, fs);
    NoFrames();
    var kept := file[..e];
    assert kept[..SEGMENT_HEAD] == file[..SEGMENT_HEAD];
    BaseOfPrefix(file, e);
    HoldsCut(file, base, SEGMENT_HEAD, 0, fs, e);
    ScanTakes(kept, base, SEGMENT_HEAD, 0, stale', fs);
  }

  lemma HoldsBound(file: seq<byte>, base: u64, pos: nat, prev: u32, fs: seq<Frame>)
    requires Holds(file, base, pos, prev, fs)
    ensures pos + FramesSize(fs) <= |file|
  {
  }

  lemma BaseOfPrefix(file: seq<byte>, e: nat)
    requires SEGMENT_HEAD <= e <= |file|
    ensures SegmentBase(file[..e]) == SegmentBase(file)
  {
    hide CompareMagicCrc;
    assert file[..e][..SEGMENT_HEAD] == file[..SEGMENT_HEAD];
    assert U64At(file[..e], 12) == U64At(file, 12);
  }

  /** Durability: frames that lie on disk survive every later crash, whatever unfinished bytes follow them. */
  lemma WrittenFramesSurvive(file: seq<byte>, gs: seq<Frame>, e: nat, cut: nat, stale: seq<byte>)
    requires SegmentBase(file) != 0 && |stale| == 4
    requires LogUpTo(file, gs, e) && e <= cut <= |file|
    ensures |file[..cut]| >= SEGMENT_HEAD && SegmentBase(file[..cut]) == SegmentBase(file)
    ensures gs <= ScanFrom(file[..cut], SegmentBase(file), SEGMENT_HEAD, 0, stale).frames
    ensures gs != [] ==> FreshVerdict(file[..cut], stale).validEnd >= e
  {
    hide FramesBytes, FramesSize, Placed, ScanFrom, Holds, SegmentBase;
    var base, c := SegmentBase(file), file[..cut];
    BaseOfPrefix(file, cut);
    HoldsCut(file, base, SEGMENT_HEAD, 0, gs, cut);
    ScanLongest(c, base, SEGMENT_HEAD, 0, stale, gs);
    var fs := ScanFrom(c, base, SEGMENT_HEAD, 0, stale).frames;
    assert fs == gs + fs[|gs|..];
    FramesBytesAppend(gs, fs[|gs|..]);
  }
}
