/** What a scan of a segment finds: the frames it accepts and the reason it stops.
    Soundness on arbitrary bytes, maximality, uniqueness, and the outcome at every crash cut. */
module SegmentScan {
  import opened Bytes
  import opened SegmentFormat

  datatype Stop = CleanEnd | TornTail | Corrupted(at: CorruptAt)
  datatype Scan = Scan(frames: seq<Frame>, stop: Stop)

  // ---------- logs as values ----------

  function FramesBytes(fs: seq<Frame>): seq<byte> {
    if fs == [] then [] else FrameBytes(fs[0]) + FramesBytes(fs[1..])
  }

  function FramesSize(fs: seq<Frame>): nat {
    if fs == [] then 0 else FrameSize(fs[0]) + FramesSize(fs[1..])
  }

  /** The offset a frame at file position pos must carry; unsigned 64-bit arithmetic. */
  function ExpectedOffset(base: u64, pos: nat): u64
    requires pos >= SEGMENT_HEAD
  {
    (base + (pos - SEGMENT_HEAD)) % U64_LIMIT
  }

  /** Each frame carries the offset of its place, and epochs never go back. */
  predicate Placed(base: u64, pos: nat, prev: u32, fs: seq<Frame>)
    requires pos >= SEGMENT_HEAD
    decreases |fs|
  {
    fs != [] ==>
      && fs[0].offset == ExpectedOffset(base, pos)
      && fs[0].epoch >= prev
      && Placed(base, pos + FrameSize(fs[0]), fs[0].epoch, fs[1..])
  }

  function LastEpoch(prev: u32, fs: seq<Frame>): u32 {
    if fs == [] then prev else fs[|fs| - 1].epoch
  }

  /** The four bytes at positions 8..12 of the read buffer once the last frame of fs was read into it. */
  function LenBytesAfter(stale: seq<byte>, fs: seq<Frame>): seq<byte> {
    if fs == [] then stale else U32Bytes(|fs[|fs| - 1].payload|)
  }

  // ---------- one turn of the scan loop ----------

  /** The length field as the loop reads it: the buffer is reused, so where the file ends too early
      the bytes of the previous read (stale) are still there. */
  function LenBytesSeen(file: seq<byte>, pos: nat, stale: seq<byte>): (s: seq<byte>)
    requires pos <= |file| && |stale| == 4
    ensures |s| == 4
  {
    var known := if |file| < pos + 8 then 0 else Min(4, |file| - pos - 8);
    (if known == 0 then [] else file[pos + 8..pos + 8 + known]) + stale[known..]
  }

  function LenSeen(file: seq<byte>, pos: nat, stale: seq<byte>): u32
    requires pos <= |file| && |stale| == 4
  {
    U32At(LenBytesSeen(file, pos, stale), 0)
  }

  datatype Turn = Stopped(stop: Stop) | Accepted(frame: Frame)

  function TakeTurn(file: seq<byte>, base: u64, pos: nat, prev: u32, stale: seq<byte>): (t: Turn)
    requires SEGMENT_HEAD <= pos <= |file| && |stale| == 4
    ensures t.Accepted? ==> FrameStartsAt(file, pos) && t.frame == FrameAt(file, pos)
  {
    var avail := |file| - pos;
    var len := LenSeen(file, pos, stale);
    if len > MESSAGE_MAX then Stopped(Corrupted(AtLen))
    else if avail < FRAME_HEAD || avail < FRAME_HEAD + len then Stopped(TornTail)
    else
      LenSeenWhole(file, pos, stale);
      var n := Min(avail, FRAME_HEAD + MESSAGE_MAX);
      var check := CheckFrame(file, pos, n, ExpectedOffset(base, pos), prev);
      CheckFrameValid(file, pos, n, ExpectedOffset(base, pos), prev);
      if check.kind.Corrupt? then Stopped(Corrupted(check.corruptAt)) else Accepted(FrameAt(file, pos))
  }

  lemma LenSeenWhole(file: seq<byte>, pos: nat, stale: seq<byte>)
    requires pos + 12 <= |file| && |stale| == 4
    ensures LenBytesSeen(file, pos, stale) == file[pos + 8..pos + 12]
    ensures LenSeen(file, pos, stale) == U32At(file, pos + 8)
  {
  }

  /** The whole scan from pos on. */
  function ScanFrom(file: seq<byte>, base: u64, pos: nat, prev: u32, stale: seq<byte>): Scan
    requires SEGMENT_HEAD <= pos <= |file| && |stale| == 4
    decreases |file| - pos
  {
    var t := TakeTurn(file, base, pos, prev, stale);
    if t.Stopped? then Scan([], t.stop)
    else if pos + FrameSize(t.frame) == |file| then Scan([t.frame], CleanEnd)
    else
      var rest := ScanFrom(file, base, pos + FrameSize(t.frame), t.frame.epoch, LenBytesSeen(file, pos, stale));
      Scan([t.frame] + rest.frames, rest.stop)
  }

  lemma FirstTurn(file: seq<byte>, base: u64, pos: nat, prev: u32, stale: seq<byte>)
    requires SEGMENT_HEAD <= pos <= |file| && |stale| == 4
    ensures var t, r := TakeTurn(file, base, pos, prev, stale), ScanFrom(file, base, pos, prev, stale);
            if t.Stopped? then r == Scan([], t.stop) else r.frames != []
  {
    hide TakeTurn;
  }

  // ---------- accepting exactly the frames that belong ----------

  /** The loop accepts exactly when the bytes at pos are the writer's bytes of a frame that belongs there. */
  lemma TurnAccepts(file: seq<byte>, base: u64, pos: nat, prev: u32, stale: seq<byte>, f: Frame)
    requires SEGMENT_HEAD <= pos <= |file| && |stale| == 4
    ensures TakeTurn(file, base, pos, prev, stale) == Accepted(f) <==>
            FrameFits(file, pos, |file| - pos, ExpectedOffset(base, pos), prev, f)
  {
    var t := TakeTurn(file, base, pos, prev, stale);
    if FrameFits(file, pos, |file| - pos, ExpectedOffset(base, pos), prev, f) {
      FrameRoundTrip(file, pos, f);
      LenSeenWhole(file, pos, stale);
      CheckFrameValid(file, pos, Min(|file| - pos, FRAME_HEAD + MESSAGE_MAX), ExpectedOffset(base, pos), prev);
      assert t == Accepted(f);
    }
    if t == Accepted(f) {
      FrameRewritten(file, pos);
      LenSeenWhole(file, pos, stale);
      CheckFrameValid(file, pos, Min(|file| - pos, FRAME_HEAD + MESSAGE_MAX), ExpectedOffset(base, pos), prev);
    }
  }

  lemma {:induction false} FramesBytesSize(fs: seq<Frame>)
    ensures |FramesBytes(fs)| == FramesSize(fs)
  {
    if fs != [] {
      FramesBytesSize(fs[1..]);
    }
  }

  lemma {:induction false} FramesBytesAppend(fs: seq<Frame>, gs: seq<Frame>)
    ensures FramesBytes(fs + gs) == FramesBytes(fs) + FramesBytes(gs)
    ensures FramesSize(fs + gs) == FramesSize(fs) + FramesSize(gs)
  {
    if fs == [] {
      assert fs + gs == gs;
    } else {
      assert (fs + gs)[1..] == fs[1..] + gs;
      FramesBytesAppend(fs[1..], gs);
    }
  }

  lemma {:induction false} PlacedAppend(base: u64, pos: nat, prev: u32, fs: seq<Frame>, gs: seq<Frame>)
    requires pos >= SEGMENT_HEAD
    ensures Placed(base, pos, prev, fs + gs) <==>
            Placed(base, pos, prev, fs) && Placed(base, pos + FramesSize(fs), LastEpoch(prev, fs), gs)
    decreases |fs|
  {
    if fs == [] {
      assert fs + gs == gs;
    } else {
      assert (fs + gs)[1..] == fs[1..] + gs;
      PlacedAppend(base, pos + FrameSize(fs[0]), fs[0].epoch, fs[1..], gs);
    }
  }

  /** file holds, from pos on, the frames fs, each where it belongs. */
  predicate Holds(file: seq<byte>, base: u64, pos: nat, prev: u32, fs: seq<Frame>) {
    && SEGMENT_HEAD <= pos
    && pos + FramesSize(fs) <= |file|
    && Placed(base, pos, prev, fs)
    && file[pos..pos + FramesSize(fs)] == FramesBytes(fs)
  }

  lemma HoldsCons(file: seq<byte>, base: u64, pos: nat, prev: u32, fs: seq<Frame>)
    requires fs != []
    ensures Holds(file, base, pos, prev, fs) <==>
            && SEGMENT_HEAD <= pos <= |file|
            && FrameFits(file, pos, |file| - pos, ExpectedOffset(base, pos), prev, fs[0])
            && Holds(file, base, pos + FrameSize(fs[0]), fs[0].epoch, fs[1..])
  {
    hide FrameBytes, ExpectedOffset;
    var size, rest := FrameSize(fs[0]), FramesSize(fs[1..]);
    FramesBytesSize(fs[1..]);
    if SEGMENT_HEAD <= pos && pos + size + rest <= |file| {
      SliceOfConcat(file, pos, FrameBytes(fs[0]), FramesBytes(fs[1..]));
    }
  }

  /** file ends with f, or the scan goes on behind it. */
  lemma ScanStep(file: seq<byte>, base: u64, pos: nat, prev: u32, stale: seq<byte>, f: Frame)
    requires |stale| == 4 && SEGMENT_HEAD <= pos <= |file|
    requires FrameFits(file, pos, |file| - pos, ExpectedOffset(base, pos), prev, f)
    ensures var next := pos + FrameSize(f);
            ScanFrom(file, base, pos, prev, stale) ==
            if next == |file| then Scan([f], CleanEnd)
            else
              var rest := ScanFrom(file, base, next, f.epoch, U32Bytes(|f.payload|));
              Scan([f] + rest.frames, rest.stop)
  {
    hide TakeTurn, FrameBytes, FrameAt, FrameStartsAt, LenBytesSeen, U32Bytes, ExpectedOffset;
    TurnAccepts(file, base, pos, prev, stale, f);
    LenBytesOfFrame(file, pos, stale, f);
  }

  /** The scan of a log that is followed by more bytes: the log, then whatever the scan makes of the rest. */
  function After(fs: seq<Frame>, rest: Scan): Scan {
    Scan(fs + rest.frames, rest.stop)
  }

  lemma AfterCons(f: Frame, fs: seq<Frame>, rest: Scan)
    ensures After([f], After(fs, rest)) == After([f] + fs, rest)
  {
    assert [f] + (fs + rest.frames) == [f] + fs + rest.frames;
  }

  /** Whatever the file holds at pos, the scan first takes it and then goes on behind it. */
  lemma {:induction false} ScanTakes(file: seq<byte>, base: u64, pos: nat, prev: u32, stale: seq<byte>, fs: seq<Frame>)
    requires |stale| == 4 && Holds(file, base, pos, prev, fs)
    ensures |LenBytesAfter(stale, fs)| == 4
    ensures pos + FramesSize(fs) < |file| || fs == [] ==>
            ScanFrom(file, base, pos, prev, stale) ==
            After(fs, ScanFrom(file, base, pos + FramesSize(fs), LastEpoch(prev, fs), LenBytesAfter(stale, fs)))
    ensures pos + FramesSize(fs) == |file| && fs != [] ==> ScanFrom(file, base, pos, prev, stale) == Scan(fs, CleanEnd)
    decreases |fs|
  {
    hide ScanFrom, FrameBytes, FramesBytes, U32Bytes;
    if fs == [] {
      var all := ScanFrom(file, base, pos, prev, stale);
      assert [] + all.frames == all.frames;
    } else {
      var f, tail := fs[0], fs[1..];
      var next, lens := pos + FrameSize(f), U32Bytes(|f.payload|);
      HoldsCons(file, base, pos, prev, fs);
      ScanStep(file, base, pos, prev, stale, f);
      ScanTakes(file, base, next, f.epoch, lens, tail);
      LastOfTail(prev, stale, fs);
      if next < |file| {
        if pos + FramesSize(fs) < |file| {
          AfterCons(f, tail, ScanFrom(file, base, pos + FramesSize(fs), LastEpoch(prev, fs), LenBytesAfter(stale, fs)));
        }
      }
    }
  }

  lemma LastOfTail(prev: u32, stale: seq<byte>, fs: seq<Frame>)
    requires fs != []
    ensures fs == [fs[0]] + fs[1..]
    ensures LastEpoch(fs[0].epoch, fs[1..]) == LastEpoch(prev, fs)
    ensures LenBytesAfter(U32Bytes(|fs[0].payload|), fs[1..]) == LenBytesAfter(stale, fs)
    ensures fs[1..] != [] ==> FramesSize(fs[1..]) > 0
  {
  }

  lemma LenBytesOfFrame(file: seq<byte>, pos: nat, stale: seq<byte>, f: Frame)
    requires |stale| == 4 && pos + FrameSize(f) <= |file| && file[pos..pos + FrameSize(f)] == FrameBytes(f)
    ensures LenBytesSeen(file, pos, stale) == U32Bytes(|f.payload|)
  {
    FrameBytesParts(f);
    LenSeenWhole(file, pos, stale);
    SliceOfSlice(file, pos, FrameBytes(f), 8, 12);
  }

  // ---------- soundness ----------

  lemma HoldsNil(file: seq<byte>, base: u64, pos: nat, prev: u32)
    requires SEGMENT_HEAD <= pos <= |file|
    ensures Holds(file, base, pos, prev, [])
  {
  }

  /** On arbitrary bytes: what the scan accepted is a legal log lying on disk, and a clean verdict covers the file. */
  lemma {:induction false} ScanSound(file: seq<byte>, base: u64, pos: nat, prev: u32, stale: seq<byte>)
    requires SEGMENT_HEAD <= pos <= |file| && |stale| == 4
    ensures var r := ScanFrom(file, base, pos, prev, stale);
            && Holds(file, base, pos, prev, r.frames)
            && (r.stop.CleanEnd? <==> r.frames != [] && pos + FramesSize(r.frames) == |file|)
    decreases |file| - pos
  {
    hide FrameBytes, FramesBytes, FrameFits, ExpectedOffset, LenBytesSeen, Holds, TakeTurn;
    var t := TakeTurn(file, base, pos, prev, stale);
    var r := ScanFrom(file, base, pos, prev, stale);
    if t.Stopped? {
      NeverStopsClean(file, base, pos, prev, stale);
      HoldsNil(file, base, pos, prev);
    } else {
      var f, next := t.frame, pos + FrameSize(t.frame);
      TurnAccepts(file, base, pos, prev, stale, f);
      TurnFits(file, base, pos, prev, stale, f);
      HoldsCons(file, base, pos, prev, r.frames);
      if next == |file| {
        HoldsNil(file, base, next, f.epoch);
        assert r.frames[1..] == [];
      } else {
        var rest := ScanFrom(file, base, next, f.epoch, LenBytesSeen(file, pos, stale));
        ScanSound(file, base, next, f.epoch, LenBytesSeen(file, pos, stale));
        assert r.frames[1..] == rest.frames;
      }
    }
  }

  lemma NeverStopsClean(file: seq<byte>, base: u64, pos: nat, prev: u32, stale: seq<byte>)
    requires SEGMENT_HEAD <= pos <= |file| && |stale| == 4
    ensures TakeTurn(file, base, pos, prev, stale) != Stopped(CleanEnd)
  {
    hide CheckFrame, LenSeen, ExpectedOffset;
  }

  lemma TurnFits(file: seq<byte>, base: u64, pos: nat, prev: u32, stale: seq<byte>, f: Frame)
    requires SEGMENT_HEAD <= pos <= |file| && |stale| == 4
    requires TakeTurn(file, base, pos, prev, stale) == Accepted(f)
    ensures pos + FrameSize(f) <= |file|
  {
    TurnAccepts(file, base, pos, prev, stale, f);
  }

  /** Where the scan stops before the end, the loop really cannot take another frame. */
  lemma {:induction false} ScanStops(file: seq<byte>, base: u64, pos: nat, prev: u32, stale: seq<byte>)
    requires SEGMENT_HEAD <= pos <= |file| && |stale| == 4
    ensures var r := ScanFrom(file, base, pos, prev, stale);
            var e := pos + FramesSize(r.frames);
            && e <= |file| && |LenBytesAfter(stale, r.frames)| == 4
            && (!r.stop.CleanEnd? ==>
                  TakeTurn(file, base, e, LastEpoch(prev, r.frames), LenBytesAfter(stale, r.frames)) == Stopped(r.stop))
  {
    hide ScanFrom, TakeTurn, FrameBytes, FramesBytes, U32Bytes, ExpectedOffset, LenBytesSeen, Placed;
    var r := ScanFrom(file, base, pos, prev, stale);
    var e := pos + FramesSize(r.frames);
    ScanSound(file, base, pos, prev, stale);
    ScanTakes(file, base, pos, prev, stale, r.frames);
    if !r.stop.CleanEnd? {
      FirstTurn(file, base, e, LastEpoch(prev, r.frames), LenBytesAfter(stale, r.frames));
    }
  }

  /** Maximality: every legal log that lies on disk from pos on is a prefix of what the scan accepts,
      whatever garbage follows it and whatever the read buffer held. */
  lemma ScanLongest(file: seq<byte>, base: u64, pos: nat, prev: u32, stale: seq<byte>, gs: seq<Frame>)
    requires |stale| == 4 && Holds(file, base, pos, prev, gs)
    ensures gs <= ScanFrom(file, base, pos, prev, stale).frames
  {
    hide ScanFrom, FrameBytes, FramesBytes, U32Bytes;
    ScanTakes(file, base, pos, prev, stale, gs);
  }

  /** The frames on disk are determined by the bytes: two legal readings of one range are the same reading. */
  lemma DecompositionUnique(file: seq<byte>, base: u64, pos: nat, prev: u32, fs: seq<Frame>, gs: seq<Frame>)
    requires Holds(file, base, pos, prev, fs) && Holds(file, base, pos, prev, gs)
    requires FramesSize(fs) == FramesSize(gs)
    ensures fs == gs
  {
    var any: seq<byte> := [0, 0, 0, 0];
    ScanLongest(file, base, pos, prev, any, fs);
    ScanLongest(file, base, pos, prev, any, gs);
    if |fs| <= |gs| {
      PrefixSameSize(fs, gs);
    } else {
      PrefixSameSize(gs, fs);
    }
  }

  lemma PrefixSameSize(fs: seq<Frame>, gs: seq<Frame>)
    requires fs <= gs && FramesSize(fs) == FramesSize(gs)
    ensures fs == gs
  {
    assert gs == fs + gs[|fs|..];
    FramesBytesAppend(fs, gs[|fs|..]);
  }

  // ---------- a crash that cuts the file anywhere ----------

  /** How many frames of fs lie wholly within the first room bytes. */
  function WholeFrames(fs: seq<Frame>, room: nat): (k: nat)
    ensures k <= |fs|
  {
    if fs == [] || room < FrameSize(fs[0]) then 0 else 1 + WholeFrames(fs[1..], room - FrameSize(fs[0]))
  }

  /** The frames that survive end at the greatest frame boundary within room. */
  lemma {:induction false} WholeFramesGreatest(fs: seq<Frame>, room: nat)
    ensures var k := WholeFrames(fs, room);
            && FramesSize(fs[..k]) <= room
            && (forall j :: k < j <= |fs| ==> FramesSize(fs[..j]) > room)
  {
    if fs != [] {
      var size := FrameSize(fs[0]);
      forall j | 0 < j <= |fs|
        ensures FramesSize(fs[..j]) == size + FramesSize(fs[1..][..j - 1])
      {
        assert fs[..j][1..] == fs[1..][..j - 1];
      }
      if room >= size {
        WholeFramesGreatest(fs[1..], room - size);
      }
    }
  }

  lemma HoldsAppend(file: seq<byte>, base: u64, pos: nat, prev: u32, fs: seq<Frame>, gs: seq<Frame>)
    ensures Holds(file, base, pos, prev, fs + gs) <==>
            Holds(file, base, pos, prev, fs) && Holds(file, base, pos + FramesSize(fs), LastEpoch(prev, fs), gs)
  {
    hide FrameBytes, FramesBytes, FramesSize, Placed;
    FramesBytesAppend(fs, gs);
    FramesBytesSize(fs);
    FramesBytesSize(gs);
    if pos >= SEGMENT_HEAD {
      PlacedAppend(base, pos, prev, fs, gs);
      if pos + FramesSize(fs) + FramesSize(gs) <= |file| {
        SliceOfConcat(file, pos, FramesBytes(fs), FramesBytes(gs));
      }
    }
  }

  /** Bytes behind a log do not matter for it. */
  lemma HoldsCut(file: seq<byte>, base: u64, pos: nat, prev: u32, fs: seq<Frame>, cut: nat)
    requires pos + FramesSize(fs) <= cut <= |file|
    ensures Holds(file, base, pos, prev, fs) <==> Holds(file[..cut], base, pos, prev, fs)
  {
    hide FrameBytes, FramesBytes, FramesSize, Placed;
    assert file[..cut][pos..pos + FramesSize(fs)] == file[pos..pos + FramesSize(fs)];
  }

  lemma HoldsPrefix(file: seq<byte>, base: u64, pos: nat, prev: u32, fs: seq<Frame>, k: nat, cut: nat)
    requires Holds(file, base, pos, prev, fs) && k <= |fs|
    requires pos + FramesSize(fs[..k]) <= cut <= |file|
    ensures Holds(file[..cut], base, pos, prev, fs[..k])
    ensures k < |fs| ==>
              var e := pos + FramesSize(fs[..k]);
              && e + FrameSize(fs[k]) <= |file| && file[e..e + FrameSize(fs[k])] == FrameBytes(fs[k])
  {
    hide FrameBytes, FramesBytes, FramesSize, Holds;
    assert fs == fs[..k] + fs[k..];
    HoldsAppend(file, base, pos, prev, fs[..k], fs[k..]);
    HoldsCut(file, base, pos, prev, fs[..k], cut);
    if k < |fs| {
      HoldsCons(file, base, pos + FramesSize(fs[..k]), LastEpoch(prev, fs[..k]), fs[k..]);
    }
  }

  /** How the scan ends when tail bytes of the next frame are left behind the k whole ones. */
  function CutStop(cutFile: seq<byte>, e: nat, k: nat, stale: seq<byte>): Stop
    requires e <= |cutFile| && |stale| == 4
  {
    if k > 0 && e == |cutFile| then CleanEnd
    else if LenSeen(cutFile, e, stale) > MESSAGE_MAX then Corrupted(AtLen)
    else TornTail
  }

  lemma TurnOnTail(file: seq<byte>, base: u64, e: nat, prev: u32, stale: seq<byte>, f: Frame, cut: nat)
    requires SEGMENT_HEAD <= e <= cut <= |file| && |stale| == 4
    requires cut < |file| ==> e + FrameSize(f) <= |file| && file[e..e + FrameSize(f)] == FrameBytes(f)
    requires cut < |file| ==> cut < e + FrameSize(f)
    requires cut == |file| ==> e == cut
    ensures var c := file[..cut];
            TakeTurn(c, base, e, prev, stale) ==
            Stopped(if LenSeen(c, e, stale) > MESSAGE_MAX then Corrupted(AtLen) else TornTail)
  {
    hide FrameBytes, CheckFrame, LenBytesSeen;
    var c := file[..cut];
    if cut >= e + 12 {
      FieldsRoundTrip(file, e, f);
      LenSeenWhole(c, e, stale);
      assert U32At(c, e + 8) == U32At(file, e + 8);
    }
  }

  /** Cut a legal log at any length: the scan keeps exactly the whole frames, and CutStop is its verdict. */
  lemma CutScan(file: seq<byte>, base: u64, pos: nat, prev: u32, stale: seq<byte>, fs: seq<Frame>, cut: nat)
    requires |stale| == 4 && Holds(file, base, pos, prev, fs) && pos + FramesSize(fs) == |file|
    requires pos <= cut <= |file|
    ensures var k := WholeFrames(fs, cut - pos);
            var e := pos + FramesSize(fs[..k]);
            && e <= cut && |LenBytesAfter(stale, fs[..k])| == 4
            && ScanFrom(file[..cut], base, pos, prev, stale)
               == Scan(fs[..k], CutStop(file[..cut], e, k, LenBytesAfter(stale, fs[..k])))
  {
    hide FrameBytes, FramesBytes, TakeTurn, LenSeen, U32Bytes, ExpectedOffset, ScanFrom, Placed;
    var k := WholeFrames(fs, cut - pos);
    WholeFramesGreatest(fs, cut - pos);
    var c, whole := file[..cut], fs[..k];
    var e := pos + FramesSize(whole);
    HoldsPrefix(file, base, pos, prev, fs, k, cut);
    ScanTakes(c, base, pos, prev, stale, whole);
    if k == 0 || e < cut {
      CutTail(file, base, pos, prev, LenBytesAfter(stale, whole), fs, k, cut);
      FirstTurn(c, base, e, LastEpoch(prev, whole), LenBytesAfter(stale, whole));
      assert whole + [] == whole;
    }
  }

  lemma NextFrameCrosses(fs: seq<Frame>, room: nat)
    ensures var k := WholeFrames(fs, room);
            FramesSize(fs[..k]) <= room && (k < |fs| ==> room < FramesSize(fs[..k]) + FrameSize(fs[k]))
  {
    hide FramesBytes;
    var k := WholeFrames(fs, room);
    WholeFramesGreatest(fs, room);
    if k < |fs| {
      assert fs[..k + 1] == fs[..k] + [fs[k]];
      FramesBytesAppend(fs[..k], [fs[k]]);
      assert FramesSize([fs[k]]) == FrameSize(fs[k]);
    }
  }

  lemma CutTail(file: seq<byte>, base: u64, pos: nat, prev: u32, stale: seq<byte>, fs: seq<Frame>, k: nat, cut: nat)
    requires |stale| == 4 && Holds(file, base, pos, prev, fs) && pos + FramesSize(fs) == |file|
    requires pos <= cut <= |file| && k == WholeFrames(fs, cut - pos)
    ensures var c, e := file[..cut], pos + FramesSize(fs[..k]);
            && e <= cut
            && TakeTurn(c, base, e, LastEpoch(prev, fs[..k]), stale) ==
               Stopped(if LenSeen(c, e, stale) > MESSAGE_MAX then Corrupted(AtLen) else TornTail)
  {
    hide FrameBytes, FramesBytes, FramesSize, TakeTurn, LenSeen, Placed, WholeFrames, LastEpoch;
    var whole := fs[..k];
    var e := pos + FramesSize(whole);
    NextFrameCrosses(fs, cut - pos);
    HoldsPrefix(file, base, pos, prev, fs, k, cut);
    if k == |fs| {
      assert fs[..k] == fs && file[..cut] == file;
      TurnOnEmptyTail(file, base, e, LastEpoch(prev, whole), stale);
    } else {
      TurnOnTail(file, base, e, LastEpoch(prev, whole), stale, fs[k], cut);
    }
  }

  lemma TurnOnEmptyTail(file: seq<byte>, base: u64, e: nat, prev: u32, stale: seq<byte>)
    requires SEGMENT_HEAD <= e == |file| && |stale| == 4
    ensures TakeTurn(file, base, e, prev, stale) ==
            Stopped(if LenSeen(file, e, stale) > MESSAGE_MAX then Corrupted(AtLen) else TornTail)
  {
  }

  /** The length field the loop sees is mixed from a new and an old length; it exceeds the limit in two cases only. */
  predicate Misjudged(prevLen: nat, nextLen: nat, tail: nat) {
    nextLen == MESSAGE_MAX && ((tail == 10 && prevLen % 0x1_0000 != 0) || (tail == 11 && prevLen % 0x100 != 0))
  }

  lemma MixedLength(file: seq<byte>, e: nat, prevLen: nat, f: Frame, cut: nat)
    requires prevLen <= MESSAGE_MAX && e <= cut <= |file|
    requires cut > e ==> e + FrameSize(f) <= |file| && file[e..e + FrameSize(f)] == FrameBytes(f)
    requires cut < e + FrameSize(f)
    ensures LenSeen(file[..cut], e, U32Bytes(prevLen)) > MESSAGE_MAX <==> Misjudged(prevLen, |f.payload|, cut - e)
  {
    hide FrameBytes, U32Bytes, U32At;
    var c, o, n := file[..cut], U32Bytes(prevLen), U32Bytes(|f.payload|);
    if cut > e {
      FrameBytesParts(f);
      SliceOfSlice(file, e, FrameBytes(f), 8, 12);
      MixedBytes(file, e, cut, o, n);
    } else {
      assert LenBytesSeen(c, e, o) == o;
    }
    assert o == [o[0], o[1], o[2], o[3]];
    assert n == [n[0], n[1], n[2], n[3]];
    MixedValue(prevLen, |f.payload|);
  }

  lemma MixedBytes(file: seq<byte>, e: nat, cut: nat, o: seq<byte>, n: seq<byte>)
    requires e <= cut <= |file| && e + 12 <= |file| && |o| == |n| == 4 && file[e + 8..e + 12] == n
    ensures LenBytesSeen(file[..cut], e, o) ==
            if cut <= e + 8 then o
            else if cut == e + 9 then [n[0], o[1], o[2], o[3]]
            else if cut == e + 10 then [n[0], n[1], o[2], o[3]]
            else if cut == e + 11 then [n[0], n[1], n[2], o[3]]
            else n
  {
    assert n[0] == file[e + 8] && n[1] == file[e + 9] && n[2] == file[e + 10] && n[3] == file[e + 11];
  }

  /** The arithmetic behind MixedLength: i new bytes followed by 4 - i old ones. */
  lemma MixedValue(prevLen: nat, nextLen: nat)
    requires prevLen <= MESSAGE_MAX && nextLen <= MESSAGE_MAX
    ensures var o, n := U32Bytes(prevLen), U32Bytes(nextLen);
            && U32At(o, 0) == prevLen && U32At(n, 0) == nextLen
            && U32At([n[0], o[1], o[2], o[3]], 0) == prevLen
            && (U32At([n[0], n[1], o[2], o[3]], 0) > MESSAGE_MAX <==> nextLen == MESSAGE_MAX && prevLen % 0x1_0000 != 0)
            && (U32At([n[0], n[1], n[2], o[3]], 0) > MESSAGE_MAX <==> nextLen == MESSAGE_MAX && prevLen % 0x100 != 0)
  {
    hide U32Bytes;
    LengthDigits(prevLen);
    LengthDigits(nextLen);
  }

  lemma LengthDigits(v: nat)
    requires v <= MESSAGE_MAX
    ensures var d := U32Bytes(v);
            && d[0] == 0 && d[1] <= 16
            && v == d[1] as int * 0x1_0000 + d[2] as int * 0x100 + d[3] as int
            && v % 0x1_0000 == d[2] as int * 0x100 + d[3] as int
            && v % 0x100 == d[3] as int
  {
    Digits(v);
    assert v / 0x1_0000 <= 16;
  }
}
