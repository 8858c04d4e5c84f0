/** Damage to a frame on disk that the scan is certain to notice. */
module SegmentDamage {
  import opened Bytes
  import opened Crc32
  import opened SegmentFormat
  import opened SegmentScan
  import opened Recovery
  import opened RecoveryProofs

  /** The bytes of a frame that enter its checksum: the fields len and epoch, then the payload. */
  function Summed(g: seq<byte>): seq<byte>
    requires |g| >= FRAME_HEAD
  {
    g[8..16] + g[FRAME_HEAD..]
  }

  /** g took the place of the written frame f: same size, same len field. */
  predicate Replaces(f: Frame, g: seq<byte>) {
    |g| == FrameSize(f) && g[8..12] == U32Bytes(|f.payload|)
  }

  /** The offset field changed in any way, and nothing else. */
  predicate OffsetDamage(f: Frame, g: seq<byte>)
    requires Replaces(f, g)
  {
    g[8..] == FrameBytes(f)[8..] && g[..8] != FrameBytes(f)[..8]
  }

  /** The checksum field changed in any way; what it covers did not. */
  predicate CrcDamage(f: Frame, g: seq<byte>)
    requires Replaces(f, g)
  {
    Summed(g) == Summed(FrameBytes(f)) && g[16..20] != FrameBytes(f)[16..20]
  }

  /** Epoch or payload changed within four consecutive covered bytes; the checksum field did not. */
  predicate BurstDamage(f: Frame, g: seq<byte>, at: nat)
    requires Replaces(f, g)
  {
    && g[16..20] == FrameBytes(f)[16..20]
    && DifferInQuad(Summed(FrameBytes(f)), Summed(g), at)
    && Summed(g) != Summed(FrameBytes(f))
  }

  ghost predicate Detectable(f: Frame, g: seq<byte>)
    requires Replaces(f, g)
  {
    OffsetDamage(f, g) || CrcDamage(f, g) || exists at :: BurstDamage(f, g, at)
  }

  lemma SummedOfFrame(f: Frame)
    ensures Summed(FrameBytes(f)) == LenEpoch(f) + f.payload
    ensures U32At(FrameBytes(f), 16) == Checksum(LenEpoch(f) + f.payload)
  {
    hide FrameBytes, Crc32.Crc, Checksum, U32Bytes, U32At;
    FrameBytesParts(f);
    U32RoundTrip(FrameBytes(f), 16, Checksum(LenEpoch(f) + f.payload));
  }

  lemma CoveredIsSummed(file: seq<byte>, pos: nat, g: seq<byte>)
    requires |g| >= FRAME_HEAD && pos + |g| <= |file| && file[pos..pos + |g|] == g
    ensures Covered(file, pos, |g| - FRAME_HEAD) == Summed(g)
    ensures U32At(file, pos + 16) == U32At(g, 16) && U32At(file, pos + 12) == U32At(g, 12)
  {
    hide U32At;
    SliceOfSlice(file, pos, g, 8, 16);
    SliceOfSlice(file, pos, g, FRAME_HEAD, |g|);
    U32Moved(file, pos, g, 16);
    U32Moved(file, pos, g, 12);
  }

  /** Checksum and checksum field disagree after damage to either. */
  lemma SumMismatch(f: Frame, g: seq<byte>)
    requires Replaces(f, g) && (CrcDamage(f, g) || exists at :: BurstDamage(f, g, at))
    ensures Checksum(Summed(g)) != U32At(g, 16)
  {
    hide FrameBytes, Checksum, U32At, Summed;
    var h := FrameBytes(f);
    SummedOfFrame(f);
    if CrcDamage(f, g) {
      if U32At(g, 16) == U32At(h, 16) {
        U32Injective(g, 16, h, 16);
      }
    } else {
      var at :| BurstDamage(f, g, at);
      BurstDetected(Summed(h), Summed(g), at);
      FieldMoves(g, h);
    }
  }

  lemma FieldMoves(g: seq<byte>, h: seq<byte>)
    requires |g| >= 20 && |h| >= 20 && g[16..20] == h[16..20]
    ensures U32At(g, 16) == U32At(h, 16)
  {
    assert forall i :: 0 <= i < 4 ==> g[16..20][i] == h[16..20][i];
    assert g[16] == h[16] && g[17] == h[17] && g[18] == h[18] && g[19] == h[19];
  }

  /** What the loop answers at the damaged frame. */
  function Symptom(f: Frame, g: seq<byte>, prev: u32): CorruptAt
    requires Replaces(f, g)
  {
    if U32At(g, 12) < prev then AtEpoch else if OffsetDamage(f, g) then AtOffset else AtCrc
  }

  lemma TurnOnDamage(file: seq<byte>, base: u64, pos: nat, prev: u32, stale: seq<byte>, f: Frame, g: seq<byte>)
    requires SEGMENT_HEAD <= pos && pos + |g| <= |file| && file[pos..pos + |g|] == g && |stale| == 4
    requires f.offset == ExpectedOffset(base, pos) && Replaces(f, g) && Detectable(f, g)
    ensures TakeTurn(file, base, pos, prev, stale) == Stopped(Corrupted(Symptom(f, g, prev)))
  {
    hide FrameBytes, Checksum, Crc32.Crc, U32At, U32Bytes, ExpectedOffset, Summed, BurstDamage, CrcDamage, LenBytesSeen;
    LenFieldOf(file, pos, f, g);
    LenSeenWhole(file, pos, stale);
    CoveredIsSummed(file, pos, g);
    CrcChain(file[pos + 8..pos + 16], file[pos + FRAME_HEAD..pos + FRAME_HEAD + |f.payload|]);
    if OffsetDamage(f, g) {
      OffsetDiffers(file, pos, f, g);
    } else {
      SumMismatch(f, g);
    }
  }

  lemma LenFieldOf(file: seq<byte>, pos: nat, f: Frame, g: seq<byte>)
    requires pos + |g| <= |file| && file[pos..pos + |g|] == g && Replaces(f, g)
    ensures U32At(file, pos + 8) == |f.payload|
  {
    hide U32At, U32Bytes;
    SliceOfSlice(file, pos, g, 8, 12);
    U32RoundTrip(file, pos + 8, |f.payload|);
  }

  lemma OffsetDiffers(file: seq<byte>, pos: nat, f: Frame, g: seq<byte>)
    requires pos + |g| <= |file| && file[pos..pos + |g|] == g && Replaces(f, g) && OffsetDamage(f, g)
    ensures U64At(file, pos) != f.offset
    ensures Checksum(Summed(g)) == U32At(g, 16)
  {
    hide FrameBytes, U64At, U32At, U64Bytes, U32Bytes, Checksum;
    var h := FrameBytes(f);
    FrameBytesParts(f);
    SummedOfFrame(f);
    assert g[8..16] == g[8..][..8] == h[8..][..8] == h[8..16];
    assert g[16..20] == g[8..][8..12] == h[8..][8..12] == h[16..20];
    assert g[FRAME_HEAD..] == g[8..][12..] == h[8..][12..] == h[FRAME_HEAD..];
    FieldMoves(g, h);
    if U64At(file, pos) == f.offset {
      U64RoundTrip(h, 0, f.offset);
      U64Injective(file, pos, h, 0);
      SliceOfSlice(file, pos, g, 0, 8);
    }
  }

  /** Detection. A segment holds the legal frames before and f; f is replaced by damaged bytes g, and anything may
      follow. The scan accepts exactly the frames in front of the damage, reports corruption there, and says what
      gave it away. */
  lemma DamageDetected(file: seq<byte>, before: seq<Frame>, f: Frame, g: seq<byte>, stale: seq<byte>)
    requires SegmentBase(file) != 0 && |stale| == 4
    requires Holds(file, SegmentBase(file), SEGMENT_HEAD, 0, before)
    requires Replaces(f, g) && Detectable(f, g)
    requires var e := SEGMENT_HEAD + FramesSize(before);
             && f.offset == ExpectedOffset(SegmentBase(file), e)
             && e + |g| <= |file| && file[e..e + |g|] == g
    ensures |file| >= SEGMENT_HEAD
    ensures ScanFrom(file, SegmentBase(file), SEGMENT_HEAD, 0, stale).frames == before
    ensures FreshVerdict(file, stale) ==
            ScanEnd(EndCorrupt, if before == [] then 0 else SEGMENT_HEAD + FramesSize(before), 0,
                    Symptom(f, g, LastEpoch(0, before)), LastEpoch(0, before))
  {
    hide FrameBytes, FramesBytes, FramesSize, SegmentBase, ScanFrom, Holds, Detectable, Symptom, ExpectedOffset,
         TakeTurn, U32Bytes;
    var base, e := SegmentBase(file), SEGMENT_HEAD + FramesSize(before);
    BaseNeedsHeader(file);
    ScanTakes(file, base, SEGMENT_HEAD, 0, stale, before);
    TurnOnDamage(file, base, e, LastEpoch(0, before), LenBytesAfter(stale, before), f, g);
    FirstTurn(file, base, e, LastEpoch(0, before), LenBytesAfter(stale, before));
    assert before + [] == before;
  }

  /** Any single byte outside the len field is such damage. */
  lemma SingleByteDetectable(f: Frame, i: nat, b: byte)
    requires i < FrameSize(f) && !(8 <= i < 12) && b != FrameBytes(f)[i]
    ensures var g := FrameBytes(f)[i := b];
            Replaces(f, g) && Detectable(f, g)
  {
    hide FrameBytes, U32Bytes;
    var h := FrameBytes(f);
    var g := h[i := b];
    FrameBytesParts(f);
    assert g[8..12] == h[8..12];
    if i < 8 {
      assert g[8..] == h[8..];
      assert g[..8][i] != h[..8][i];
    } else if 16 <= i < 20 {
      assert Summed(g) == Summed(h);
      assert g[16..20][i - 16] != h[16..20][i - 16];
    } else {
      var at := SingleByteBurst(h, i, b);
      assert BurstDamage(f, g, at);
    }
  }

  lemma SingleByteBurst(h: seq<byte>, i: nat, b: byte) returns (at: nat)
    requires |h| >= FRAME_HEAD && i < |h| && (12 <= i < 16 || FRAME_HEAD <= i) && b != h[i]
    ensures var g := h[i := b];
            && g[16..20] == h[16..20] && Summed(g) != Summed(h)
            && DifferInQuad(Summed(h), Summed(g), at)
  {
    var g := h[i := b];
    var j := if i < 16 then i - 8 else i - 12;
    assert g[16..20] == h[16..20];
    assert Summed(h)[j] == h[i] && Summed(g)[j] == b;
    assert Summed(g) == Summed(h)[j := b];
    at := QuadAround(Summed(h), j, b);
  }

  /** So is any change within four consecutive payload bytes. */
  lemma PayloadBurstDetectable(f: Frame, g: seq<byte>, i: nat)
    requires |g| == FrameSize(f) && FRAME_HEAD <= i && i + 4 <= |g|
    requires g[..i] == FrameBytes(f)[..i] && g[i + 4..] == FrameBytes(f)[i + 4..] && g != FrameBytes(f)
    ensures Replaces(f, g) && Detectable(f, g)
  {
    hide FrameBytes, U32Bytes;
    var h := FrameBytes(f);
    FrameBytesParts(f);
    assert g[8..12] == g[..i][8..12] == h[..i][8..12] == h[8..12];
    assert g[8..16] == g[..i][8..16] == h[..i][8..16] == h[8..16];
    assert g[16..20] == g[..i][16..20] == h[..i][16..20] == h[16..20];
    assert g[..20] == g[..i][..20] == h[..i][..20] == h[..20];
    SummedBurst(h, g, i);
    assert BurstDamage(f, g, i - 12);
  }

  lemma SummedBurst(h: seq<byte>, g: seq<byte>, i: nat)
    requires |g| == |h| && FRAME_HEAD <= i && i + 4 <= |g|
    requires g[..i] == h[..i] && g[i + 4..] == h[i + 4..] && g != h
    ensures DifferInQuad(Summed(h), Summed(g), i - 12) && Summed(g) != Summed(h)
  {
    var a, b := Summed(h), Summed(g);
    forall j | 0 <= j < i
      ensures g[j] == h[j]
    {
      assert g[..i][j] == h[..i][j];
    }
    forall j | i + 4 <= j < |g|
      ensures g[j] == h[j]
    {
      assert g[i + 4..][j - i - 4] == h[i + 4..][j - i - 4];
    }
    assert forall j {:trigger a[j]} :: 8 <= j < |a| ==> a[j] == h[j + 12] && b[j] == g[j + 12];
    assert a[..i - 12] == b[..i - 12];
    assert a[i - 8..] == b[i - 8..];
    var d :| 0 <= d < |g| && g[d] != h[d];
    assert a[d - 12] != b[d - 12];
  }

  /** Changing one byte of one frame of a legal segment, anywhere but in its len field, makes the scan report
      corruption right behind the preceding frame. */
  lemma SingleByteDetected(base: u64, walltime: u64, fs: seq<Frame>, k: nat, i: nat, b: byte, stale: seq<byte>)
    requires base > 0 && Placed(base, SEGMENT_HEAD, 0, fs) && |stale| == 4
    requires k < |fs| && i < FrameSize(fs[k]) && !(8 <= i < 12) && b != FrameBytes(fs[k])[i]
    ensures var file, e := SegmentFile(base, walltime, fs), SEGMENT_HEAD + FramesSize(fs[..k]);
            && e + i < |file|
            && var v := FreshVerdict(file[e + i := b], stale);
               && v.kind.EndCorrupt? && v.validEnd == (if k == 0 then 0 else e)
               && v.lastEpoch == LastEpoch(0, fs[..k])
               && v.corruptAt == Symptom(fs[k], FrameBytes(fs[k])[i := b], LastEpoch(0, fs[..k]))
  {
    hide FrameBytes, FramesBytes, FramesSize, SegmentFile, SegmentBase, ScanFrom, Detectable, Symptom,
         ExpectedOffset, Placed, FreshVerdict, Holds;
    var file, e := SegmentFile(base, walltime, fs), SEGMENT_HEAD + FramesSize(fs[..k]);
    var f, before := fs[k], fs[..k];
    SegmentFileHolds(base, walltime, fs);
    HoldsBound(file, base, SEGMENT_HEAD, 0, fs);
    assert fs == before + fs[k..];
    HoldsAppend(file, base, SEGMENT_HEAD, 0, before, fs[k..]);
    HoldsCons(file, base, e, LastEpoch(0, before), fs[k..]);
    var damaged := file[e + i := b];
    HoldsCut(file, base, SEGMENT_HEAD, 0, before, e);
    assert damaged[..e] == file[..e];
    HoldsCut(damaged, base, SEGMENT_HEAD, 0, before, e);
    CutBase(base, walltime, fs, e);
    BaseOfPrefix(damaged, e);
    assert damaged[e..e + FrameSize(f)] == FrameBytes(f)[i := b];
    SingleByteDetectable(f, i, b);
    DamageDetected(damaged, before, f, FrameBytes(f)[i := b], stale);
  }

  /** Changing any one byte of an accepted header, of any file, leaves no accepted header. */
  lemma HeaderByteDetected(file: seq<byte>, i: nat, b: byte, stale: seq<byte>)
    requires |file| >= SEGMENT_HEAD && CompareMagicCrc(file[..SEGMENT_HEAD]) && |stale| == 4
    requires i < SEGMENT_HEAD && b != file[i]
    ensures FreshVerdict(file[i := b], stale) == ScanEnd(HeadBad, 0, 0, AtLen, 0)
  {
    hide Checksum, U32At, U64At;
    var h := file[..SEGMENT_HEAD];
    assert Sealed(h, 28);
    SealBroken(h, 28, i, b);
    assert file[i := b][..SEGMENT_HEAD] == h[i := b];
  }
}
