/** The bytes of a log segment: a 32-byte header, then frames of 20 + len bytes, and the test of one frame. */
module SegmentFormat {
  import opened Bytes
  import opened Crc32

  const SEGMENT_HEAD: nat := 32
  const FRAME_HEAD: nat := 20

  type Payload = s: seq<byte> | |s| <= MESSAGE_MAX

  datatype Frame = Frame(offset: u64, epoch: u32, payload: Payload)

  function FrameSize(f: Frame): nat {
    FRAME_HEAD + |f.payload|
  }

  /** The two fields of the frame head that the checksum covers. */
  function LenEpoch(f: Frame): seq<byte> {
    U32Bytes(|f.payload|) + U32Bytes(f.epoch)
  }

  function FrameHeadBytes(f: Frame): (s: seq<byte>)
    ensures |s| == FRAME_HEAD
  {
    U64Bytes(f.offset) + LenEpoch(f) + U32Bytes(Crc(Crc(0, LenEpoch(f)), f.payload))
  }

  function FrameBytes(f: Frame): (s: seq<byte>)
    ensures |s| == FrameSize(f)
  {
    FrameHeadBytes(f) + f.payload
  }

  /** The bytes of the frame at at that its checksum covers. */
  function Covered(s: seq<byte>, at: nat, len: nat): seq<byte>
    requires at + FRAME_HEAD + len <= |s|
  {
    s[at + 8..at + 16] + s[at + FRAME_HEAD..at + FRAME_HEAD + len]
  }

  /** A whole frame with a legal length and a matching checksum starts at at. */
  predicate FrameStartsAt(s: seq<byte>, at: nat) {
    && at + FRAME_HEAD <= |s|
    && U32At(s, at + 8) <= MESSAGE_MAX
    && at + FRAME_HEAD + U32At(s, at + 8) <= |s|
    && Checksum(Covered(s, at, U32At(s, at + 8))) == U32At(s, at + 16)
  }

  function FrameAt(s: seq<byte>, at: nat): Frame
    requires FrameStartsAt(s, at)
  {
    Frame(U64At(s, at), U32At(s, at + 12), s[at + FRAME_HEAD..at + FRAME_HEAD + U32At(s, at + 8)])
  }

  lemma FrameBytesParts(f: Frame)
    ensures var s := FrameBytes(f);
            && s[..8] == U64Bytes(f.offset) && s[8..12] == U32Bytes(|f.payload|)
            && s[12..16] == U32Bytes(f.epoch) && s[8..16] == LenEpoch(f)
            && s[16..20] == U32Bytes(Checksum(LenEpoch(f) + f.payload)) && s[20..] == f.payload
  {
    CrcChain(LenEpoch(f), f.payload);
  }

  /** Every field of a written frame reads back, wherever the frame lies. */
  lemma FieldsRoundTrip(s: seq<byte>, at: nat, f: Frame)
    requires at + FrameSize(f) <= |s| && s[at..at + FrameSize(f)] == FrameBytes(f)
    ensures U64At(s, at) == f.offset && U32At(s, at + 8) == |f.payload| && U32At(s, at + 12) == f.epoch
    ensures U32At(s, at + 16) == Checksum(LenEpoch(f) + f.payload)
  {
    FrameBytesParts(f);
    PartsReadBack(s, at, f, FrameBytes(f));
  }

  lemma PartsReadBack(s: seq<byte>, at: nat, f: Frame, w: seq<byte>)
    requires |w| >= 20 && at + |w| <= |s| && s[at..at + |w|] == w
    requires w[..8] == U64Bytes(f.offset) && w[8..12] == U32Bytes(|f.payload|) && w[12..16] == U32Bytes(f.epoch)
    requires w[16..20] == U32Bytes(Checksum(LenEpoch(f) + f.payload))
    ensures U64At(s, at) == f.offset && U32At(s, at + 8) == |f.payload| && U32At(s, at + 12) == f.epoch
    ensures U32At(s, at + 16) == Checksum(LenEpoch(f) + f.payload)
  {
    SliceOfSlice(s, at, w, 0, 8);
    SliceOfSlice(s, at, w, 8, 12);
    SliceOfSlice(s, at, w, 12, 16);
    SliceOfSlice(s, at, w, 16, 20);
    U64RoundTrip(s, at, f.offset);
    U32RoundTrip(s, at + 8, |f.payload|);
    U32RoundTrip(s, at + 12, f.epoch);
    U32RoundTrip(s, at + 16, Checksum(LenEpoch(f) + f.payload));
  }

  lemma CoveredOfFrame(s: seq<byte>, at: nat, f: Frame)
    requires at + FrameSize(f) <= |s| && s[at..at + FrameSize(f)] == FrameBytes(f)
    ensures Covered(s, at, |f.payload|) == LenEpoch(f) + f.payload
    ensures s[at + FRAME_HEAD..at + FRAME_HEAD + |f.payload|] == f.payload
  {
    FrameBytesParts(f);
    var w := FrameBytes(f);
    SliceOfSlice(s, at, w, 8, 16);
    SliceOfSlice(s, at, w, 20, |w|);
  }

  /** Writing a frame and reading it back, wherever it lies. */
  lemma FrameRoundTrip(s: seq<byte>, at: nat, f: Frame)
    requires at + FrameSize(f) <= |s| && s[at..at + FrameSize(f)] == FrameBytes(f)
    ensures FrameStartsAt(s, at) && FrameAt(s, at) == f
  {
    FieldsRoundTrip(s, at, f);
    CoveredOfFrame(s, at, f);
  }

  /** A frame that passes the test is, byte for byte, what the writer produces for it. */
  lemma FrameRewritten(s: seq<byte>, at: nat)
    requires FrameStartsAt(s, at)
    ensures s[at..at + FrameSize(FrameAt(s, at))] == FrameBytes(FrameAt(s, at))
  {
    hide Crc, Checksum, U32At, U64At, U32Bytes, U64Bytes;
    var f := FrameAt(s, at);
    var w := FrameBytes(f);
    FrameBytesParts(f);
    U64RoundTrip(w, 0, f.offset);
    U32RoundTrip(w, 8, |f.payload|);
    U32RoundTrip(w, 12, f.epoch);
    U64Injective(s, at, w, 0);
    U32Injective(s, at + 8, w, 8);
    U32Injective(s, at + 12, w, 12);
    assert s[at + 8..at + 16] == s[at + 8..at + 12] + s[at + 12..at + 16];
    U32RoundTrip(w, 16, Checksum(LenEpoch(f) + f.payload));
    U32Injective(s, at + 16, w, 16);
    var t := s[at..at + FrameSize(f)];
    assert t == s[at..at + 8] + s[at + 8..at + 16] + s[at + 16..at + 20] + s[at + 20..at + FrameSize(f)];
    assert w == w[..8] + w[8..16] + w[16..20] + w[20..];
  }

  // ---------- the test of one frame ----------

  datatype CheckKind = Valid | Torn | Corrupt
  datatype CorruptAt = AtLen | AtOffset | AtEpoch | AtCrc
  datatype FrameCheck = FrameCheck(kind: CheckKind, len: nat, tornLen: nat, epoch: u32, corruptAt: CorruptAt)

  /** avail bytes can be read from at; at least the head of the frame is there. */
  function CheckFrame(s: seq<byte>, at: nat, avail: nat, expected: u64, prevEpoch: u32): FrameCheck
    requires at + FRAME_HEAD <= |s| && at + avail <= |s|
  {
    var len := U32At(s, at + 8);
    var epoch := U32At(s, at + 12);
    if len > MESSAGE_MAX then FrameCheck(Corrupt, 0, 0, 0, AtLen)
    else if epoch < prevEpoch then FrameCheck(Corrupt, 0, 0, epoch, AtEpoch)
    else if avail < len + FRAME_HEAD then FrameCheck(Torn, 0, avail, epoch, AtLen)
    else
      var head := Crc(0, s[at + 8..at + 16]);
      if Crc(head, s[at + FRAME_HEAD..at + FRAME_HEAD + len]) != U32At(s, at + 16)
      then FrameCheck(Corrupt, 0, 0, epoch, AtCrc)
      else if U64At(s, at) != expected then FrameCheck(Corrupt, 0, 0, epoch, AtOffset)
      else FrameCheck(Valid, len, 0, epoch, AtLen)
  }

  /** What is accepted, in terms of the bytes on disk: a whole frame, in its place, whose epoch does not go back. */
  lemma CheckFrameValid(s: seq<byte>, at: nat, avail: nat, expected: u64, prevEpoch: u32)
    requires at + FRAME_HEAD <= |s| && at + avail <= |s|
    ensures CheckFrame(s, at, avail, expected, prevEpoch).kind.Valid? <==>
            && FrameStartsAt(s, at)
            && FrameSize(FrameAt(s, at)) <= avail
            && FrameAt(s, at).offset == expected
            && FrameAt(s, at).epoch >= prevEpoch
  {
    var len := U32At(s, at + 8);
    if len <= MESSAGE_MAX && avail >= len + FRAME_HEAD {
      CrcChain(s[at + 8..at + 16], s[at + FRAME_HEAD..at + FRAME_HEAD + len]);
    }
  }

  /** What is not accepted, symptom by symptom: the length field is looked at first, then the epoch, and an epoch that
      goes back is reported whatever else is wrong; a frame with a bad checksum is not asked for its offset. */
  lemma CheckFrameSymptoms(s: seq<byte>, at: nat, avail: nat, expected: u64, prevEpoch: u32)
    requires at + 20 <= |s| && at + avail <= |s|
    ensures var c, len, epoch := CheckFrame(s, at, avail, expected, prevEpoch), U32At(s, at + 8), U32At(s, at + 12);
            var current := len <= 1_048_576 && epoch >= prevEpoch;
            && (c.kind == Corrupt && c.corruptAt == AtLen <==> len > 1_048_576)
            && (c.kind == Corrupt && c.corruptAt == AtEpoch <==> len <= 1_048_576 && epoch < prevEpoch)
            && (c.kind == Torn <==> current && avail < 20 + len)
            && (c.kind == Corrupt && c.corruptAt == AtCrc <==> current && avail >= 20 + len && !FrameStartsAt(s, at))
            && (c.kind == Corrupt && c.corruptAt == AtOffset <==>
                 current && avail >= 20 + len && FrameStartsAt(s, at) && FrameAt(s, at).offset != expected)
  {
    hide Crc, U32At, U64At;
    var len := U32At(s, at + 8);
    if len <= MESSAGE_MAX && avail >= len + FRAME_HEAD {
      CrcChain(s[at + 8..at + 16], s[at + FRAME_HEAD..at + FRAME_HEAD + len]);
    }
  }

  /** The beginning of a written frame, its head at least and not the whole of it: torn, unless its epoch goes back. */
  lemma CheckFrameTorn(s: seq<byte>, at: nat, avail: nat, expected: u64, prevEpoch: u32, f: Frame)
    requires 20 <= avail < 20 + |f.payload| && at + avail <= |s| && s[at..at + avail] == FrameBytes(f)[..avail]
    ensures CheckFrame(s, at, avail, expected, prevEpoch) ==
            if f.epoch < prevEpoch then FrameCheck(Corrupt, 0, 0, f.epoch, AtEpoch)
            else FrameCheck(Torn, 0, avail, f.epoch, AtLen)
  {
    hide Crc, FrameBytes, U32At, U64At, U32Bytes;
    var u, w := s[at..at + avail], FrameBytes(f);
    FrameBytesParts(f);
    assert u[8..12] == w[8..12] && u[12..16] == w[12..16];
    SliceOfSlice(s, at, u, 8, 12);
    SliceOfSlice(s, at, u, 12, 16);
    U32RoundTrip(s, at + 8, |f.payload|);
    U32RoundTrip(s, at + 12, f.epoch);
  }

  /** s continues at at with f, which belongs there. */
  predicate FrameFits(s: seq<byte>, at: nat, avail: nat, expected: u64, prevEpoch: u32, f: Frame) {
    && f.offset == expected && f.epoch >= prevEpoch
    && FrameSize(f) <= avail && at + FrameSize(f) <= |s|
    && s[at..at + FrameSize(f)] == FrameBytes(f)
  }

  /** The test accepts exactly the writer's frames for this place with an epoch that does not go back. */
  lemma CheckFrameAccepts(s: seq<byte>, at: nat, avail: nat, expected: u64, prevEpoch: u32)
    requires at + FRAME_HEAD <= |s| && at + avail <= |s|
    ensures CheckFrame(s, at, avail, expected, prevEpoch).kind.Valid? <==>
            exists f: Frame :: FrameFits(s, at, avail, expected, prevEpoch, f)
  {
    var valid := CheckFrame(s, at, avail, expected, prevEpoch).kind.Valid?;
    CheckFrameValid(s, at, avail, expected, prevEpoch);
    if valid {
      FrameRewritten(s, at);
      assert FrameFits(s, at, avail, expected, prevEpoch, FrameAt(s, at));
    }
    forall f: Frame | FrameFits(s, at, avail, expected, prevEpoch, f)
      ensures valid
    {
      FrameRoundTrip(s, at, f);
    }
  }

  lemma CheckFrameMoved(s: seq<byte>, at: nat, u: seq<byte>, expected: u64, prevEpoch: u32)
    requires |u| >= FRAME_HEAD && at + |u| <= |s| && s[at..at + |u|] == u
    ensures CheckFrame(s, at, |u|, expected, prevEpoch) == CheckFrame(u, 0, |u|, expected, prevEpoch)
  {
    hide Crc;
    U32Moved(s, at, u, 0);
    U32Moved(s, at, u, 4);
    U32Moved(s, at, u, 8);
    U32Moved(s, at, u, 12);
    U32Moved(s, at, u, 16);
    SliceOfSlice(s, at, u, 8, 16);
    var len := U32At(u, 8);
    if |u| >= len + FRAME_HEAD {
      SliceOfSlice(s, at, u, FRAME_HEAD, FRAME_HEAD + len);
    }
  }

  lemma U32Moved(s: seq<byte>, at: nat, u: seq<byte>, i: nat)
    requires at + |u| <= |s| && s[at..at + |u|] == u && i + 4 <= |u|
    ensures U32At(s, at + i) == U32At(u, i)
  {
    assert s[at + i] == u[i] && s[at + i + 1] == u[i + 1] && s[at + i + 2] == u[i + 2] && s[at + i + 3] == u[i + 3];
  }

  /** The test looks at no byte beyond the frame, so the buffer it is handed may hold anything there. */
  lemma CheckFrameLocal(s: seq<byte>, at: nat, t: seq<byte>, to: nat, avail: nat, expected: u64, prevEpoch: u32)
    requires avail >= FRAME_HEAD && at + avail <= |s| && to + avail <= |t|
    requires s[at..at + avail] == t[to..to + avail]
    ensures CheckFrame(s, at, avail, expected, prevEpoch) == CheckFrame(t, to, avail, expected, prevEpoch)
  {
    var u := s[at..at + avail];
    CheckFrameMoved(s, at, u, expected, prevEpoch);
    CheckFrameMoved(t, to, u, expected, prevEpoch);
  }

  // ---------- the segment header ----------

  /** "PLOGSEGV" */
  const MAGIC: seq<byte> := [0x50, 0x4C, 0x4F, 0x47, 0x53, 0x45, 0x47, 0x56]

  function HeaderFields(version: u32, base: u64, walltime: u64): (s: seq<byte>)
    ensures |s| == 28
  {
    MAGIC + U32Bytes(version) + U64Bytes(base) + U64Bytes(walltime)
  }

  function HeaderBytes(version: u32, base: u64, walltime: u64): (s: seq<byte>)
    ensures |s| == SEGMENT_HEAD
  {
    HeaderFields(version, base, walltime) + U32Bytes(Checksum(HeaderFields(version, base, walltime)))
  }

  predicate CompareMagicCrc(s: seq<byte>)
    requires |s| >= SEGMENT_HEAD
  {
    s[..8] == MAGIC && U32At(s, 8) == 1 && Checksum(s[..28]) == U32At(s, 28)
  }

  /** The base offset of an accepted header; 0 stands for a header that is not accepted. */
  function SegmentBase(file: seq<byte>): u64 {
    if |file| < SEGMENT_HEAD || !CompareMagicCrc(file[..SEGMENT_HEAD]) then 0 else U64At(file, 12)
  }

  lemma HeaderParts(base: u64, walltime: u64)
    ensures var h, fields := HeaderBytes(1, base, walltime), HeaderFields(1, base, walltime);
            && (forall i :: 0 <= i < 8 ==> h[i] == "PLOGSEGV"[i] as int)
            && h[..8] == MAGIC && h[8..12] == U32Bytes(1) && h[12..20] == U64Bytes(base)
            && h[20..28] == U64Bytes(walltime) && h[..28] == fields && h[28..32] == U32Bytes(Checksum(fields))
            && U32At(h, 8) == 1 && U32At(h, 28) == Checksum(fields)
            && U64At(h, 12) == base && U64At(h, 20) == walltime
  {
    hide U32Bytes, U64Bytes, Crc, U32At, U64At;
    var h, fields := HeaderBytes(1, base, walltime), HeaderFields(1, base, walltime);
    var sum := U32Bytes(Checksum(fields));
    assert h == fields + sum;
    assert h[..28] == fields && h[28..32] == sum;
    assert fields[..8] == MAGIC && fields[8..12] == U32Bytes(1) && fields[12..20] == U64Bytes(base);
    assert fields[20..28] == U64Bytes(walltime);
    U32RoundTrip(h, 8, 1);
    U32RoundTrip(h, 28, Checksum(fields));
    U64RoundTrip(h, 12, base);
    U64RoundTrip(h, 20, walltime);
  }

  /** The header test accepts exactly what the header writer produces for version 1. */
  lemma HeaderAccepted(s: seq<byte>)
    requires |s| == SEGMENT_HEAD
    ensures CompareMagicCrc(s) <==> s == HeaderBytes(1, U64At(s, 12), U64At(s, 20))
  {
    hide U32Bytes, U64Bytes, Crc, U32At, U64At, HeaderBytes, HeaderFields;
    var h := HeaderBytes(1, U64At(s, 12), U64At(s, 20));
    HeaderParts(U64At(s, 12), U64At(s, 20));
    if CompareMagicCrc(s) {
      U64Injective(s, 12, h, 12);
      U64Injective(s, 20, h, 20);
      U32Injective(s, 8, h, 8);
      assert s[..28] == s[..8] + s[8..12] + s[12..20] + s[20..28];
      assert h[..28] == h[..8] + h[8..12] + h[12..20] + h[20..28];
      U32Injective(s, 28, h, 28);
      assert s == s[..28] + s[28..32] && h == h[..28] + h[28..32];
    }
  }

  lemma HeaderBase(base: u64, walltime: u64, rest: seq<byte>)
    ensures SegmentBase(HeaderBytes(1, base, walltime) + rest) == base
  {
    hide U32Bytes, U64Bytes, Crc, U64At, HeaderBytes, HeaderFields;
    var h := HeaderBytes(1, base, walltime);
    var s := h + rest;
    HeaderParts(base, walltime);
    HeaderAccepted(h);
    assert s[..SEGMENT_HEAD] == h;
    assert s[12..20] == h[12..20];
    U64RoundTrip(s, 12, base);
  }
}
