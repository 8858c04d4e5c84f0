/** The commit log: 36-byte records, a small state machine replayed on open, and an append that a crash,
    a short write or a refused truncation cannot turn into a wrong replay. */
module CommitLog {
  import opened Bytes
  import opened Crc32
  import opened FileIo

  const RECORD: nat := 36

  datatype Entry = Entry(batchNo: u64, candidateHw: u64, epoch: u64, state: byte)
  datatype Reply = Reply(lastBatchNo: u64, creditHw: u64, lastEpoch: u64, corrupt: bool)

  const PUBLISHED: byte := 2
  const BLANK: Reply := Reply(0, 0, 0, false)

  // ---------- records ----------

  function EntryFields(e: Entry): (s: seq<byte>)
    ensures |s| == 32
  {
    U64Bytes(e.batchNo) + U64Bytes(e.candidateHw) + U64Bytes(e.epoch) + [e.state, 0, 0, 0, 0, 0, 0, 0]
  }

  function EntryBytes(e: Entry): (s: seq<byte>)
    ensures |s| == RECORD
  {
    EntryFields(e) + U32Bytes(Checksum(EntryFields(e)))
  }

  function EntriesBytes(es: seq<Entry>): (s: seq<byte>)
    ensures |s| == RECORD * |es|
  {
    if es == [] then [] else EntriesBytes(es[..|es| - 1]) + EntryBytes(es[|es| - 1])
  }

  predicate GoodCrc(file: seq<byte>, at: nat)
    requires at + RECORD <= |file|
  {
    Checksum(file[at..at + 32]) == U32At(file, at + 32)
  }

  function EntryAt(file: seq<byte>, at: nat): Entry
    requires at + RECORD <= |file|
  {
    Entry(U64At(file, at), U64At(file, at + 8), U64At(file, at + 16), file[at + 24])
  }

  lemma EntryParts(e: Entry)
    ensures var w := EntryBytes(e);
            && w[0..8] == U64Bytes(e.batchNo) && w[8..16] == U64Bytes(e.candidateHw) && w[16..24] == U64Bytes(e.epoch)
            && w[24] == e.state && w[0..32] == EntryFields(e) && w[32..36] == U32Bytes(Checksum(EntryFields(e)))
  {
    hide U64Bytes, U32Bytes, Checksum;
    var w, s := EntryBytes(e), EntryFields(e);
    assert w[0..32] == s && w[32..36] == U32Bytes(Checksum(s));
    assert s[0..8] == U64Bytes(e.batchNo) && s[8..16] == U64Bytes(e.candidateHw) && s[16..24] == U64Bytes(e.epoch);
    assert w[0..8] == s[0..8] && w[8..16] == s[8..16] && w[16..24] == s[16..24];
  }

  /** Writing a record and reading it back, wherever it lies. */
  lemma EntryRoundTrip(file: seq<byte>, at: nat, e: Entry)
    requires at + RECORD <= |file| && file[at..at + RECORD] == EntryBytes(e)
    ensures GoodCrc(file, at) && EntryAt(file, at) == e
  {
    hide EntryBytes, EntryFields, Checksum, U64At, U32At, U64Bytes, U32Bytes;
    var w := EntryBytes(e);
    EntryParts(e);
    SliceOfSlice(file, at, w, 0, 8);
    SliceOfSlice(file, at, w, 8, 16);
    SliceOfSlice(file, at, w, 16, 24);
    SliceOfSlice(file, at, w, 0, 32);
    SliceOfSlice(file, at, w, 32, 36);
    U64RoundTrip(file, at, e.batchNo);
    U64RoundTrip(file, at + 8, e.candidateHw);
    U64RoundTrip(file, at + 16, e.epoch);
    U32RoundTrip(file, at + 32, Checksum(EntryFields(e)));
    assert file[at + 24] == file[at..at + RECORD][24];
  }

  /** The first n records of the file, as values. */
  function Records(file: seq<byte>, n: nat): (es: seq<Entry>)
    requires RECORD * n <= |file|
    ensures |es| == n
  {
    if n == 0 then [] else Records(file, n - 1) + [EntryAt(file, RECORD * (n - 1))]
  }

  predicate GoodRecords(file: seq<byte>, n: nat)
    requires RECORD * n <= |file|
  {
    n == 0 || (GoodRecords(file, n - 1) && GoodCrc(file, RECORD * (n - 1)))
  }

  // ---------- the rule of the log and what it sums up to ----------

  function LastBatch(es: seq<Entry>): u64 {
    if es == [] then 0 else es[|es| - 1].batchNo
  }

  function LastState(es: seq<Entry>): byte {
    if es == [] then 0 else es[|es| - 1].state
  }

  /** e may come right behind es. */
  predicate Follows(es: seq<Entry>, e: Entry) {
    && e.state <= 2
    && (e.batchNo == LastBatch(es) || e.batchNo == (LastBatch(es) + 1) % U64_LIMIT)
    && (e.batchNo == LastBatch(es) ==> e.state >= LastState(es))
  }

  /** Each batch number repeats or is one more than the last (from 0, modulo 2^64), states are at most 2
      and do not go back within a batch. */
  predicate LegalEntries(es: seq<Entry>) {
    forall i :: 0 <= i < |es| ==> Follows(es[..i], es[i])
  }

  /** e may stand right behind d. */
  predicate Succeeds(d: Entry, e: Entry) {
    || (e.batchNo == d.batchNo && e.state >= d.state)
    || e.batchNo == d.batchNo + 1
    || (e.batchNo == 0 && d.batchNo == 0xFFFF_FFFF_FFFF_FFFF)
  }

  /** The first batch is 0 or 1; from one record to the next either the batch stays and its state does not go back, or
      the number goes up by one; states are at most 2. */
  predicate Neighbourly(es: seq<Entry>) {
    && (forall i :: 0 <= i < |es| ==> es[i].state <= 2)
    && (es != [] ==> es[0].batchNo <= 1)
    && (forall i :: 0 < i < |es| ==> Succeeds(es[i - 1], es[i]))
  }

  lemma NeighbourSnoc(es: seq<Entry>, e: Entry)
    ensures Neighbourly(es + [e]) <==>
            Neighbourly(es) && e.state <= 2 && if es == [] then e.batchNo <= 1 else Succeeds(es[|es| - 1], e)
  {
    hide Succeeds;
    var all := es + [e];
    assert forall i :: 0 <= i < |es| ==> all[i] == es[i];
    if Neighbourly(all) {
      assert forall i :: 0 < i < |es| ==> Succeeds(all[i - 1], all[i]);
      assert es != [] ==> Succeeds(all[|es| - 1], all[|es|]);
    }
  }

  /** The rule of the log is a rule between neighbours. */
  lemma {:induction false} LegalNeighbours(es: seq<Entry>)
    ensures LegalEntries(es) <==> Neighbourly(es)
  {
    hide LegalEntries, Neighbourly;
    if es == [] {
      NothingIllegal();
    } else {
      var init, e := es[..|es| - 1], es[|es| - 1];
      LegalNeighbours(init);
      assert es == init + [e];
      LegalSnoc(init, e);
      NeighbourSnoc(init, e);
    }
  }

  lemma NothingIllegal()
    ensures LegalEntries([]) && Neighbourly([])
  {
  }

  /** Unless the number wraps around, batches never go back and rise by at most one per record, and within a batch the
      state never goes back. */
  lemma {:induction false} BatchesInOrder(es: seq<Entry>, i: nat, j: nat)
    requires LegalEntries(es) && i <= j < |es| && forall k :: 0 <= k < |es| ==> es[k].batchNo < 0xFFFF_FFFF_FFFF_FFFF
    ensures es[i].batchNo <= es[j].batchNo <= es[i].batchNo + (j - i)
    ensures es[i].batchNo == es[j].batchNo ==> es[i].state <= es[j].state
    decreases j
  {
    hide LegalEntries;
    LegalNeighbours(es);
    if i < j {
      BatchesInOrder(es, i, j - 1);
      assert Succeeds(es[j - 1], es[j]);
    }
  }

  function CreditHw(es: seq<Entry>): u64 {
    if es == [] then 0
    else
      var e, hw := es[|es| - 1], CreditHw(es[..|es| - 1]);
      if e.state >= 1 && hw < e.candidateHw then e.candidateHw else hw
  }

  function Summary(es: seq<Entry>): Reply {
    Reply(LastBatch(es), CreditHw(es), if es == [] then 0 else es[|es| - 1].epoch, false)
  }

  /** The credited high-water mark is the maximum of candidateHw over the records with state >= 1. */
  lemma {:induction false} CreditHwIsMaximum(es: seq<Entry>)
    ensures forall e :: e in es && e.state >= 1 ==> e.candidateHw <= CreditHw(es)
    ensures CreditHw(es) != 0 ==> exists e :: e in es && e.state >= 1 && e.candidateHw == CreditHw(es)
  {
    if es != [] {
      var init, last := es[..|es| - 1], es[|es| - 1];
      CreditHwIsMaximum(init);
      assert es == init + [last];
      if CreditHw(es) != 0 {
        if CreditHw(es) == CreditHw(init) {
          var e :| e in init && e.state >= 1 && e.candidateHw == CreditHw(init);
          assert e in es;
        } else {
          assert last in es;
        }
      }
    }
  }

  /** It never goes down while the log grows. */
  lemma {:induction false} CreditHwMonotone(es: seq<Entry>, n: nat)
    requires n <= |es|
    ensures CreditHw(es[..n]) <= CreditHw(es)
  {
    if n == |es| {
      assert es[..n] == es;
    } else {
      assert es[..|es| - 1][..n] == es[..n];
      CreditHwMonotone(es[..|es| - 1], n);
    }
  }

  // ---------- replay ----------

  datatype Outcome = Outcome(ok: bool, out: Reply, offset: nat)

  function Updated(out: Reply, e: Entry): Reply {
    Reply(e.batchNo, if e.state >= 1 && out.creditHw < e.candidateHw then e.candidateHw else out.creditHw, e.epoch,
          out.corrupt)
  }

  /** The loop of open_or_create from record i on. */
  function Replay(file: seq<byte>, i: nat, prevBatch: u64, prevState: byte, out: Reply): Outcome
    requires RECORD * i <= |file|
    decreases |file| - RECORD * i
  {
    var at := RECORD * i;
    if |file| - at < RECORD then Outcome(true, out, at)
    else if !GoodCrc(file, at) then Outcome(false, out.(corrupt := true), at)
    else
      var e := EntryAt(file, at);
      if prevBatch == e.batchNo then
        if prevState > e.state || e.state > PUBLISHED then Outcome(false, out.(corrupt := true), at + RECORD)
        else Replay(file, i + 1, prevBatch, e.state, Updated(out, e))
      else if (prevBatch + 1) % U64_LIMIT == e.batchNo then
        if e.state > PUBLISHED then Outcome(false, out.(corrupt := true), at + RECORD)
        else Replay(file, i + 1, e.batchNo, e.state, Updated(out, e))
      else Outcome(false, out.(corrupt := true), at + RECORD)
  }

  lemma LegalSnoc(es: seq<Entry>, e: Entry)
    ensures LegalEntries(es + [e]) <==> LegalEntries(es) && Follows(es, e)
    ensures Summary(es + [e]) == Updated(Summary(es), e)
  {
    hide Follows;
    var all := es + [e];
    assert all[..|es|] == es;
    assert forall i :: 0 <= i < |es| ==> all[..i] == es[..i];
    assert LegalEntries(all) ==> forall i :: 0 <= i < |es| ==> Follows(all[..i], all[i]) && all[i] == es[i];
  }

  lemma {:induction false} RecordsPrefix(file: seq<byte>, i: nat, n: nat)
    requires i <= n && RECORD * n <= |file|
    ensures GoodRecords(file, n) ==> GoodRecords(file, i)
    ensures LegalEntries(Records(file, n)) ==> LegalEntries(Records(file, i))
    decreases n - i
  {
    hide GoodCrc, EntryAt, Follows, LegalEntries;
    if i < n {
      RecordsPrefix(file, i, n - 1);
      LegalSnoc(Records(file, n - 1), EntryAt(file, RECORD * (n - 1)));
    }
  }

  /** The file begins with k records that are good and obey the rule of the log. */
  predicate LegalRecords(file: seq<byte>, k: nat)
    requires RECORD * k <= |file|
  {
    GoodRecords(file, k) && LegalEntries(Records(file, k))
  }

  /** Record k, if the file has it whole, is bad or breaks the rule behind the records before it. */
  predicate EndsAt(file: seq<byte>, k: nat)
    requires RECORD * k <= |file|
  {
    RECORD * (k + 1) <= |file| ==> !LegalRecords(file, k + 1)
  }

  /** Replay started in the middle of a legal log, in the state that log leads to, gets to record k and stops there:
      what it has summed up is exactly the k records, and nothing of the record that it refuses. */
  lemma {:induction false} ReplayFromLegal(file: seq<byte>, i: nat) returns (k: nat)
    requires RECORD * i <= |file| && LegalRecords(file, i)
    ensures i <= k <= |file| / RECORD && LegalRecords(file, k) && EndsAt(file, k)
    ensures var es, n := Records(file, i), |file| / RECORD;
            Replay(file, i, LastBatch(es), LastState(es), Summary(es))
            == Outcome(k == n, Summary(Records(file, k)).(corrupt := k < n),
                       if k == n || !GoodCrc(file, 36 * k) then 36 * k else 36 * (k + 1))
    decreases |file| - RECORD * i
  {
    hide GoodCrc, EntryAt, LegalEntries, Updated, CreditHw;
    var es, n, at := Records(file, i), |file| / RECORD, RECORD * i;
    if |file| - at < RECORD {
      assert n == i;
      k := i;
    } else {
      var e := EntryAt(file, at);
      LegalSnoc(es, e);
      assert Records(file, i + 1) == es + [e];
      if GoodCrc(file, at) && Follows(es, e) {
        k := ReplayFromLegal(file, i + 1);
      } else {
        k := i;
      }
    }
  }

  /** Replay is exact. Of the n whole records in the file it accepts the longest beginning, of k records, that have good
      checksums and obey the rule of the log. Its summary is that of those k: their last batch number and epoch, read
      from the file, and the mark they credit. It succeeds if they are all, and otherwise flags corruption and stops in
      front of a bad checksum, or behind the record that breaks the rule. */
  lemma ReplayExact(file: seq<byte>) returns (k: nat)
    ensures k <= |file| / RECORD && LegalRecords(file, k) && EndsAt(file, k)
    ensures var n, r := |file| / RECORD, Replay(file, 0, 0, 0, BLANK);
            && (r.ok <==> k == n) && (r.ok <==> LegalRecords(file, n)) && (r.out.corrupt <==> !r.ok)
            && r.out.lastBatchNo == (if k == 0 then 0 else U64At(file, 36 * k - 36))
            && r.out.lastEpoch == (if k == 0 then 0 else U64At(file, 36 * k - 20))
            && r.out.creditHw == CreditHw(Records(file, k))
            && r.offset == (if k == n || !GoodCrc(file, 36 * k) then 36 * k else 36 * (k + 1))
            && (r.ok ==> r.out == Summary(Records(file, n)) && r.offset == RECORD * n)
  {
    hide GoodCrc, LegalEntries, Replay, U64At, CreditHw;
    NothingSummed();
    assert LegalRecords(file, 0) by { NoRecords(file); }
    k := ReplayFromLegal(file, 0);
    if k < |file| / RECORD {
      RecordsPrefix(file, k + 1, |file| / RECORD);
    }
  }

  /** Replay passes over k legal records without a word. */
  lemma {:induction false} ReplayReaches(file: seq<byte>, k: nat)
    requires RECORD * k <= |file| && GoodRecords(file, k) && LegalEntries(Records(file, k))
    ensures var es := Records(file, k);
            Replay(file, 0, 0, 0, BLANK) == Replay(file, k, LastBatch(es), LastState(es), Summary(es))
  {
    hide GoodCrc, EntryAt, Replay, Summary, LastBatch, LastState, LegalEntries;
    if k == 0 {
      NothingSummed();
    } else {
      LegalSnoc(Records(file, k - 1), EntryAt(file, RECORD * (k - 1)));
      ReplayReaches(file, k - 1);
      ReplayPasses(file, k - 1, Records(file, k - 1));
    }
  }

  lemma NothingSummed()
    ensures LastBatch([]) == 0 && LastState([]) == 0 && Summary([]) == BLANK
  {
  }

  lemma NoRecords(file: seq<byte>)
    ensures LegalRecords(file, 0)
  {
  }

  /** One record that follows on what came before it. */
  lemma ReplayPasses(file: seq<byte>, k: nat, es: seq<Entry>)
    requires RECORD * (k + 1) <= |file| && GoodCrc(file, RECORD * k) && Follows(es, EntryAt(file, RECORD * k))
    ensures var es' := es + [EntryAt(file, RECORD * k)];
            Replay(file, k, LastBatch(es), LastState(es), Summary(es))
            == Replay(file, k + 1, LastBatch(es'), LastState(es'), Summary(es'))
  {
    hide GoodCrc, EntryAt, Summary, LegalEntries;
    LegalSnoc(es, EntryAt(file, RECORD * k));
  }

  /** Changing any one byte of any record of a legal log stops replay right there: it fails, flags corruption, and has
      summed up exactly the records in front of the damage. */
  lemma RecordByteDetected(file: seq<byte>, n: nat, k: nat, i: nat, b: byte)
    requires RECORD * n <= |file| && GoodRecords(file, n) && LegalEntries(Records(file, n))
    requires k < n && i < RECORD && b != file[RECORD * k + i]
    ensures Replay(file[RECORD * k + i := b], 0, 0, 0, BLANK)
            == Outcome(false, Summary(Records(file, k)).(corrupt := true), RECORD * k)
  {
    hide Checksum, U32At, EntryAt, LegalEntries, Summary;
    var damaged, at := file[RECORD * k + i := b], RECORD * k;
    RecordsPrefix(file, k + 1, n);
    RecordsPrefix(file, k, n);
    assert damaged[..at] == file[..at];
    RecordsLocal(damaged, file, k);
    ReplayReaches(damaged, k);
    RecordDamaged(file, at, i, b);
  }

  lemma RecordDamaged(file: seq<byte>, at: nat, i: nat, b: byte)
    requires at + RECORD <= |file| && GoodCrc(file, at) && i < RECORD && b != file[at + i]
    ensures !GoodCrc(file[at + i := b], at)
  {
    hide Checksum, U32At;
    var damaged := file[at + i := b];
    var r, t := file[at..at + RECORD], damaged[at..at + RECORD];
    assert t == r[i := b];
    RecordSealed(file, at, r);
    RecordSealed(damaged, at, t);
    SealBroken(r, 32, i, b);
  }

  lemma RecordSealed(file: seq<byte>, at: nat, r: seq<byte>)
    requires at + RECORD <= |file| && r == file[at..at + RECORD]
    ensures GoodCrc(file, at) == Sealed(r, 32)
  {
    hide Checksum;
    assert file[at..at + 32] == r[..32];
  }

  lemma {:induction false} RecordsLocal(file: seq<byte>, other: seq<byte>, n: nat)
    requires RECORD * n <= |file| && RECORD * n <= |other| && file[..RECORD * n] == other[..RECORD * n]
    ensures Records(file, n) == Records(other, n) && GoodRecords(file, n) == GoodRecords(other, n)
  {
    hide GoodCrc, EntryAt;
    if n > 0 {
      var at, all := RECORD * (n - 1), RECORD * n;
      assert file[..at] == file[..all][..at] == other[..all][..at] == other[..at];
      RecordsLocal(file, other, n - 1);
      var buf := file[at..all];
      assert buf == file[..all][at..] == other[..all][at..] == other[at..all];
      RecordInBuffer(file, at, buf);
      RecordInBuffer(other, at, buf);
    }
  }

  lemma EntriesLast(es: seq<Entry>)
    requires es != []
    ensures EntriesBytes(es) == EntriesBytes(es[..|es| - 1]) + EntryBytes(es[|es| - 1])
  {
    hide EntryBytes;
  }

  lemma SplitAt(a: seq<byte>, b: seq<byte>, w: seq<byte>)
    requires w == a + b
    ensures w[0..|a|] == a && w[|a|..|w|] == b
  {
  }

  /** A file that starts with m good records and then the bytes of es. */
  lemma {:induction false} RecordsAppend(file: seq<byte>, m: nat, es: seq<Entry>)
    requires RECORD * (m + |es|) <= |file| && GoodRecords(file, m)
    requires file[RECORD * m..RECORD * (m + |es|)] == EntriesBytes(es)
    ensures GoodRecords(file, m + |es|) && Records(file, m + |es|) == Records(file, m) + es
    decreases |es|
  {
    hide EntryBytes, EntriesBytes, GoodCrc, EntryAt;
    if es != [] {
      var n := |es| - 1;
      var w, at, e := file[RECORD * m..RECORD * (m + |es|)], RECORD * (m + n), es[n];
      EntriesLast(es);
      SplitAt(EntriesBytes(es[..n]), EntryBytes(e), w);
      SliceOfSlice(file, RECORD * m, w, 0, RECORD * n);
      SliceOfSlice(file, RECORD * m, w, RECORD * n, |w|);
      RecordsAppend(file, m, es[..n]);
      EntryRoundTrip(file, at, e);
      assert es[..n] + [e] == es;
      assert Records(file, m) + es[..n] + [e] == Records(file, m) + (es[..n] + [e]);
    }
  }

  /** Reopening after any session and after a cut at any length. The log held the records of prior; es are the
      successful appends, legal behind them; fewer than 36 bytes may have been left by failed appends. Replay
      succeeds on what the cut leaves and finds exactly the entries that are whole. */
  lemma SessionReplay(prior: seq<byte>, es: seq<Entry>, data: seq<byte>, cut: nat)
    requires |prior| % RECORD == 0
    requires var m := |prior| / RECORD;
             && GoodRecords(prior, m) && LegalEntries(Records(prior, m) + es)
             && RECORD * (m + |es|) <= |data| < RECORD * (m + |es|) + RECORD
             && data[..RECORD * (m + |es|)] == prior + EntriesBytes(es)
    requires cut <= |data|
    ensures var all := Records(prior, |prior| / RECORD) + es;
            && cut / RECORD <= |all|
            && Replay(data[..cut], 0, 0, 0, BLANK)
                == Outcome(true, Summary(all[..cut / RECORD]), RECORD * (cut / RECORD))
  {
    hide EntriesBytes, Replay, Records, GoodRecords, LegalEntries, Summary;
    var m, n, c := |prior| / RECORD, cut / RECORD, data[..cut];
    var end := RECORD * (m + |es|);
    var all := Records(prior, m) + es;
    assert RECORD * m == |prior|;
    assert data[..RECORD * m] == data[..end][..RECORD * m] == prior == prior[..RECORD * m];
    RecordsLocal(data, prior, m);
    assert data[RECORD * m..end] == data[..end][RECORD * m..] == EntriesBytes(es);
    RecordsAppend(data, m, es);
    assert RECORD * n <= cut && n <= m + |es|;
    RecordsTake(data, n, m + |es|);
    assert c[..RECORD * n] == data[..RECORD * n];
    RecordsLocal(c, data, n);
    LegalPrefix(all, n);
    var k := ReplayExact(c);
    assert |c| / RECORD == n;
  }

  lemma {:induction false} RecordsTake(file: seq<byte>, i: nat, n: nat)
    requires i <= n && RECORD * n <= |file|
    ensures Records(file, n)[..i] == Records(file, i)
    ensures GoodRecords(file, n) ==> GoodRecords(file, i)
    decreases n - i
  {
    hide GoodCrc, EntryAt;
    if i < n {
      RecordsTake(file, i, n - 1);
      assert Records(file, n)[..i] == Records(file, n - 1)[..i];
    } else {
      assert Records(file, n)[..i] == Records(file, n);
    }
  }

  lemma LegalPrefix(es: seq<Entry>, n: nat)
    requires n <= |es| && LegalEntries(es)
    ensures LegalEntries(es[..n])
  {
    hide Follows;
    assert forall i :: 0 <= i < n ==> es[..n][..i] == es[..i] && es[..n][i] == es[i];
  }

  // ---------- the object ----------

  class Commitlog {
    var file: File?
    var offset: nat
    /** The entry the next append writes. */
    var log: Entry
    /** The records that were replayed on open, and the successful appends since then. */
    ghost var prior: seq<byte>
    ghost var entries: seq<Entry>

    /** Below offset lie exactly those; what failed appends left behind is less than one record. */
    ghost predicate Valid()
      reads this, file
    {
      && file != null
      && |prior| % RECORD == 0
      && offset == |prior| + RECORD * |entries|
      && offset <= |file.data| < offset + RECORD
      && file.data[..offset] == prior + EntriesBytes(entries)
    }

    constructor ()
      ensures file == null && offset == 0
    {
      file := null;
      offset := 0;
      log := Entry(0, 0, 0, 0);
      prior, entries := [], [];
    }

    /** A file, if there is one, reaches at least to offset; this holds even after opening has failed. */
    ghost predicate Open()
      reads this, file
    {
      file != null ==> offset <= |file.data|
    }

    /** target is the file that open gave (null: neither creating nor opening worked); out comes in blank. */
    method OpenOrCreate(target: File?, created: bool) returns (ok: bool, out: Reply)
      requires offset == 0
      requires target != null && created ==> target.data == []
      modifies this, target
      ensures Open() && file == target
      ensures ok ==> Valid() && entries == []
      ensures ok ==> offset <= |old(target.data)| && prior == old(target.data)[..offset]
      ensures ok ==> Replay(old(target.data), 0, 0, 0, BLANK) == Outcome(true, out, offset)
      ensures ok && file.refused == old(target.refused) ==> |file.data| == offset
      ensures target != null && target.healthy && (created ==> target.faults == old(target.faults)) ==>
                Replay(old(target.data), 0, 0, 0, BLANK) == Outcome(ok, out, offset)
      ensures !ok && target != null ==> target.data == old(target.data)
      ensures log == old(log)
    {
      hide GoodCrc, EntryAt, Updated, EntriesBytes;
      out := BLANK;
      file := target;
      if file == null {
        return false, out;
      }
      if created {
        var named := file.Sync();
        if named == -1 {
          return false, out;
        }
      }
      var buf := new byte[RECORD];
      var len := file.Fstat();
      if len == -1 {
        return false, out;
      }
      ghost var data := file.data;
      ghost var i := 0;
      var prevBatch: u64, prevState: byte := 0, 0;
      while len - offset >= RECORD
        invariant file == target && file.data == data && file.refused == old(target.refused) && len == |data|
        invariant file.healthy == old(target.healthy)
        invariant offset == RECORD * i <= |data| && !out.corrupt && log == old(log) && buf.Length == RECORD
        invariant Replay(data, i, prevBatch, prevState, out) == Replay(data, 0, 0, 0, BLANK)
        decreases len - offset
      {
        var n := file.Pread(buf, RECORD, offset);
        if n < 0 {
          return false, out.(corrupt := true);
        }
        assert buf[..] == data[offset..offset + RECORD];
        RecordInBuffer(data, offset, buf[..]);
        if !GoodCrc(buf[..], 0) {
          return false, out.(corrupt := true);
        }
        var e := EntryAt(buf[..], 0);
        CorruptKept(out, e);
        offset := offset + RECORD;
        if prevBatch == e.batchNo {
          if prevState > e.state || e.state > PUBLISHED {
            return false, out.(corrupt := true);
          }
          prevState := e.state;
          out := Updated(out, e);
        } else if (prevBatch + 1) % U64_LIMIT == e.batchNo {
          prevState, prevBatch := e.state, e.batchNo;
          if e.state > PUBLISHED {
            return false, out.(corrupt := true);
          }
          out := Updated(out, e);
        } else {
          return false, out.(corrupt := true);
        }
        i := i + 1;
      }
      var r := file.Ftruncate(offset);
      prior, entries := data[..offset], [];
      NoEntries();
      assert file.data[..offset] == prior + [];
      ok := true;
    }

    /** Appends the member log: the whole record if the write is whole, else nothing that replay would see. The record
        is laid over what is behind offset, also when opening had reported corruption. */
    method Append() returns (ok: bool)
      requires Open()
      modifies this, file
      ensures Open() && offset >= old(offset)
      ensures file == old(file) && log == old(log) && prior == old(prior)
      ensures file == null ==> !ok
      ensures old(Valid()) ==> Valid()
      ensures ok ==> file.data == Overwritten(old(file.data), old(offset), EntryBytes(log))
      ensures file != null ==> file.data[..old(offset)] == old(file.data[..offset])
      ensures ok <==> file != null && file.faults == old(file.faults)
      ensures ok ==> entries == old(entries) + [log] && offset == old(offset) + RECORD
      ensures !ok ==> entries == old(entries) && offset == old(offset)
      ensures file != null && old(|file.data|) == old(offset) && file.refused == old(file.refused) ==>
                |file.data| == offset
    {
      hide EntryBytes;
      if file == null {
        return false;
      }
      var w := EntryBytes(log);
      var n := file.Pwrite(w, offset);
      if n == RECORD {
        assert w[..n] == w;
        assert (entries + [log])[..|entries|] == entries;
        entries := entries + [log];
        offset := offset + n;
        return true;
      } else if n == -1 {
        return false;
      } else {
        var r := file.Ftruncate(offset);
        return false;
      }
    }
  }

  lemma NoEntries()
    ensures EntriesBytes([]) == []
  {
  }

  lemma RecordInBuffer(data: seq<byte>, at: nat, buf: seq<byte>)
    requires at + RECORD <= |data| && buf == data[at..at + RECORD]
    ensures GoodCrc(buf, 0) == GoodCrc(data, at) && EntryAt(buf, 0) == EntryAt(data, at)
  {
    hide Checksum;
    SliceOfSlice(data, at, buf, 0, 32);
    assert forall i :: 0 <= i < RECORD ==> buf[i] == data[at + i];
  }

  lemma CorruptKept(out: Reply, e: Entry)
    ensures Updated(out, e).corrupt == out.corrupt
  {
  }
}
