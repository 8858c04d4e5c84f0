/** The wire protocol: a four-byte length in front of every message, and the decoder that is fed in pieces. */
module Message {
  import opened Bytes

  const HEAD: nat := 4
  /** The decoder drops what it has consumed once that is more than this. */
  const COMPACT_AT: nat := 512 * 1024
  const CHUNK: nat := 64 * 1024

  /** An unfinished message and one more chunk. */
  const MOST_UNPARSED: nat := HEAD - 1 + MESSAGE_MAX + CHUNK

  type Text = seq<byte>

  function Encode(msg: Text): Text {
    U32Bytes(|msg| % U32_LIMIT) + msg
  }

  function EncodeAll(msgs: seq<Text>): Text {
    if msgs == [] then [] else EncodeAll(msgs[..|msgs| - 1]) + Encode(msgs[|msgs| - 1])
  }

  // ---------- the reference: one parser over the whole stream ----------

  /** The messages of a stream, the bytes behind the last of them, and whether a bad header stands there. */
  datatype Parsed = Parsed(msgs: seq<Text>, rest: Text, broken: bool)

  predicate BadHead(s: Text) {
    |s| >= HEAD && U32At(s, 0) > MESSAGE_MAX
  }

  predicate WholeMessage(s: Text) {
    |s| >= HEAD && U32At(s, 0) <= MESSAGE_MAX && |s| - HEAD >= U32At(s, 0)
  }

  function FirstMessage(s: Text): Text
    requires WholeMessage(s)
  {
    s[HEAD..HEAD + U32At(s, 0)]
  }

  function Behind(s: Text): (r: Text)
    requires WholeMessage(s)
    ensures |r| < |s|
  {
    s[HEAD + U32At(s, 0)..]
  }

  function Parse(s: Text): Parsed
    decreases |s|
  {
    if BadHead(s) then Parsed([], [], true)
    else if !WholeMessage(s) then Parsed([], s, false)
    else var p := Parse(Behind(s)); Parsed([FirstMessage(s)] + p.msgs, p.rest, p.broken)
  }

  /** The limit of a message, to the byte: one MiB is a message, and a header that announces more breaks the stream. */
  lemma MessageLimit(s: Text)
    requires |s| >= 4
    ensures U32At(s, 0) > 1_048_576 ==> Parse(s).broken && Parse(s).msgs == []
    ensures U32At(s, 0) <= 1_048_576 && |s| == 4 + U32At(s, 0) ==> Parse(s) == Parsed([s[4..]], [], false)
  {
    hide U32At;
    if U32At(s, 0) <= MESSAGE_MAX && |s| == 4 + U32At(s, 0) {
      assert Behind(s) == [] && FirstMessage(s) == s[4..];
      assert Parse([]) == Parsed([], [], false);
    }
  }

  /** What is parsed later comes behind what was parsed before. */
  function Then(before: seq<Text>, p: Parsed): Parsed {
    Parsed(before + p.msgs, p.rest, p.broken)
  }

  /** A prefix of four bytes and a whole message are recognised whatever follows. */
  lemma HeadStable(a: Text, b: Text)
    ensures |a| >= HEAD ==> U32At(a + b, 0) == U32At(a, 0)
    ensures BadHead(a) ==> BadHead(a + b)
    ensures WholeMessage(a) ==>
              !BadHead(a + b) && WholeMessage(a + b) && FirstMessage(a + b) == FirstMessage(a)
              && Behind(a + b) == Behind(a) + b
  {
    if |a| >= HEAD {
      assert (a + b)[0] == a[0] && (a + b)[1] == a[1] && (a + b)[2] == a[2] && (a + b)[3] == a[3];
      if WholeMessage(a) {
        var n := HEAD + U32At(a, 0);
        assert (a + b)[n..] == a[n..] + b;
        assert (a + b)[HEAD..n] == a[HEAD..n];
      }
    }
  }

  /** Chunk independence of the reference: parsing a + b is parsing a, then b behind what a left over;
      after a bad header nothing more is accepted. */
  lemma {:induction false} ParseAppend(a: Text, b: Text)
    ensures var p := Parse(a);
            if p.broken then Parse(a + b) == p
            else Parse(a + b) == Then(p.msgs, Parse(p.rest + b))
    decreases |a|
  {
    hide BadHead, WholeMessage, FirstMessage, Behind;
    HeadStable(a, b);
    var all := Parse(a + b);
    if BadHead(a) {
    } else if !WholeMessage(a) {
      assert [] + all.msgs == all.msgs;
    } else {
      var m, p := FirstMessage(a), Parse(Behind(a));
      ParseAppend(Behind(a), b);
      if !p.broken {
        var q := Parse(p.rest + b);
        assert [m] + (p.msgs + q.msgs) == [m] + p.msgs + q.msgs;
      }
    }
  }

  /** What is left over is an unfinished message: parsing it again finds nothing, and its size is bounded. */
  lemma {:induction false} RestIsUnfinished(s: Text)
    ensures var p := Parse(s);
            && |p.rest| <= HEAD - 1 + MESSAGE_MAX && |p.rest| <= |s|
            && (!p.broken ==> Parse(p.rest) == Parsed([], p.rest, false))
            && (p.broken ==> p.rest == [])
    decreases |s|
  {
    hide FirstMessage, Behind;
    if !BadHead(s) && WholeMessage(s) {
      RestIsUnfinished(Behind(s));
    }
  }

  // ---------- round trip with the encoder ----------

  /** Encoding what was parsed gives the stream back: the messages and the rest behind them are all of it, and where a
      stream is broken they end right in front of the bad header. */
  lemma {:induction false} EncodedBack(s: Text)
    ensures var p := Parse(s);
            var done := EncodeAll(p.msgs);
            && done <= s
            && (!p.broken ==> done + p.rest == s)
            && (p.broken ==> BadHead(s[|done|..]))
    decreases |s|
  {
    hide Encode, BadHead, WholeMessage, FirstMessage, Behind;
    if BadHead(s) {
      assert s[0..] == s;
    } else if WholeMessage(s) {
      var m, behind := FirstMessage(s), Behind(s);
      var p := Parse(behind);
      var done := EncodeAll(p.msgs);
      EncodedBack(behind);
      FirstEncodedBack(s);
      EncodeAllAppend([m], p.msgs);
      EncodeAllOne(m);
      assert Encode(m) + done + p.rest == Encode(m) + (done + p.rest);
      assert s[|Encode(m) + done|..] == behind[|done|..];
    } else {
      assert [] + s == s;
    }
  }

  lemma FirstEncodedBack(s: Text)
    requires WholeMessage(s)
    ensures Encode(FirstMessage(s)) + Behind(s) == s
  {
    hide U32Bytes, U32At;
    var n: nat := U32At(s, 0);
    assert n % U32_LIMIT == n;
    LengthBack(s);
    ThreeParts(s, HEAD, HEAD + n);
    assert Encode(FirstMessage(s)) == s[..HEAD] + s[HEAD..HEAD + n];
  }

  lemma LengthBack(s: Text)
    requires |s| >= HEAD
    ensures U32Bytes(U32At(s, 0)) == s[..HEAD]
  {
    hide U32Bytes, U32At;
    var w := U32Bytes(U32At(s, 0));
    assert w[0..4] == w;
    U32RoundTrip(w, 0, U32At(s, 0));
    U32Injective(s, 0, w, 0);
  }

  lemma ThreeParts(s: Text, i: nat, j: nat)
    requires i <= j <= |s|
    ensures s == s[..i] + s[i..j] + s[j..]
  {
  }

  lemma EncodeAllOne(m: Text)
    ensures EncodeAll([m]) == Encode(m)
  {
    hide Encode;
    assert EncodeAll([]) + Encode(m) == Encode(m);
  }

  lemma EncodeFirst(msg: Text, tail: Text)
    requires |msg| <= MESSAGE_MAX
    ensures var s := Encode(msg) + tail;
            !BadHead(s) && WholeMessage(s) && FirstMessage(s) == msg && Behind(s) == tail
  {
    hide U32Bytes;
    var s := Encode(msg) + tail;
    var h := U32Bytes(|msg|);
    assert |msg| % U32_LIMIT == |msg|;
    assert s[0..4] == h;
    U32RoundTrip(s, 0, |msg|);
    assert s[HEAD..HEAD + |msg|] == msg;
    assert s[HEAD + |msg|..] == tail;
  }

  /** Every sequence of messages of at most 1 MiB that is encoded, concatenated and followed by the beginning of
      another message is parsed back, with nothing added and nothing broken. */
  lemma {:induction false} ParseEncoded(msgs: seq<Text>, tail: Text)
    requires forall m :: m in msgs ==> |m| <= MESSAGE_MAX
    ensures Parse(EncodeAll(msgs) + tail) == Then(msgs, Parse(tail))
    decreases |msgs|
  {
    hide Encode, BadHead, WholeMessage, FirstMessage, Behind;
    var p := Parse(tail);
    if msgs == [] {
      assert EncodeAll(msgs) + tail == tail;
      assert msgs + p.msgs == p.msgs;
    } else {
      var init, last := msgs[..|msgs| - 1], msgs[|msgs| - 1];
      assert EncodeAll(msgs) + tail == EncodeAll(init) + (Encode(last) + tail);
      ParseEncoded(init, Encode(last) + tail);
      EncodeFirst(last, tail);
      assert init + ([last] + p.msgs) == msgs + p.msgs;
    }
  }

  lemma {:induction false} EncodeAllAppend(a: seq<Text>, b: seq<Text>)
    ensures EncodeAll(a + b) == EncodeAll(a) + EncodeAll(b)
    decreases |b|
  {
    hide Encode;
    if b == [] {
      assert a + b == a;
      assert EncodeAll(a) + [] == EncodeAll(a);
    } else {
      var init, last := b[..|b| - 1], b[|b| - 1];
      assert (a + b)[..|a + b| - 1] == a + init;
      EncodeAllAppend(a, init);
    }
  }

  /** The beginning of an encoded message parses to nothing and is not bad. */
  lemma UnfinishedMessage(msg: Text, n: nat)
    requires |msg| <= MESSAGE_MAX && n < HEAD + |msg|
    ensures Parse(Encode(msg)[..n]) == Parsed([], Encode(msg)[..n], false)
  {
    var s := Encode(msg);
    EncodeFirst(msg, []);
    assert s + [] == s;
    if n >= HEAD {
      assert s[..n][0] == s[0] && s[..n][1] == s[1] && s[..n][2] == s[2] && s[..n][3] == s[3];
      assert U32At(s[..n], 0) == U32At(s, 0);
      assert U32At(s, 0) == |msg| by { EncodedLength(msg); }
    }
  }

  lemma EncodedLength(msg: Text)
    requires |msg| <= MESSAGE_MAX
    ensures U32At(Encode(msg), 0) == |msg|
  {
    hide U32Bytes;
    assert |msg| % U32_LIMIT == |msg|;
    assert Encode(msg)[0..4] == U32Bytes(|msg|);
    U32RoundTrip(Encode(msg), 0, |msg|);
  }

  /** Any prefix of an encoded stream parses to a prefix of the messages and is never broken. */
  lemma {:induction false} ParseOfPrefix(msgs: seq<Text>, n: nat)
    requires forall m :: m in msgs ==> |m| <= MESSAGE_MAX
    requires n <= |EncodeAll(msgs)|
    ensures var p := Parse(EncodeAll(msgs)[..n]);
            !p.broken && p.msgs <= msgs && (n == |EncodeAll(msgs)| ==> p.msgs == msgs)
    decreases |msgs|
  {
    hide Encode, Parse, EncodeAll;
    if msgs == [] {
      NothingEncoded();
      EmptyParse();
    } else {
      var init, last := msgs[..|msgs| - 1], msgs[|msgs| - 1];
      assert msgs == init + [last];
      LastEncoded(init, last);
      if n <= |EncodeAll(init)| {
        PrefixOfFirst(EncodeAll(init), Encode(last), n);
        ParseOfPrefix(init, n);
      } else {
        PrefixOfSecond(EncodeAll(init), Encode(last), n);
        PrefixInLast(init, last, n - |EncodeAll(init)|);
      }
    }
  }

  lemma NothingEncoded()
    ensures EncodeAll([]) == []
  {
  }

  lemma LastEncoded(init: seq<Text>, last: Text)
    ensures EncodeAll(init + [last]) == EncodeAll(init) + Encode(last) && |Encode(last)| > 0
  {
    hide U32Bytes;
    assert (init + [last])[..|init|] == init;
  }

  lemma PrefixOfFirst(a: Text, b: Text, n: nat)
    requires n <= |a|
    ensures (a + b)[..n] == a[..n]
  {
  }

  lemma PrefixOfSecond(a: Text, b: Text, n: nat)
    requires |a| <= n <= |a| + |b|
    ensures (a + b)[..n] == a + b[..n - |a|]
  {
  }

  lemma PrefixInLast(init: seq<Text>, last: Text, n: nat)
    requires |last| <= MESSAGE_MAX && n <= |Encode(last)| && forall m :: m in init ==> |m| <= MESSAGE_MAX
    ensures var p := Parse(EncodeAll(init) + Encode(last)[..n]);
            !p.broken && p.msgs == if n < |Encode(last)| then init else init + [last]
  {
    hide Encode, Parse, EncodeAll;
    ParseEncoded(init, Encode(last)[..n]);
    PrefixOfMessage(last, n);
    assert init + [] == init;
  }

  lemma PrefixOfMessage(msg: Text, n: nat)
    requires |msg| <= MESSAGE_MAX && n <= |Encode(msg)|
    ensures var p := Parse(Encode(msg)[..n]);
            !p.broken && p.msgs == if n < |Encode(msg)| then [] else [msg]
  {
    hide Encode;
    EncodeSize(msg);
    if n < |Encode(msg)| {
      UnfinishedMessage(msg, n);
    } else {
      assert Encode(msg)[..n] == Encode(msg) == Encode(msg) + [];
      EncodeFirst(msg, []);
      EmptyParse();
    }
  }

  lemma EncodeSize(msg: Text)
    ensures |Encode(msg)| == HEAD + |msg|
  {
  }

  lemma EmptyParse()
    ensures Parse([]) == Parsed([], [], false)
  {
  }

  // ---------- the decoder ----------

  class MessageDecode {
    var inputbuf: seq<byte>
    var msg: seq<Text>
    var error: bool
    var idx: nat
    /** All bytes ever fed and all messages ever taken. */
    ghost var fed: Text
    ghost var taken: seq<Text>
    /** Bytes given up by compaction, bytes it moved, and whether every chunk so far fitted the receive buffer. */
    ghost var dropped: nat
    ghost var moved: nat
    ghost var smallChunks: bool

    /** The decoder is where the reference parser is on everything that was ever fed. */
    ghost predicate Valid()
      reads this
    {
      && Parsed(taken + msg, if error then [] else inputbuf[Clip()..], error) == Parse(fed)
      && idx <= |inputbuf| && idx <= COMPACT_AT
      && (error ==> inputbuf == [])
      && dropped + |inputbuf| <= |fed|
      && (smallChunks ==> (COMPACT_AT + 1) * moved <= MOST_UNPARSED * dropped)
    }

    ghost function Clip(): nat
      reads this
      ensures Clip() <= |inputbuf|
    {
      if idx <= |inputbuf| then idx else |inputbuf|
    }

    constructor ()
      ensures Valid() && fed == [] && taken == [] && smallChunks && !error
    {
      inputbuf, msg, error, idx := [], [], false, 0;
      fed, taken, dropped, moved, smallChunks := [], [], 0, 0, true;
    }

    /** Buffer bounds after every call, whatever was fed. */
    lemma Bounds()
      requires Valid()
      ensures idx <= 524_288 && |inputbuf| <= 1_572_867
    {
      hide Parse;
      RestIsUnfinished(fed);
    }

    /** Over any run of chunks of at most 64 KiB compaction moves less than three bytes for each byte fed. */
    lemma CompactionIsCheap()
      requires Valid() && smallChunks && fed != []
      ensures moved < 3 * |fed|
    {
      hide Parse;
    }

    method Compact()
      requires idx <= |inputbuf|
      modifies this`inputbuf, this`idx, this`dropped, this`moved
      ensures idx == 0 && inputbuf == old(inputbuf)[old(idx)..]
      ensures dropped == old(dropped) + old(idx) && moved == old(moved) + |inputbuf|
    {
      var temp := inputbuf[idx..];
      inputbuf := temp;
      dropped, moved := dropped + idx, moved + |temp|;
      idx := 0;
    }

    /** The loop of feed: takes whole messages off the buffer until a part of one is left or a bad header shows. */
    method ParseBuffered()
      requires !error && idx <= |inputbuf| && idx <= COMPACT_AT
      modifies this`inputbuf, this`msg, this`error, this`idx, this`dropped, this`moved
      ensures Parsed(msg, if error then [] else inputbuf[Clip()..], error)
          == Then(old(msg), Parse(old(inputbuf[idx..])))
      ensures idx <= |inputbuf| && idx <= COMPACT_AT && (error ==> inputbuf == [])
      ensures old(dropped) <= dropped && dropped + |inputbuf| <= old(dropped + |inputbuf|)
      ensures old(|inputbuf| - idx) <= MOST_UNPARSED ==>
                (COMPACT_AT + 1) * (moved - old(moved)) <= MOST_UNPARSED * (dropped - old(dropped))
    {
      hide Parse, BadHead, WholeMessage, FirstMessage, Behind, Then, U32At;
      ghost var stream, small := inputbuf[idx..], |inputbuf| - idx <= MOST_UNPARSED;
      while true
        invariant idx <= |inputbuf| && !error && |inputbuf| - idx <= |stream|
        invariant Then(msg, Parse(inputbuf[idx..])) == Then(old(msg), Parse(stream))
        invariant old(dropped) <= dropped && dropped + |inputbuf| <= old(dropped + |inputbuf|)
        invariant small ==> (COMPACT_AT + 1) * (moved - old(moved)) <= MOST_UNPARSED * (dropped - old(dropped))
        decreases |inputbuf| - idx
      {
        ghost var here := inputbuf[idx..];
        if idx > COMPACT_AT {
          Compact();
          assert inputbuf[0..] == here;
        }
        BufferTurn(inputbuf, idx, msg);
        if |inputbuf| - idx < HEAD {
          return;
        }
        var len := U32At(inputbuf[idx..idx + HEAD], 0);
        if len > MESSAGE_MAX {
          error := true;
          inputbuf := [];
          idx := 0;
          return;
        }
        if |inputbuf| - idx - HEAD < len {
          return;
        }
        idx := idx + HEAD;
        var ans := inputbuf[idx..idx + len];
        msg := msg + [ans];
        idx := idx + len;
      }
    }

    method Feed(data: seq<byte>)
      requires Valid()
      modifies this`inputbuf, this`msg, this`error, this`idx, this`fed, this`dropped, this`moved, this`smallChunks
      ensures Valid()
      ensures fed == old(fed) + data && taken == old(taken)
      ensures old(error) ==> error && msg == old(msg)
      ensures smallChunks == (old(smallChunks) && |data| <= CHUNK)
    {
      hide Parse;
      ghost var rest := Parse(fed).rest;
      ParseAppend(fed, data);
      RestIsUnfinished(fed);
      fed := fed + data;
      smallChunks := smallChunks && |data| <= CHUNK;
      if error {
        return;
      }
      inputbuf := inputbuf + data;
      assert inputbuf[idx..] == rest + data;
      ParseBuffered();
      ghost var p := Parse(rest + data);
      assert taken + (old(msg) + p.msgs) == taken + old(msg) + p.msgs;
    }

    /** The broken flag is that of the reference parser on everything fed. */
    lemma ErrorMeansBroken()
      requires Valid()
      ensures error == Parse(fed).broken
    {
      hide Parse;
    }

    method Take() returns (ans: seq<Text>)
      requires Valid()
      modifies this`msg, this`taken
      ensures Valid()
      ensures ans == old(msg) && msg == [] && taken == old(taken) + ans
    {
      hide Parse;
      ans := msg;
      taken := taken + msg;
      msg := [];
      assert taken + msg == old(taken + msg);
    }

    method BrokenMessage() returns (b: bool)
      ensures b == error
    {
      b := error;
    }
  }

  lemma HeadInBuffer(buf: seq<byte>, idx: nat)
    requires idx + HEAD <= |buf|
    ensures U32At(buf[idx..idx + HEAD], 0) == U32At(buf[idx..], 0)
    ensures BadHead(buf[idx..]) <==> U32At(buf[idx..], 0) > MESSAGE_MAX
    ensures WholeMessage(buf[idx..])
        <==> U32At(buf[idx..], 0) <= MESSAGE_MAX && |buf| - idx - HEAD >= U32At(buf[idx..], 0)
    ensures WholeMessage(buf[idx..]) ==>
              var n := idx + HEAD + U32At(buf[idx..], 0);
              FirstMessage(buf[idx..]) == buf[idx + HEAD..n] && Behind(buf[idx..]) == buf[n..]
  {
  }

  /** One turn of the loop is one turn of the reference parser. */
  lemma BufferTurn(buf: seq<byte>, idx: nat, got: seq<Text>)
    requires idx <= |buf|
    ensures var all, n := Then(got, Parse(buf[idx..])), |buf| - idx;
            if n < HEAD then all == Parsed(got, buf[idx..], false)
            else
              var len := U32At(buf[idx..idx + HEAD], 0);
              if len > MESSAGE_MAX then all == Parsed(got, [], true)
              else if n - HEAD < len then all == Parsed(got, buf[idx..], false)
              else all == Then(got + [buf[idx + HEAD..idx + HEAD + len]], Parse(buf[idx + HEAD + len..]))
  {
    hide Parse, BadHead, WholeMessage, FirstMessage, Behind, Then, U32At;
    ParseOnce(buf[idx..], got);
    if |buf| - idx >= HEAD {
      HeadInBuffer(buf, idx);
    }
  }

  /** One turn of the reference parser, behind the messages found so far. */
  lemma ParseOnce(here: Text, got: seq<Text>)
    ensures BadHead(here) ==> Then(got, Parse(here)) == Parsed(got, [], true)
    ensures |here| < HEAD ==> !BadHead(here) && !WholeMessage(here)
    ensures !BadHead(here) && !WholeMessage(here) ==> Then(got, Parse(here)) == Parsed(got, here, false)
    ensures !BadHead(here) && WholeMessage(here) ==>
              Then(got, Parse(here)) == Then(got + [FirstMessage(here)], Parse(Behind(here)))
  {
    hide FirstMessage, Behind;
    if !BadHead(here) {
      if WholeMessage(here) {
        var p := Parse(Behind(here));
        assert got + ([FirstMessage(here)] + p.msgs) == got + [FirstMessage(here)] + p.msgs;
      } else {
        assert got + [] == got;
      }
    } else {
      assert got + [] == got;
    }
  }
}
