/** One client connection of the server: direct sends, the output buffer, half-close, and the epoll interest. */
module NetConnection {
  import opened Bytes
  import opened Message
  import opened ThreadPool

  datatype Events = Events(readable: bool, writable: bool)
  datatype Errno = Again | Intr | Other

  /** A connection as a value. pending is what the output buffer still holds; wire, received, submitted and accepted
      record everything that was sent, received, handed to the pool and accepted for sending. */
  datatype Conn = Conn(
    fd: int, id: nat, received: Text, submitted: seq<Text>, accepted: seq<Text>,
    peerClose: bool, inflight: int, pending: Text, wire: Text, interest: Events)

  // ---------- what the handlers may do ----------

  /** Nothing can happen any more on this connection. */
  predicate Finished(c: Conn) {
    c.peerClose && c.inflight == 0 && c.pending == []
  }

  /** Write interest is armed exactly while there is something to write. Read interest is armed until the end of input
      is met, and then not while there is nothing to write. */
  predicate Armed(c: Conn) {
    && (c.interest.writable <==> c.pending != [])
    && (!c.peerClose ==> c.interest.readable)
    && (c.peerClose && c.pending == [] ==> !c.interest.readable)
  }

  /** Armed, and a finished connection is not kept. */
  predicate Tidy(c: Conn) {
    Armed(c) && !Finished(c)
  }

  /** wire and pending together are the encoded responses in the order in which they were accepted. */
  predicate InOrder(c: Conn) {
    c.wire + c.pending == EncodeAll(c.accepted)
  }

  /** senddata(resp): c becomes c'. */
  predicate SendSpec(c: Conn, resp: Text, c': Conn, ok: bool) {
    && c' == c.(wire := c'.wire, pending := c'.pending, interest := c'.interest,
                accepted := if ok then c.accepted + [resp] else c.accepted)
    && c.wire <= c'.wire
    && (ok ==>
          && c'.wire + c'.pending == c.wire + c.pending + Encode(resp)
          && (c.pending != [] ==> c'.wire == c.wire)
          && c'.interest == if c'.pending == [] then c.interest else Events(true, true))
    && (!ok ==> c.pending == [] && c' == c)
  }

  /** The kernel took the first n bytes of the encoded response and the rest was queued. */
  lemma SentDirectly(c: Conn, resp: Text, n: nat, interest: Events)
    requires c.pending == [] && n <= |Encode(resp)|
    requires interest == if n == |Encode(resp)| then c.interest else Events(true, true)
    ensures SendSpec(c, resp, c.(wire := c.wire + Encode(resp)[..n], pending := Encode(resp)[n..], interest := interest,
                                 accepted := c.accepted + [resp]), true)
  {
    hide Encode;
    var data := Encode(resp);
    assert c.wire + data[..n] + data[n..] == c.wire + [] + data;
  }

  lemma NotSent(c: Conn, resp: Text)
    requires c.pending == []
    ensures SendSpec(c, resp, c, false)
  {
  }

  lemma SentQueued(c: Conn, resp: Text)
    ensures SendSpec(c, resp, c.(pending := c.pending + Encode(resp), interest := Events(true, true),
                                 accepted := c.accepted + [resp]), true)
  {
    hide Encode;
    EncodeNotEmpty(resp);
    assert c.wire + (c.pending + Encode(resp)) == c.wire + c.pending + Encode(resp);
  }

  /** handwrite(): c becomes c'. */
  predicate WriteSpec(c: Conn, c': Conn, ok: bool) {
    && c' == c.(wire := c'.wire, pending := c'.pending, interest := c'.interest)
    && c.wire <= c'.wire && c'.wire + c'.pending == c.wire + c.pending
    && (ok ==> !Finished(c'))
    && (ok ==> c'.interest ==
                 if c.pending == [] || c'.pending != [] then c.interest
                 else Events(!c.peerClose, false))
    && (!ok ==> Finished(c') || c'.pending != [])
  }

  /** The end of input: the connection is kept with what interest it still needs, or it is finished. */
  function AfterEof(c: Conn): Conn {
    c.(peerClose := true, interest := Events(false, c.pending != []))
  }

  /** How the read loop ends: the socket is dry for now, the peer has sent everything, a message header is bad, or
      receiving failed. */
  datatype Ending = Dry | EndOfInput | BadHeader | Failed

  /** Everything up to read was received and its messages submitted. */
  function AfterRead(c: Conn, read: Text): Conn {
    var msgs := Parse(read).msgs;
    c.(received := read, submitted := msgs, inflight := c.inflight + |msgs| - |c.submitted|)
  }

  lemma NothingRead(c: Conn)
    requires Parse(c.received).msgs == c.submitted
    ensures AfterRead(c, c.received) == c
  {
  }

  function ReadOutcome(c: Conn, read: Text, ending: Ending): Conn {
    if ending.EndOfInput? then AfterEof(AfterRead(c, read)) else AfterRead(c, read)
  }

  /** Only these connections are kept: the others are broken, failed or finished. */
  predicate ReadKeeps(c: Conn, read: Text, ending: Ending) {
    ending.Dry? || (ending.EndOfInput? && !Finished(ReadOutcome(c, read, ending)))
  }

  lemma EncodeNotEmpty(resp: Text)
    ensures Encode(resp) != []
  {
  }

  lemma EncodeAllSnoc(msgs: seq<Text>, m: Text)
    ensures EncodeAll(msgs + [m]) == EncodeAll(msgs) + Encode(m)
  {
    hide Encode;
    assert (msgs + [m])[..|msgs|] == msgs;
  }

  /** Single writer: whatever the kernel takes, senddata keeps the order of the stream and, unless the connection
      is finished by it, leaves it tidy. */
  lemma SendKeeps(c: Conn, resp: Text, c': Conn, ok: bool)
    requires SendSpec(c, resp, c', ok) && InOrder(c)
    ensures InOrder(c')
    ensures ok && Armed(c) ==> (Tidy(c') <==> !Finished(c'))
  {
    hide Encode, EncodeAll;
    EncodeAllSnoc(c.accepted, resp);
    EncodeNotEmpty(resp);
  }

  lemma WriteKeeps(c: Conn, c': Conn, ok: bool)
    requires WriteSpec(c, c', ok) && InOrder(c) && Tidy(c)
    ensures InOrder(c')
    ensures ok ==> Tidy(c')
    ensures !ok && Finished(c') ==> c'.wire == EncodeAll(c.accepted)
  {
    hide EncodeAll;
    if c.pending == [] {
      assert |c'.wire| >= |c.wire| && |c'.wire + c'.pending| == |c.wire|;
    }
    if c'.pending == [] {
      assert c'.wire + [] == c'.wire;
    }
  }

  lemma EofKeeps(c: Conn)
    requires InOrder(c)
    ensures InOrder(AfterEof(c)) && (Tidy(AfterEof(c)) <==> !Finished(AfterEof(c)))
  {
  }

  /** What a client reads: as long as every response fits in a message, its decoder never breaks and yields a prefix
      of the responses in the order in which they were accepted, all of them once nothing is pending. */
  lemma ClientReads(c: Conn)
    requires InOrder(c) && forall r :: r in c.accepted ==> |r| <= MESSAGE_MAX
    ensures var p := Parse(c.wire);
            !p.broken && p.msgs <= c.accepted && (c.pending == [] ==> p.msgs == c.accepted)
  {
    hide EncodeAll, Parse;
    assert c.wire == EncodeAll(c.accepted)[..|c.wire|];
    ParseOfPrefix(c.accepted, |c.wire|);
  }

  /** The kernel took the first n of the bytes that were to be sent. */
  lemma PartTaken(wire: Text, rest: Text, n: nat)
    requires n <= |rest|
    ensures wire <= wire + rest[..n] && (wire + rest[..n]) + rest[n..] == wire + rest
    ensures n == |rest| ==> wire + rest[..n] + [] == wire + rest
  {
  }

  // ---------- the kernel's side of the connection ----------

  class Socket {
    /** Bytes the kernel has taken for sending, and bytes it has handed out. */
    var wire: seq<byte>
    var received: seq<byte>
    var interest: Events
    /** Bytes that arrive before the socket runs dry, and calls a signal interrupts; any finite numbers. */
    var supply: nat
    var interrupts: nat
    /** How many calls found the socket not ready or were interrupted, how many failed for another reason, and how often
        the end of input was met. */
    var refusals: nat
    var failures: nat
    var ends: nat

    constructor (supply: nat, interrupts: nat)
      ensures wire == [] && received == [] && interest == Events(true, false) && ends == 0
    {
      wire, received, interest := [], [], Events(true, false);
      refusals, failures, ends := 0, 0, 0;
      this.supply, this.interrupts := supply, interrupts;
    }

    /** send: takes a nonempty part of data, or fails. */
    method Send(data: seq<byte>) returns (n: int, errno: Errno)
      requires data != []
      modifies this`wire, this`interrupts, this`refusals, this`failures
      ensures n == -1 || 1 <= n <= |data|
      ensures n == -1 ==> wire == old(wire)
      ensures n != -1 ==> wire == old(wire) + data[..n]
      ensures if n == -1 && errno == Intr then interrupts < old(interrupts) else interrupts == old(interrupts)
      ensures refusals == if n == -1 && errno != Other then old(refusals) + 1 else old(refusals)
      ensures failures == if n == -1 && errno == Other then old(failures) + 1 else old(failures)
    {
      n :| -1 <= n <= |data| && n != 0;
      errno := *;
      if n != -1 {
        wire := wire + data[..n];
      } else if errno == Intr {
        if interrupts == 0 {
          errno := Again;
        } else {
          interrupts := interrupts - 1;
        }
      }
      if n == -1 {
        CountError(errno);
      }
    }

    method CountError(errno: Errno)
      modifies this`refusals, this`failures
      ensures refusals == if errno != Other then old(refusals) + 1 else old(refusals)
      ensures failures == if errno == Other then old(failures) + 1 else old(failures)
    {
      if errno == Other {
        failures := failures + 1;
      } else {
        refusals := refusals + 1;
      }
    }

    /** recv: up to 64 KiB, 0 at the end of input, or -1. */
    method Recv() returns (n: int, chunk: seq<byte>, errno: Errno)
      modifies this`received, this`supply, this`refusals, this`failures, this`ends
      ensures n == -1 || n == |chunk| <= CHUNK
      ensures n == -1 ==> chunk == []
      ensures received == old(received) + chunk && |chunk| + supply == old(supply)
      ensures refusals == if n == -1 && errno != Other then old(refusals) + 1 else old(refusals)
      ensures failures == if n == -1 && errno == Other then old(failures) + 1 else old(failures)
      ensures ends == if n == 0 then old(ends) + 1 else old(ends)
    {
      chunk := *;
      if |chunk| > supply {
        chunk := chunk[..supply];
      }
      if |chunk| > CHUNK {
        chunk := chunk[..CHUNK];
      }
      n, errno := |chunk|, *;
      if n == 0 {
        var failed: bool := *;
        if failed {
          n := -1;
          CountError(errno);
        } else {
          ends := ends + 1;
        }
      }
      received, supply := received + chunk, supply - |chunk|;
    }
  }

  // ---------- the connection object ----------

  class Connection {
    const fd: int
    const connId: nat
    var outbuffer: seq<byte>
    var idx: nat
    const decoder: MessageDecode
    var peerClose: bool
    var inflight: int
    var closed: bool
    const pool: ThreadPool
    const socket: Socket
    ghost var submitted: seq<Text>
    ghost var accepted: seq<Text>

    /** The end of input is remembered. */
    ghost predicate Valid()
      reads this, decoder, socket
    {
      Sound() && (peerClose <==> socket.ends > 0)
    }

    ghost predicate Sound()
      reads this, decoder, socket
    {
      && idx <= |outbuffer| && (outbuffer != [] ==> idx < |outbuffer|)
      && decoder.Valid() && decoder.fed == socket.received && decoder.taken == submitted && decoder.msg == []
    }

    ghost function Pending(): Text
      reads this
    {
      if idx <= |outbuffer| then outbuffer[idx..] else []
    }

    /** The object as a value. */
    ghost function View(): Conn
      reads this, socket
    {
      Conn(fd, connId, socket.received, submitted, accepted, peerClose, inflight, Pending(), socket.wire,
          socket.interest)
    }

    constructor (fd: int, connId: nat, pool: ThreadPool, socket: Socket)
      requires socket.wire == [] && socket.received == [] && socket.interest == Events(true, false) && socket.ends == 0
      ensures Valid() && this.fd == fd && this.connId == connId && this.pool == pool && this.socket == socket
      ensures fresh(decoder) && !decoder.error
      ensures View() == Conn(fd, connId, [], [], [], false, 0, [], [], Events(true, false))
    {
      this.fd, this.connId, this.pool, this.socket := fd, connId, pool, socket;
      outbuffer, idx, peerClose, inflight, closed := [], 0, false, 0, false;
      submitted, accepted := [], [];
      var d := new MessageDecode();
      decoder := d;
    }

    method SetEvent(events: Events)
      modifies socket`interest
      ensures socket.interest == events
    {
      socket.interest := events;
    }

    /** Appends to the output buffer and arms write interest. */
    method Enqueue(data: seq<byte>, ghost accept: Text)
      requires idx <= |outbuffer| && data != [] && (outbuffer == [] ==> idx == 0)
      modifies this`outbuffer, this`accepted, socket`interest
      ensures outbuffer != [] && idx < |outbuffer| && Pending() == old(Pending()) + data && Pending() != []
      ensures accepted == old(accepted) + [accept] && socket.interest == Events(true, true)
    {
      assert (outbuffer + data)[idx..] == outbuffer[idx..] + data;
      outbuffer := outbuffer + data;
      SetEvent(Events(true, true));
      accepted := accepted + [accept];
    }

    /** Queues or sends one response. An interrupted send is tried again; only an error of another kind is a
        failure, and nothing is queued behind an empty buffer unless the kernel took part of it or was not ready. */
    method SendData(accept: Text) returns (ok: bool)
      requires Valid()
      modifies this`outbuffer, this`closed, this`accepted, socket
      ensures Valid()
      ensures SendSpec(old(View()), accept, View(), ok)
      ensures socket.failures == if ok then old(socket.failures) else old(socket.failures) + 1
      ensures socket.refusals >= old(socket.refusals)
      ensures ok && old(Pending()) == [] && socket.wire == old(socket.wire) ==> socket.refusals > old(socket.refusals)
      decreases socket.interrupts
    {
      hide Encode, Parse, MessageDecode.Valid, SendSpec;
      var data := Encode(accept);
      EncodeNotEmpty(accept);
      ghost var c := View();
      if outbuffer != [] {
        SentQueued(c, accept);
        Enqueue(data, accept);
        return true;
      }
      var achieve, errno := socket.Send(data);
      if achieve == |data| {
        SentDirectly(c, accept, |data|, c.interest);
        assert data[..achieve] == data && data[achieve..] == [];
        accepted := accepted + [accept];
        return true;
      }
      if achieve == -1 {
        if errno == Again {
          SentQueued(c, accept);
          Enqueue(data, accept);
          return true;
        }
        if errno == Intr {
          ok := SendData(accept);
          return;
        }
        closed := true;
        NotSent(c, accept);
        return false;
      }
      SentDirectly(c, accept, achieve, Events(true, true));
      Enqueue(data[achieve..], accept);
      assert [] + data[achieve..] == data[achieve..];
      return true;
    }

    /** The branch of handwrite behind the last byte: the buffer is empty, and the connection is done or no longer needs
        to be writable. */
    method AllWritten() returns (ok: bool)
      requires Sound()
      modifies this`outbuffer, this`idx, socket`interest
      ensures outbuffer == [] && idx == 0
      ensures ok <==> !(peerClose && inflight == 0)
      ensures socket.interest == if ok then Events(!peerClose, false) else old(socket.interest)
    {
      idx := 0;
      outbuffer := [];
      if peerClose && inflight == 0 {
        return false;
      }
      if peerClose {
        SetEvent(Events(false, false));
        return true;
      }
      SetEvent(Events(true, false));
      return true;
    }

    /** Writes what is pending until it is gone or the kernel takes no more. The connection is to be closed exactly when
        sending failed or everything is done. */
    method HandWrite() returns (ok: bool)
      requires Valid()
      modifies this`outbuffer, this`idx, socket
      ensures Valid()
      ensures WriteSpec(old(View()), View(), ok)
      ensures socket.failures >= old(socket.failures)
      ensures ok <==> socket.failures == old(socket.failures) && !Finished(View())
      ensures ok ==> Pending() == [] || socket.refusals > old(socket.refusals)
    {
      hide MessageDecode.Valid, Parse, EncodeAll, Encode;
      if outbuffer == [] {
        return !(peerClose && inflight == 0);
      }
      while true
        invariant outbuffer == old(outbuffer) && idx < |outbuffer| && Valid()
        invariant old(socket.wire) <= socket.wire
        invariant socket.wire + outbuffer[idx..] == old(socket.wire + outbuffer[idx..])
        invariant socket.interest == old(socket.interest)
        invariant socket.failures == old(socket.failures) && socket.refusals == old(socket.refusals)
        invariant socket.received == old(socket.received)
        decreases |outbuffer| - idx
      {
        ghost var rest, sent := outbuffer[idx..], socket.wire;
        var n, errno := socket.Send(outbuffer[idx..]);
        if n != -1 {
          PartTaken(sent, rest, n);
        }
        if n == |outbuffer| - idx {
          ok := AllWritten();
          return;
        } else if n == -1 {
          return errno == Again || errno == Intr;
        } else {
          assert outbuffer[idx + n..] == rest[n..];
          idx := idx + n;
        }
      }
    }

    /** The loop over the decoded messages: each is counted and handed to the pool. */
    method SubmitAll(msgs: seq<Text>)
      modifies this`inflight, this`submitted, pool`tasks
      ensures inflight == old(inflight) + |msgs| && submitted == old(submitted) + msgs
      ensures pool.tasks == old(pool.tasks) + (if pool.stopping then [] else TasksOf(fd, connId, msgs))
    {
      ghost var before := submitted;
      var i := 0;
      while i < |msgs|
        invariant i <= |msgs| && inflight == old(inflight) + i && submitted == before + msgs[..i]
        invariant pool.tasks == old(pool.tasks) + (if pool.stopping then [] else TasksOf(fd, connId, msgs[..i]))
      {
        inflight := inflight + 1;
        pool.Submit(Task(fd, connId, msgs[i]));
        TasksSnoc(fd, connId, msgs[..i], msgs[i]);
        assert msgs[..i + 1] == msgs[..i] + [msgs[i]];
        submitted := submitted + [msgs[i]];
        i := i + 1;
      }
      assert msgs[..i] == msgs;
    }

    /** One received chunk: decoded, and unless the stream is broken its whole messages are submitted. */
    method TakeChunk(buf: seq<byte>) returns (broken: bool)
      requires idx <= |outbuffer| && (outbuffer != [] ==> idx < |outbuffer|) && !decoder.error
      requires decoder.Valid() && decoder.fed + buf == socket.received && decoder.taken == submitted
          && decoder.msg == [] && (peerClose <==> socket.ends > 0)
      modifies this`inflight, this`submitted, decoder, pool`tasks
      ensures broken == decoder.error == Parse(socket.received).broken
      ensures decoder.Valid() && decoder.fed == socket.received
      ensures broken ==> submitted == old(submitted) && inflight == old(inflight) && pool.tasks == old(pool.tasks)
      ensures !broken ==> Valid()
      ensures old(submitted) <= submitted && inflight == old(inflight) + |submitted| - |old(submitted)|
      ensures pool.tasks == old(pool.tasks) +
                            (if pool.stopping then [] else TasksOf(fd, connId, submitted[|old(submitted)|..]))
    {
      hide Parse, MessageDecode.Valid;
      NoTasks(fd, connId);
      decoder.Feed(buf);
      broken := decoder.BrokenMessage();
      decoder.ErrorMeansBroken();
      if !broken {
        var msgs := decoder.Take();
        assert (submitted + msgs)[|submitted|..] == msgs;
        SubmitAll(msgs);
      }
    }

    /** At the end of input: nothing is left in the decoder, because every chunk was taken at once. */
    method SubmitRest()
      requires decoder.Valid() && decoder.msg == [] && decoder.taken == submitted && !decoder.error
      modifies this`inflight, this`submitted, decoder`msg, decoder`taken, pool`tasks
      ensures decoder.Valid() && decoder.msg == [] && decoder.taken == submitted
      ensures submitted == old(submitted) && inflight == old(inflight) && pool.tasks == old(pool.tasks)
    {
      hide Parse, MessageDecode.Valid;
      var msgs := decoder.Take();
      NoTasks(fd, connId);
      SubmitAll(msgs);
      assert pool.tasks == old(pool.tasks) + [];
    }

    /** The branch of handreadable for the end of input: the connection is kept while there is something to deliver, but
        nothing is read any more. */
    method AtEof() returns (ok: bool)
      requires Sound() && !decoder.error && socket.ends > 0
      modifies this`peerClose, this`inflight, this`submitted, decoder`msg, decoder`taken, socket`interest, pool`tasks
      ensures submitted == old(submitted) && inflight == old(inflight) && pool.tasks == old(pool.tasks)
      ensures ok <==> Pending() != [] || inflight != 0
      ensures ok ==> peerClose && !socket.interest.readable
      ensures ok <==> !Finished(AfterEof(old(View())))
      ensures ok ==> Valid() && View() == AfterEof(old(View()))
    {
      hide Parse, MessageDecode.Valid, TasksOf;
      ghost var c := View();
      peerClose := true;
      SubmitRest();
      assert View() == c.(peerClose := true);
      if outbuffer == [] && inflight == 0 {
        return false;
      }
      SetEvent(Events(false, outbuffer != []));
      return true;
    }

    /** One turn of the loop of handreadable: a chunk, the end of input, or an error. read is what was received before
        a chunk that turned out to be broken, or all of it. */
    method ReadOnce() returns (again: bool, ok: bool, ghost read: Text, ghost ending: Ending)
      requires Valid() && !decoder.error
      modifies this`peerClose, this`inflight, this`submitted, decoder, socket, pool`tasks
      ensures old(submitted) <= submitted && old(socket.received) <= read <= socket.received
      ensures !Parse(read).broken && Parse(read).msgs == submitted
      ensures inflight == old(inflight) + |submitted| - |old(submitted)|
      ensures pool.tasks == old(pool.tasks) +
                            (if pool.stopping then [] else TasksOf(fd, connId, submitted[|old(submitted)|..]))
      ensures again ==> Valid() && !decoder.error && read == socket.received
      ensures again ==> socket.supply < old(socket.supply) && View() == AfterRead(old(View()), read)
      ensures !again ==> ok == ReadKeeps(old(View()), read, ending)
      ensures ok ==> Valid() && !decoder.error && View() == ReadOutcome(old(View()), read, ending)
      ensures !again && ending.EndOfInput? ==> (ok <==> Pending() != [] || inflight != 0)
      ensures !again && ending.EndOfInput? && ok ==> peerClose && !socket.interest.readable
      ensures !again ==> (ending.BadHeader? <==> Parse(socket.received).broken)
      ensures !again && !ending.BadHeader? ==> read == socket.received
      ensures socket.refusals == if !again && ending.Dry? then old(socket.refusals) + 1 else old(socket.refusals)
      ensures socket.failures == if !again && ending.Failed? then old(socket.failures) + 1 else old(socket.failures)
      ensures socket.ends == if !again && ending.EndOfInput? then old(socket.ends) + 1 else old(socket.ends)
      ensures socket.wire == old(socket.wire)
    {
      hide Parse, MessageDecode.Valid, TasksOf, AfterEof, Finished;
      NoTasks(fd, connId);
      ghost var c := View();
      read, ok, ending := socket.received, false, Dry;
      DecodedAll();
      NothingRead(c);
      var n, buf, errno := socket.Recv();
      if n > 0 {
        var broken := TakeChunk(buf);
        if broken {
          return false, false, read, BadHeader;
        }
        DecodedAll();
        assert View() == c.(received := socket.received, submitted := submitted, inflight := inflight);
        return true, false, socket.received, Dry;
      }
      assert read + [] == read;
      assert View() == c;
      if n == 0 {
        ok := AtEof();
        return false, ok, read, EndOfInput;
      }
      if errno == Other {
        return false, false, read, Failed;
      }
      return false, true, read, Dry;
    }

    /** Reads until the socket is dry, the input ends or something is wrong. Every message that arrived whole is
        submitted once and in order. ending says which of the four it was, and with read it decides everything: the
        connection is given up exactly for a bad header, a failed call, or an end of input with nothing left to
        deliver. */
    method HandReadable() returns (ok: bool, ghost read: Text, ghost ending: Ending)
      requires Valid() && !decoder.error
      modifies this`peerClose, this`inflight, this`submitted, decoder, socket, pool`tasks
      ensures old(submitted) <= submitted && old(socket.received) <= read <= socket.received
      ensures !Parse(read).broken && Parse(read).msgs == submitted
      ensures inflight == old(inflight) + |submitted| - |old(submitted)|
      ensures pool.tasks == old(pool.tasks) +
                            (if pool.stopping then [] else TasksOf(fd, connId, submitted[|old(submitted)|..]))
      ensures ok == ReadKeeps(old(View()), read, ending)
      ensures ok ==> Valid() && !decoder.error && View() == ReadOutcome(old(View()), read, ending)
      ensures ending.EndOfInput? ==> (ok <==> Pending() != [] || inflight != 0)
      ensures ending.EndOfInput? && ok ==> peerClose && !socket.interest.readable
      ensures ending.BadHeader? <==> Parse(socket.received).broken
      ensures !ending.BadHeader? ==> read == socket.received
      ensures socket.refusals == if ending.Dry? then old(socket.refusals) + 1 else old(socket.refusals)
      ensures socket.failures == if ending.Failed? then old(socket.failures) + 1 else old(socket.failures)
      ensures socket.ends == if ending.EndOfInput? then old(socket.ends) + 1 else old(socket.ends)
      ensures socket.wire == old(socket.wire)
    {
      hide Parse, TasksOf, Valid, AfterEof, Finished;
      NoTasks(fd, connId);
      DecodedAll();
      while true
        invariant Valid() && !decoder.error && View() == AfterRead(old(View()), socket.received)
        invariant old(submitted) <= submitted && old(socket.received) <= socket.received
        invariant socket.wire == old(socket.wire) && socket.ends == old(socket.ends)
        invariant socket.refusals == old(socket.refusals) && socket.failures == old(socket.failures)
        invariant pool.tasks == old(pool.tasks) +
                                (if pool.stopping then [] else TasksOf(fd, connId, submitted[|old(submitted)|..]))
        decreases socket.supply
      {
        ghost var first, before := |old(submitted)|, submitted;
        var again;
        again, ok, read, ending := ReadOnce();
        TasksSplit(fd, connId, submitted, first, |before|);
        assert submitted[first..|before|] == before[first..];
        if !again {
          return;
        }
      }
    }

    lemma DecodedAll()
      requires Valid() && !decoder.error
      ensures Parse(socket.received).msgs == submitted && !Parse(socket.received).broken
    {
      hide Parse;
      assert decoder.taken + [] == decoder.taken;
    }
  }
}
