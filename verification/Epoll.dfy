/** The loop object: it accepts and closes connections, hands events to them, and delivers finished responses. */
module Epoll {
  import opened Donequeue
  import opened Message
  import opened NetConnection
  import opened Pipeline
  import opened PipelineProofs
  import opened ThreadPool

  // ---------- what the loop's methods do to the connections ----------

  type Conns = map<int, Conn>

  /** One finished response: it reaches the connection it was computed for, or nobody. That connection is closed if
      sending failed or everything is done. */
  ghost predicate Delivered(cs: Conns, item: Item, failed: bool, cs': Conns) {
    if item.fd in cs && cs[item.fd].id == item.id
    then exists next :: DeliveredTo(cs, item, next, failed, cs')
    else cs' == cs
  }

  predicate DeliveredTo(cs: Conns, item: Item, next: Conn, failed: bool, cs': Conns)
    requires item.fd in cs
  {
    && SendSpec(Counted(cs[item.fd]), item.resp, next, !failed)
    && cs' == if !failed && !Finished(next) then cs[item.fd := next] else cs - {item.fd}
  }

  /** Sending may fail on the descriptors in failing only. */
  ghost predicate DeliveredAll(cs: Conns, items: seq<Item>, failing: set<int>, cs': Conns) {
    if items == [] then cs' == cs
    else
      var init, last := items[..|items| - 1], items[|items| - 1];
      exists mid, failed ::
        && DeliveredAll(cs, init, failing, mid) && Delivered(mid, last, failed, cs')
        && (failed ==> last.fd in failing)
  }

  /** The descriptors that were accepted, each with the next id. */
  function Accepted(cs: Conns, lastId: nat, clients: seq<int>): Conns {
    if clients == [] then cs
    else
      var init, last := clients[..|clients| - 1], clients[|clients| - 1];
      Accepted(cs, lastId, init)[last := NewConn(last, lastId + |clients|)]
  }

  /** The connection received got, of which read was decoded before the read loop ended that way. */
  ghost predicate Decoded(c: Conn, read: Text, got: Text, ending: Ending) {
    && c.received <= read <= got && !Parse(read).broken && c.submitted <= Parse(read).msgs
    && (ending.BadHeader? <==> Parse(got).broken) && (!ending.BadHeader? ==> got == read)
  }

  /** A readable connection received got, of which read was decoded; it was kept or closed as the ending of the read
      loop demands. */
  ghost predicate WasRead(cs: Conns, fd: int, read: Text, got: Text, ending: Ending, cs': Conns)
    requires fd in cs
  {
    && Decoded(cs[fd], read, got, ending)
    && cs' == if ReadKeeps(cs[fd], read, ending) then cs[fd := ReadOutcome(cs[fd], read, ending)] else cs - {fd}
  }

  /** What a connection still has to submit of the bytes read. */
  function Fresh(c: Conn, read: Text): seq<Text> {
    var msgs := Parse(read).msgs;
    if c.submitted <= msgs then msgs[|c.submitted|..] else []
  }

  /** The jobs for them went to the pool, unless it is stopping. */
  predicate Submitted(c: Conn, read: Text, stopping: bool, tasks: seq<Task>, tasks': seq<Task>) {
    tasks' == tasks + (if stopping then [] else TasksOf(c.fd, c.id, Fresh(c, read)))
  }

  /** A writable connection was written, and closed if that failed or everything is done. */
  ghost predicate WasWritten(cs: Conns, fd: int, failed: bool, cs': Conns)
    requires fd in cs
  {
    exists next :: WrittenTo(cs, fd, next, failed, cs')
  }

  predicate WrittenTo(cs: Conns, fd: int, next: Conn, failed: bool, cs': Conns)
    requires fd in cs
  {
    var ok := !failed && !Finished(next);
    WriteSpec(cs[fd], next, ok) && cs' == if ok then cs[fd := next] else cs - {fd}
  }

  /** One event of a connection. While the server stops, connections are only written. Otherwise a failed one is closed,
      and one that is both readable and writable is read. Only reading submits jobs. */
  ghost predicate Handled(cs: Conns, fd: int, event: Event, stopping: bool, failed: bool, cs': Conns,
                          poolStopping: bool, tasks: seq<Task>, tasks': seq<Task>) {
    if fd in cs && !stopping && !event.failed && event.readable then
      exists read, got, ending ::
        && WasRead(cs, fd, read, got, ending, cs') && (ending.Failed? <==> failed)
        && Submitted(cs[fd], read, poolStopping, tasks, tasks')
    else
      && tasks' == tasks
      && if fd in cs && (stopping || !event.failed) && event.writable then WasWritten(cs, fd, failed, cs')
         else if fd in cs && !stopping && event.failed then cs' == cs - {fd}
         else cs' == cs
  }

  // ---------- the object ----------

  /** What epoll_wait reports for one descriptor. */
  datatype Event = Event(readable: bool, writable: bool, failed: bool)

  class Epoll {
    var status: map<int, Connection>
    var connId: nat
    var stopping: bool
    const pool: ThreadPool
    const done: Donequeue
    const doneFd: int
    const listenFd: int

    ghost function Connections(): set<object>
      reads this
    {
      set fd | fd in status :: status[fd] as object
    }

    ghost function Parts(): set<object>
      reads this
    {
      (set fd | fd in status :: status[fd].socket as object) + (set fd | fd in status :: status[fd].decoder as object)
    }

    ghost predicate Serves(fd: int, c: Connection)
      reads this, c, c.socket, c.decoder
    {
      c.fd == fd && c.pool == pool && c.Valid() && !c.decoder.error && 1 <= c.connId <= connId
    }

    ghost predicate Apart(a: Connection, b: Connection) {
      a != b && a.socket != b.socket && a.decoder != b.decoder && a.connId != b.connId
    }

    ghost predicate Valid()
      reads this, Connections(), Parts()
    {
      ValidBut({})
    }

    /** All is well except perhaps the connections that are about to be closed. */
    ghost predicate ValidBut(closing: set<int>)
      reads this, Connections(), Parts()
    {
      && (forall fd :: fd in status && fd !in closing ==> Serves(fd, status[fd]))
      && (forall a, b :: a in status && b in status && a != b ==> Apart(status[a], status[b]))
    }

    ghost function Views(): Conns
      reads this, Connections(), Parts()
    {
      map fd | fd in status :: status[fd].View()
    }

    constructor (doneFd: int, listenFd: int)
      ensures this.doneFd == doneFd && this.listenFd == listenFd
      ensures Valid() && status == map[] && connId == 0 && !stopping
      ensures done.queue == [] && done.bell == 0 && pool.tasks == [] && !pool.stopping && fresh(done) && fresh(pool)
    {
      this.doneFd, this.listenFd := doneFd, listenFd;
      status, connId, stopping := map[], 0, false;
      pool := new ThreadPool();
      done := new Donequeue();
    }

    /** clients are the descriptors that accept yields before it would block or fails; the kernel reuses none that is
        open. */
    method OnAccept(clients: seq<int>)
      requires Valid() && forall fd :: fd in clients ==> fd !in status
      requires forall i, j :: 0 <= i < j < |clients| ==> clients[i] != clients[j]
      modifies this`status, this`connId
      ensures Valid() && connId == old(connId) + |clients|
      ensures Views() == Accepted(old(Views()), old(connId), clients)
      ensures forall fd :: fd in status <==> fd in old(status) || fd in clients
    {
      hide Connection.Valid, Connection.View, NewConn, Serves, Apart;
      ghost var before := Views();
      var i := 0;
      while i < |clients|
        invariant i <= |clients| && connId == old(connId) + i
        invariant Valid() && Views() == Accepted(before, old(connId), clients[..i])
        invariant forall fd :: fd in status <==> fd in old(status) || fd in clients[..i]
      {
        assert clients[i] !in clients[..i];
        AcceptOne(clients[i]);
        assert clients[..i + 1][..i] == clients[..i];
        i := i + 1;
      }
      assert clients[..i] == clients;
    }

    method AcceptOne(client: int)
      requires Valid() && client !in status
      modifies this`status, this`connId
      ensures Valid() && connId == old(connId) + 1
      ensures status.Keys == old(status).Keys + {client}
      ensures Views() == old(Views())[client := NewConn(client, connId)]
    {
      hide Connection.Valid, Connection.View, NewConn, Serves, Apart;
      NextId();
      var c := Connect(client);
      Add(client, c);
    }

    method NextId()
      requires Valid()
      modifies this`connId
      ensures connId == old(connId) + 1 && Valid() && Views() == old(Views())
      ensures forall fd :: fd in status ==> status[fd].connId < connId
    {
      hide Connection.Valid, Connection.View;
      connId := connId + 1;
    }

    /** A connection object with the latest id and a socket of its own. */
    method Connect(client: int) returns (c: Connection)
      requires Valid() && connId > 0 && forall fd :: fd in status ==> status[fd].connId < connId
      ensures Valid() && Views() == old(Views())
      ensures Serves(client, c) && forall fd :: fd in status ==> Apart(status[fd], c)
      ensures c.View() == NewConn(client, connId)
    {
      hide Connection.Valid, Connection.View;
      var supply, interrupts := *, *;
      var socket := new Socket(supply, interrupts);
      c := new Connection(client, connId, pool, socket);
      Untouched(status);
    }

    method Add(client: int, c: Connection)
      requires Valid() && client !in status && Serves(client, c)
      requires forall fd :: fd in status ==> Apart(status[fd], c)
      modifies this`status
      ensures Valid() && status == old(status)[client := c]
      ensures Views() == old(Views())[client := c.View()]
    {
      hide Connection.Valid, Connection.View;
      status := status[client := c];
    }

    /** Connections that none of the fields written belongs to are as they were. */
    twostate lemma Untouched(conns: map<int, Connection>)
      requires forall fd :: fd in conns ==> unchanged(conns[fd], conns[fd].socket, conns[fd].decoder)
      ensures forall fd :: fd in conns ==>
                conns[fd].View() == old(conns[fd].View()) && conns[fd].Valid() == old(conns[fd].Valid())
    {
    }

    method OnClose(fd: int)
      requires ValidBut({fd})
      modifies this`status
      ensures Valid() && Views() == old(Views()) - {fd}
      ensures status == old(status) - {fd}
    {
      hide Connection.Valid, Connection.View;
      status := status - {fd};
    }

    /** The connections that are left are the same objects. */
    twostate predicate Fewer()
      reads this
    {
      forall fd :: fd in status ==> fd in old(status) && status[fd] == old(status[fd])
    }

    /** Only the connection of fd was worked on. */
    twostate lemma OneChanged(fd: int)
      requires fd in status && status == old(status)
      requires forall g :: g in status && g != fd ==> unchanged(status[g], status[g].socket, status[g].decoder)
      ensures Views() == old(Views())[fd := status[fd].View()]
      ensures Views() - {fd} == old(Views()) - {fd}
      ensures forall g :: g in status && g != fd ==> status[g].Valid() == old(status[g].Valid())
    {
      hide Connection.Valid, Connection.View;
      Untouched(status - {fd});
      forall g | g in status && g != fd
        ensures status[g].View() == old(status[g].View()) && status[g].Valid() == old(status[g].Valid())
      {
        assert (status - {fd})[g] == status[g];
      }
    }

    /** The kernel reported an error on the connection that fd has in conns. */
    twostate predicate CallFailed(conns: map<int, Connection>, fd: int)
      reads set g | g in conns :: conns[g].socket
    {
      fd in conns && conns[fd].socket.failures > old(conns[fd].socket.failures)
    }

    lemma ViewId(c: Connection)
      ensures c.View().id == c.connId && c.View().fd == c.fd
    {
    }

    /** The response is counted and sent; keep tells whether the connection still has something to do. */
    method Offer(c: Connection, resp: Text) returns (ok: bool, keep: bool)
      requires c.Valid()
      modifies c`inflight, c`outbuffer, c`closed, c`accepted, c.socket
      ensures c.Valid() && SendSpec(Counted(old(c.View())), resp, c.View(), ok) && keep == (ok && !Finished(c.View()))
      ensures c.socket.failures == if ok then old(c.socket.failures) else old(c.socket.failures) + 1
    {
      hide SendSpec, MessageDecode.Valid, Parse;
      c.inflight := c.inflight - 1;
      ghost var counted := c.View();
      ok := c.SendData(resp);
      keep := ok && !(c.peerClose && c.outbuffer == [] && c.inflight == 0);
    }

    /** One turn of ondone's loop. */
    method Deliver(item: Item) returns (ghost failed: bool)
      requires Valid()
      modifies this`status, Connections(), Parts()
      ensures Valid() && Fewer() && Delivered(old(Views()), item, failed, Views())
      ensures failed <==> CallFailed(old(status), item.fd)
      ensures forall s: Socket :: old(allocated(s)) ==> s.failures >= old(s.failures)
    {
      hide Connection.Valid, Connection.View, SendSpec, Finished, Counted;
      if item.fd !in status {
        return false;
      }
      var c := status[item.fd];
      ViewId(c);
      if c.connId != item.id {
        return false;
      }
      ghost var before := Views();
      var ok, keep := Offer(c, item.resp);
      OneChanged(item.fd);
      ghost var next := c.View();
      if !keep {
        OnClose(item.fd);
      }
      assert DeliveredTo(before, item, next, !ok, Views());
      return !ok;
    }

    /** The eventfd is read, which resets it; then everything that is queued is delivered in order. during is what other
        threads do between the two: what they push is delivered with the rest, and their writes to the eventfd are not
        lost. */
    method OnDone(during: seq<Deed>) returns (ghost failing: set<int>)
      requires Valid()
      modifies this`status, Connections(), Parts(), done
      ensures Valid() && Fewer() && done.queue == [] && done.bell == RungBy(0, during)
      ensures DeliveredAll(old(Views()), old(done.queue) + PushedBy(during), failing, Views())
      ensures forall fd :: fd in failing ==> CallFailed(old(status), fd)
    {
      hide DeliveredAll, Connection.Valid, Connection.View, Serves, Apart, ValidBut, PushedBy, RungBy;
      var items := TakeDone(during);
      failing := DeliverItems(items);
    }

    /** The part of ondone that touches no connection. */
    method TakeDone(during: seq<Deed>) returns (items: seq<Item>)
      requires Valid()
      modifies done
      ensures Valid() && Views() == old(Views())
      ensures items == old(done.queue) + PushedBy(during) && done.queue == [] && done.bell == RungBy(0, during)
    {
      hide Connection.Valid, Connection.View, PushedBy, RungBy;
      done.ReadCounter();
      done.Others(during);
      items := done.Drain();
    }

    /** failing collects the descriptors on which the kernel reported an error. */
    method DeliverItems(items: seq<Item>) returns (ghost failing: set<int>)
      requires Valid()
      modifies this`status, Connections(), Parts()
      ensures Valid() && Fewer() && DeliveredAll(old(Views()), items, failing, Views())
      ensures forall fd :: fd in failing ==> CallFailed(old(status), fd)
    {
      hide Delivered, DeliveredAll, Connection.Valid, Connection.View, Serves, Apart;
      ghost var before, conns := Views(), status;
      DeliveredNone(before);
      failing := {};
      var i := 0;
      while i < |items|
        invariant i <= |items| && Valid() && Fewer()
        invariant DeliveredAll(before, items[..i], failing, Views())
        invariant forall s: Socket :: old(allocated(s)) ==> s.failures >= old(s.failures)
        invariant forall fd :: fd in failing ==> CallFailed(conns, fd)
      {
        ghost var mid := Views();
        ghost var failed := Deliver(items[i]);
        DeliveredSnoc(before, items[..i], failing, mid, items[i], failed, Views());
        failing := if failed then failing + {items[i].fd} else failing;
        assert items[..i + 1] == items[..i] + [items[i]];
        i := i + 1;
      }
      assert items[..i] == items;
    }

    /** The read handler in terms of the connection's value. */
    method Receive(c: Connection) returns (ok: bool, ghost read: Text, ghost got: Text, ghost ending: Ending)
      requires c.Valid() && !c.decoder.error && c.pool == pool
      modifies c`peerClose, c`inflight, c`submitted, c.decoder, c.socket, pool`tasks
      ensures ok ==> c.Valid() && !c.decoder.error && c.View() == ReadOutcome(old(c.View()), read, ending)
      ensures Decoded(old(c.View()), read, got, ending) && ok == ReadKeeps(old(c.View()), read, ending)
      ensures Submitted(old(c.View()), read, pool.stopping, old(pool.tasks), pool.tasks)
      ensures ending.Failed? <==> c.socket.failures > old(c.socket.failures)
    {
      hide MessageDecode.Valid, Parse, TasksOf, ReadOutcome, ReadKeeps;
      ok, read, ending := c.HandReadable();
      got := c.socket.received;
    }

    /** A readable connection is read, and closed if its handler says so. */
    method OnReadable(fd: int) returns (ok: bool, ghost read: Text, ghost got: Text, ghost ending: Ending)
      requires Valid() && fd in status
      modifies this`status, Connections(), Parts(), pool`tasks
      ensures Valid() && Fewer()
      ensures WasRead(old(Views()), fd, read, got, ending, Views())
      ensures Submitted(old(Views()[fd]), read, pool.stopping, old(pool.tasks), pool.tasks)
      ensures ending.Failed? <==> CallFailed(old(status), fd)
    {
      hide Connection.Valid, Connection.View, Decoded, ReadKeeps, ReadOutcome, Submitted;
      var c := status[fd];
      ok, read, got, ending := Receive(c);
      OneChanged(fd);
      if !ok {
        OnClose(fd);
      }
    }

    method OnWritable(fd: int)
      requires Valid() && fd in status
      modifies this`status, Connections(), Parts()
      ensures Valid() && Fewer()
      ensures WasWritten(old(Views()), fd, CallFailed(old(status), fd), Views())
    {
      hide Connection.Valid, Connection.View, WriteSpec, Finished;
      ghost var before := Views();
      var c := status[fd];
      var ok := c.HandWrite();
      OneChanged(fd);
      ghost var next := c.View();
      if !ok {
        OnClose(fd);
      }
      ghost var failed := CallFailed(old(status), fd);
      assert ok == (!failed && !Finished(next));
      assert WrittenTo(before, fd, next, failed, Views());
    }

    /** One event: responses, new connections, or one connection. */
    method AddEvent(fd: int, event: Event, clients: seq<int>, during: seq<Deed>) returns (ghost failing: set<int>)
      requires Valid() && forall fd :: fd in clients ==> fd !in status
      requires forall i, j :: 0 <= i < j < |clients| ==> clients[i] != clients[j]
      modifies this`status, this`connId, Connections(), Parts(), done, pool`tasks
      ensures Valid()
      ensures fd == doneFd ==> DeliveredAll(old(Views()), old(done.queue) + PushedBy(during), failing, Views())
      ensures fd == doneFd ==> done.queue == [] && done.bell == RungBy(0, during)
      ensures fd != doneFd ==> done.queue == old(done.queue) && done.bell == old(done.bell)
      ensures forall g :: g in failing ==> CallFailed(old(status), g)
      ensures fd == listenFd != doneFd ==> Views() == Accepted(old(Views()), old(connId), clients)
      ensures connId == if fd == listenFd != doneFd then old(connId) + |clients| else old(connId)
      ensures fd == doneFd || fd == listenFd ==> pool.tasks == old(pool.tasks)
      ensures fd != doneFd && fd != listenFd ==>
                Handled(old(Views()), fd, event, stopping, CallFailed(old(status), fd), Views(),
                        pool.stopping, old(pool.tasks), pool.tasks)
    {
      hide DeliveredAll, Accepted, Handled, Connection.Valid, Connection.View, Serves, Apart, PushedBy, RungBy;
      failing := {};
      if fd == doneFd {
        failing := OnDone(during);
        return;
      }
      if fd == listenFd {
        OnAccept(clients);
        return;
      }
      OnConnection(fd, event);
    }

    /** The rest of addevent: an event of one connection, if it is still there. */
    method OnConnection(fd: int, event: Event)
      requires Valid()
      modifies this`status, Connections(), Parts(), pool`tasks
      ensures Valid()
      ensures Handled(old(Views()), fd, event, stopping, CallFailed(old(status), fd), Views(),
                      pool.stopping, old(pool.tasks), pool.tasks)
    {
      hide WasWritten, WasRead, Submitted, Connection.Valid, Connection.View, Serves, Apart;
      if fd !in status {
        return;
      }
      if stopping {
        if event.writable {
          OnWritable(fd);
        }
        return;
      }
      if event.failed {
        OnClose(fd);
      } else if event.readable {
        var ok, read, got, ending := OnReadable(fd);
      } else if event.readable || event.writable {
        OnWritable(fd);
      }
    }
  }

  lemma DeliveredNone(cs: Conns)
    ensures DeliveredAll(cs, [], {}, cs)
  {
  }

  lemma DeliveredSnoc(cs: Conns, items: seq<Item>, failing: set<int>, mid: Conns, item: Item, failed: bool, cs': Conns)
    requires DeliveredAll(cs, items, failing, mid) && Delivered(mid, item, failed, cs')
    ensures DeliveredAll(cs, items + [item], if failed then failing + {item.fd} else failing, cs')
  {
    hide Delivered;
    var more := if failed then failing + {item.fd} else failing;
    DeliveredMore(cs, items, failing, more, mid);
    assert (items + [item])[..|items|] == items && (items + [item])[|items|] == item;
  }

  lemma {:induction false} DeliveredMore(cs: Conns, items: seq<Item>, failing: set<int>, more: set<int>, cs': Conns)
    requires DeliveredAll(cs, items, failing, cs') && failing <= more
    ensures DeliveredAll(cs, items, more, cs')
  {
    hide Delivered;
    if items != [] {
      var init, last := items[..|items| - 1], items[|items| - 1];
      var mid, failed :| && DeliveredAll(cs, init, failing, mid) && Delivered(mid, last, failed, cs')
                         && (failed ==> last.fd in failing);
      DeliveredMore(cs, init, failing, more, mid);
    }
  }

  // ---------- the object refines the step machine ----------

  /** onaccept is a run of accept steps. */
  lemma {:induction false} AcceptRefines(h: Text -> Text, s: State, clients: seq<int>) returns (steps: seq<Step>)
    requires s.loop == Idle && forall fd :: fd in clients ==> fd !in s.conns
    requires forall i, j :: 0 <= i < j < |clients| ==> clients[i] != clients[j]
    ensures Accepted(s.conns, s.lastId, clients).Keys == s.conns.Keys + set fd | fd in clients
    ensures Run(h, s, steps, s.(conns := Accepted(s.conns, s.lastId, clients), lastId := s.lastId + |clients|))
  {
    hide Run, NewConn;
    if clients == [] {
      steps := [];
      assert s.(conns := s.conns, lastId := s.lastId) == s;
      RunNone(h, s);
    } else {
      var init, last := clients[..|clients| - 1], clients[|clients| - 1];
      assert clients == init + [last];
      steps := AcceptRefines(h, s, init);
      var s1 := s.(conns := Accepted(s.conns, s.lastId, init), lastId := s.lastId + |init|);
      RunSnoc(h, s, steps, s1, Accept(last));
      steps := steps + [Accept(last)];
    }
  }

  predicate ByWorkers(steps: seq<Step>) {
    forall i :: 0 <= i < |steps| ==> steps[i].WorkerTakes? || steps[i].WorkerPushes? || steps[i].WorkerRings?
  }

  /** What the workers do is a sequence of deeds on the done queue, and concerns neither the loop nor a connection. */
  lemma {:induction false} WorkersDeeds(h: Text -> Text, s: State, steps: seq<Step>, s': State)
    returns (deeds: seq<Deed>)
    requires Run(h, s, steps, s') && ByWorkers(steps)
    ensures s'.conns == s.conns && s'.loop == s.loop && s'.drained == s.drained && s'.lastId == s.lastId
    ensures s'.done == s.done + PushedBy(deeds) && s'.bell == RungBy(s.bell, deeds)
    decreases |steps|
  {
    if steps == [] {
      deeds := [];
    } else {
      var init, last := steps[..|steps| - 1], steps[|steps| - 1];
      assert steps == init + [last];
      var mid := RunSplit(h, s, init, last, s');
      deeds := WorkersDeeds(h, s, init, mid);
      var d := DeedOf(h, mid, last);
      if d != [] {
        DeedsSnoc(s.bell, deeds, d[0]);
        deeds := deeds + [d[0]];
      }
    }
  }

  /** The deed of one worker step, if it is one. */
  lemma DeedOf(h: Text -> Text, s: State, step: Step) returns (d: seq<Deed>)
    requires Enabled(s, step) && ByWorkers([step])
    ensures var s' := Apply(h, s, step);
            && s'.conns == s.conns && s'.loop == s.loop && s'.drained == s.drained && s'.lastId == s.lastId
            && |d| <= 1
            && (d == [] ==> s'.done == s.done && s'.bell == s.bell)
            && (d != [] ==> s'.done == s.done + (if d[0].Pushes? then [d[0].item] else [])
                            && s'.bell == if d[0].Rings? then Rung(s.bell) else s.bell)
  {
    hide Rung, Respond;
    assert [step][0] == step;
    match step {
      case WorkerPushes(w) => d := [Pushes(Respond(h, s.workers[w].task))];
      case WorkerRings(w) => d := [Rings];
      case _ => d := [];
    }
  }

  /** ondone is a run, whatever the workers do between the read of the eventfd and the drain: the eventfd is read, they
      do it, the queue is drained, and every response is one step. */
  lemma DoneRefines(h: Text -> Text, s: State, between: seq<Step>, s1: State, failing: set<int>, cs: Conns)
    returns (steps: seq<Step>)
    requires s.loop == Idle && Run(h, s.(bell := 0, loop := BellRead), between, s1) && ByWorkers(between)
    requires DeliveredAll(s.conns, s1.done, failing, cs)
    ensures Run(h, s, steps, s1.(conns := cs, loop := Idle, done := [], drained := s.drained + s1.done))
  {
    hide Run, DeliveredAll, ByWorkers;
    var deeds := WorkersDeeds(h, s.(bell := 0, loop := BellRead), between, s1);
    BellFirst(h, s, between, s1);
    var before := [ReadBell] + between;
    RunSnoc(h, s, before, s1, Drain);
    var s2 := s1.(loop := Delivering(s1.done), done := [], drained := s.drained + s1.done);
    assert s1.done + [] == s1.done;
    var more := DeliverRefines(h, s, before + [Drain], s2, s1.done, [], failing, cs);
    var s3 := s2.(conns := cs, loop := Delivering([]));
    RunSnoc(h, s, more, s3, BatchDone);
    steps := more + [BatchDone];
  }

  lemma BellFirst(h: Text -> Text, s: State, between: seq<Step>, s1: State)
    requires s.loop == Idle && Run(h, s.(bell := 0, loop := BellRead), between, s1)
    ensures Run(h, s, [ReadBell] + between, s1)
  {
    assert ([ReadBell] + between)[1..] == between;
  }

  /** A run that has come to the delivery of items and rest can deliver the items. */
  lemma {:induction false} DeliverRefines(h: Text -> Text, s: State, steps: seq<Step>, s2: State, items: seq<Item>,
                                         rest: seq<Item>, failing: set<int>, cs: Conns)
    returns (more: seq<Step>)
    requires Run(h, s, steps, s2) && s2.loop == Delivering(items + rest) && DeliveredAll(s2.conns, items, failing, cs)
    ensures Run(h, s, more, s2.(conns := cs, loop := Delivering(rest)))
  {
    hide Run, Delivered;
    if items == [] {
      assert items + rest == rest;
      more := steps;
    } else {
      var init, last := items[..|items| - 1], items[|items| - 1];
      var mid, failed :| && DeliveredAll(s2.conns, init, failing, mid) && Delivered(mid, last, failed, cs)
                         && (failed ==> last.fd in failing);
      assert init + ([last] + rest) == items + rest;
      more := DeliverRefines(h, s, steps, s2, init, [last] + rest, failing, mid);
      var s3 := s2.(conns := mid, loop := Delivering([last] + rest));
      var step := DeliverOneRefines(h, s3, last, rest, failed, cs);
      RunSnoc(h, s, more, s3, step);
      more := more + [step];
    }
  }

  lemma DeliverOneRefines(h: Text -> Text, s: State, item: Item, rest: seq<Item>, failed: bool, cs: Conns)
    returns (step: Step)
    requires s.loop == Delivering([item] + rest) && Delivered(s.conns, item, failed, cs)
    ensures Enabled(s, step) && Apply(h, s, step) == s.(conns := cs, loop := Delivering(rest))
  {
    hide SendSpec, Finished, Counted;
    assert s.loop.batch[0] == item && s.loop.batch[1..] == rest;
    if Addressed(s, item) {
      var next :| DeliveredTo(s.conns, item, next, failed, cs);
      step := DeliverOne(next, !failed);
    } else {
      step := DeliverOne(NewConn(0, 0), false);
    }
  }

  /** handwrite and what the loop does with its result is one step. */
  lemma WriteRefines(h: Text -> Text, s: State, fd: int, failed: bool, cs: Conns) returns (step: Step)
    requires s.loop == Idle && fd in s.conns && WasWritten(s.conns, fd, failed, cs)
    ensures step.Writable? && step.fd == fd
    ensures Enabled(s, step) && Apply(h, s, step) == s.(conns := cs)
  {
    hide WriteSpec, Finished;
    var next :| WrittenTo(s.conns, fd, next, failed, cs);
    step := Writable(fd, next, !failed && !Finished(next));
  }

  /** The loop has received everything and submitted k of the fresh messages. */
  function Submitting(s: State, fd: int, read: Text, k: nat): State
    requires fd in s.conns && k <= |Fresh(s.conns[fd], read)|
  {
    var c, more := s.conns[fd], Fresh(s.conns[fd], read);
    s.(conns := s.conns[fd := c.(received := read, submitted := c.submitted + more[..k], inflight := c.inflight + k)],
       tasks := s.tasks + TasksOf(fd, c.id, more[..k]), loop := Reading(fd, more[k..]))
  }

  lemma ReceiveRefines(h: Text -> Text, s: State, fd: int, read: Text) returns (steps: seq<Step>)
    requires s.loop == Idle && fd in s.conns && ConnInv(h, s, fd)
    requires s.conns[fd].received <= read && !Parse(read).broken && s.conns[fd].submitted <= Parse(read).msgs
    ensures Run(h, s, steps, Submitting(s, fd, read, 0))
  {
    hide Run, Parse, TasksOf, Flying, Balanced, InOrder, Tidy;
    var c := s.conns[fd];
    var s1 := s.(loop := Reading(fd, []));
    RunOne(h, s, BeginRead(fd));
    NoTasks(fd, c.id);
    assert s.tasks + [] == s.tasks && c.submitted + [] == c.submitted;
    if read == c.received {
      steps := [BeginRead(fd)];
      assert Fresh(c, read) == [];
      assert s.conns[fd := c] == s.conns;
    } else {
      var chunk := read[|c.received|..];
      assert c.received + chunk == read;
      RunSnoc(h, s, [BeginRead(fd)], s1, RecvChunk(chunk));
      steps := [BeginRead(fd)] + [RecvChunk(chunk)];
      assert Apply(h, s1, RecvChunk(chunk)) == Submitting(s, fd, read, 0);
    }
  }

  lemma {:induction false} SubmitRefines(h: Text -> Text, s: State, fd: int, read: Text, steps: seq<Step>,
      k: nat) returns (more: seq<Step>)
    requires fd in s.conns && s.conns[fd].fd == fd && k <= |Fresh(s.conns[fd], read)|
    requires Run(h, s, steps, Submitting(s, fd, read, 0))
    ensures Run(h, s, more, Submitting(s, fd, read, k))
  {
    hide Run, Fresh, Submitting;
    if k == 0 {
      more := steps;
    } else {
      more := SubmitRefines(h, s, fd, read, steps, k - 1);
      SubmittingStep(h, s, fd, read, k - 1);
      RunSnoc(h, s, more, Submitting(s, fd, read, k - 1), SubmitOne);
      more := more + [SubmitOne];
    }
  }

  lemma SubmittingStep(h: Text -> Text, s: State, fd: int, read: Text, k: nat)
    requires fd in s.conns && s.conns[fd].fd == fd && k < |Fresh(s.conns[fd], read)|
    ensures var mid := Submitting(s, fd, read, k);
            Enabled(mid, SubmitOne) && Apply(h, mid, SubmitOne) == Submitting(s, fd, read, k + 1)
  {
    hide Fresh, TasksOf;
    var c, more := s.conns[fd], Fresh(s.conns[fd], read);
    assert more[..k + 1] == more[..k] + [more[k]];
    assert more[k..][0] == more[k] && more[k..][1..] == more[k + 1..];
    TasksSnoc(fd, c.id, more[..k], more[k]);
    assert c.submitted + more[..k] + [more[k]] == c.submitted + (more[..k] + [more[k]]);
    assert s.tasks + TasksOf(fd, c.id, more[..k]) + [Task(fd, c.id, more[k])]
        == s.tasks + (TasksOf(fd, c.id, more[..k]) + [Task(fd, c.id, more[k])]);
  }

  /** The step of the machine for each ending of the read loop. */
  function EndStep(read: Text, got: Text, ending: Ending): Step {
    match ending
    case Dry => RecvDry
    case EndOfInput => RecvEof
    case BadHeader => RecvChunk(if |read| <= |got| then got[|read|..] else [])
    case Failed => RecvFails
  }

  /** handreadable and what the loop does with its result is a run: the bytes arrive, every message in them is
      submitted, and then comes the step for the ending. */
  lemma ReadRefines(h: Text -> Text, s: State, fd: int, read: Text, got: Text, ending: Ending, cs: Conns)
    returns (steps: seq<Step>)
    requires s.loop == Idle && fd in s.conns && ConnInv(h, s, fd) && WasRead(s.conns, fd, read, got, ending, cs)
    ensures steps != [] && steps[|steps| - 1] == EndStep(read, got, ending)
    ensures Run(h, s, steps, s.(conns := cs, tasks := s.tasks + TasksOf(fd, s.conns[fd].id, Fresh(s.conns[fd], read))))
  {
    hide Run, Parse, Flying, ConnInv, EndStep, ReadOutcome, ReadKeeps, Submitting;
    var n := |Fresh(s.conns[fd], read)|;
    steps := ReadSubmits(h, s, fd, read);
    ReadEnds(h, s, fd, read, got, ending, cs);
    RunSnoc(h, s, steps, Submitting(s, fd, read, n), EndStep(read, got, ending));
    steps := steps + [EndStep(read, got, ending)];
  }

  lemma ReadSubmits(h: Text -> Text, s: State, fd: int, read: Text) returns (steps: seq<Step>)
    requires s.loop == Idle && fd in s.conns && ConnInv(h, s, fd)
    requires s.conns[fd].received <= read && !Parse(read).broken && s.conns[fd].submitted <= Parse(read).msgs
    ensures Run(h, s, steps, Submitting(s, fd, read, |Fresh(s.conns[fd], read)|))
  {
    hide Run, Parse, Flying, ConnInv, Submitting;
    IdBound(h, s, fd);
    steps := ReceiveRefines(h, s, fd, read);
    steps := SubmitRefines(h, s, fd, read, steps, |Fresh(s.conns[fd], read)|);
  }

  lemma ReadEnds(h: Text -> Text, s: State, fd: int, read: Text, got: Text, ending: Ending, cs: Conns)
    requires s.loop == Idle && fd in s.conns && WasRead(s.conns, fd, read, got, ending, cs)
    ensures var more, step := Fresh(s.conns[fd], read), EndStep(read, got, ending);
            var mid := Submitting(s, fd, read, |more|);
            && Enabled(mid, step) && mid.conns[fd] == AfterRead(s.conns[fd], read)
            && Apply(h, mid, step) == s.(conns := cs, tasks := s.tasks + TasksOf(fd, s.conns[fd].id, more))
  {
    hide Parse, TasksOf, Finished;
    var c, more := s.conns[fd], Fresh(s.conns[fd], read);
    var mid := Submitting(s, fd, read, |more|);
    assert more[..|more|] == more && more[|more|..] == [];
    assert c.submitted + more == Parse(read).msgs;
    assert mid.conns[fd] == AfterRead(c, read);
    assert mid.conns - {fd} == s.conns - {fd};
    assert mid.conns == s.conns[fd := AfterRead(c, read)];
    match ending {
      case BadHeader =>
        assert read + got[|read|..] == got;
        assert |read| == |got| ==> read == got;
      case EndOfInput =>
        assert mid.conns[fd := AfterEof(AfterRead(c, read))] == s.conns[fd := AfterEof(AfterRead(c, read))];
      case _ =>
    }
  }

  predicate ReadEnding(step: Step) {
    step.RecvDry? || step.RecvEof? || step.RecvChunk? || step.RecvFails?
  }

  predicate WriteOf(steps: seq<Step>, fd: int) {
    |steps| == 1 && steps[0].Writable? && steps[0].fd == fd
  }

  /** Which run of the machine one event of a connection is. A stopping server writes and does nothing else. Otherwise
      a connection that failed is hung up; one that is readable is read, also when it is writable; one that is only
      writable is written; and an event for a descriptor that is not there is nothing. */
  lemma EventRefines(h: Text -> Text, s: State, fd: int, event: Event, stopping: bool, failed: bool, cs: Conns,
                     tasks: seq<Task>) returns (steps: seq<Step>)
    requires s.loop == Idle && (fd in s.conns ==> ConnInv(h, s, fd))
    requires Handled(s.conns, fd, event, stopping, failed, cs, false, s.tasks, tasks)
    ensures Run(h, s, steps, s.(conns := cs, tasks := tasks))
    ensures fd !in s.conns ==> steps == []
    ensures fd in s.conns && stopping ==> if event.writable then WriteOf(steps, fd) else steps == []
    ensures fd in s.conns && !stopping ==>
              if event.failed then steps == [Hangup(fd)]
              else if event.readable then steps != [] && ReadEnding(steps[|steps| - 1])
              else if event.writable then WriteOf(steps, fd)
              else steps == []
    ensures forall g :: g != fd ==> (g in cs <==> g in s.conns) && (g in cs ==> cs[g] == s.conns[g])
  {
    hide Run, ConnInv, WasRead, WasWritten, Submitted, Apply;
    if fd in s.conns && !stopping && !event.failed && event.readable {
      steps := ReadEventRefines(h, s, fd, failed, cs, tasks);
    } else if fd in s.conns && (stopping || !event.failed) && event.writable {
      var step := WriteRefines(h, s, fd, failed, cs);
      assert s.tasks == tasks;
      WrittenElsewhere(s.conns, fd, failed, cs);
      steps := WriteStep(h, s, fd, cs, step);
    } else if fd in s.conns && !stopping && event.failed {
      HangupRefines(h, s, fd);
      steps := [Hangup(fd)];
    } else {
      steps := [];
      assert s.(conns := cs, tasks := tasks) == s;
      RunNone(h, s);
    }
  }

  lemma HangupRefines(h: Text -> Text, s: State, fd: int)
    requires s.loop == Idle && fd in s.conns
    ensures Run(h, s, [Hangup(fd)], s.(conns := s.conns - {fd}, tasks := s.tasks))
  {
    hide Run;
    RunOne(h, s, Hangup(fd));
  }

  lemma WriteStep(h: Text -> Text, s: State, fd: int, cs: Conns, step: Step) returns (steps: seq<Step>)
    requires Enabled(s, step) && Apply(h, s, step) == s.(conns := cs) && step.Writable? && step.fd == fd
    ensures Run(h, s, steps, s.(conns := cs, tasks := s.tasks)) && WriteOf(steps, fd)
  {
    hide Run, Apply, Enabled;
    RunOne(h, s, step);
    steps := [step];
  }

  lemma WrittenElsewhere(cs: Conns, fd: int, failed: bool, cs': Conns)
    requires fd in cs && WasWritten(cs, fd, failed, cs')
    ensures forall g :: g != fd ==> (g in cs' <==> g in cs) && (g in cs' ==> cs'[g] == cs[g])
  {
    hide WriteSpec, Finished;
  }

  lemma ReadEventRefines(h: Text -> Text, s: State, fd: int, failed: bool, cs: Conns, tasks: seq<Task>)
    returns (steps: seq<Step>)
    requires s.loop == Idle && fd in s.conns && ConnInv(h, s, fd)
    requires exists read, got, ending ::
               && WasRead(s.conns, fd, read, got, ending, cs) && (ending.Failed? <==> failed)
               && Submitted(s.conns[fd], read, false, s.tasks, tasks)
    ensures Run(h, s, steps, s.(conns := cs, tasks := tasks))
    ensures steps != [] && ReadEnding(steps[|steps| - 1])
    ensures forall g :: g != fd ==> (g in cs <==> g in s.conns) && (g in cs ==> cs[g] == s.conns[g])
  {
    hide Run, Parse, Balanced, InOrder, Tidy, Flying, Decoded, ReadKeeps, ReadOutcome, TasksOf, Fresh;
    var read, got, ending :|
      && WasRead(s.conns, fd, read, got, ending, cs) && (ending.Failed? <==> failed)
      && Submitted(s.conns[fd], read, false, s.tasks, tasks);
    steps := ReadRefines(h, s, fd, read, got, ending, cs);
  }

  /** The object's close at the end of input is the machine's: whatever happened before, every response to every
      request of that connection is on the wire, complete and in order. */
  lemma ReadCloseComplete(h: Text -> Text, s: State, fd: int, read: Text, cs: Conns)
    requires Inv(h, s) && s.loop == Idle && fd in s.conns
    requires WasRead(s.conns, fd, read, read, EndOfInput, cs) && fd !in cs
    ensures var last := ReadOutcome(s.conns[fd], read, EndOfInput);
            && last.submitted == Parse(read).msgs && last.wire == EncodeAll(last.accepted)
            && ItemsOf(h, fd, last.id, last.submitted) == AcceptedItems(fd, last.id, last.accepted)
  {
    hide Run, Parse, Inv, ConnInv, Submitting, ItemsOf, AcceptedItems, EncodeAll, Finished;
    InvOf(h, s, fd);
    var mid := Submitting(s, fd, read, |Fresh(s.conns[fd], read)|);
    var steps := ReadSubmits(h, s, fd, read);
    RunKeeps(h, s, steps, mid);
    ReadEnds(h, s, fd, read, read, EndOfInput, cs);
    ReadStillIn(s, fd, read);
    DrainCloseComplete(h, mid, RecvEof, fd, ReadOutcome(s.conns[fd], read, EndOfInput));
  }

  lemma ReadStillIn(s: State, fd: int, read: Text)
    requires fd in s.conns
    ensures var mid := Submitting(s, fd, read, |Fresh(s.conns[fd], read)|);
            fd in mid.conns && mid.loop.Reading? && mid.loop.fd == fd
  {
  }
}
