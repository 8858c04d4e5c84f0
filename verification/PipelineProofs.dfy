/** What every step of the server keeps, and what that means for its clients. */
module PipelineProofs {
  import opened Bytes
  import opened Donequeue
  import opened Message
  import opened NetConnection
  import opened Pipeline
  import opened ThreadPool

  // ---------- items in flight ----------

  lemma ItemsSnoc(h: Text -> Text, fd: int, id: nat, msgs: seq<Text>, m: Text)
    ensures ItemsOf(h, fd, id, msgs + [m]) == ItemsOf(h, fd, id, msgs) + multiset{Item(fd, id, h(m))}
  {
    assert (msgs + [m])[..|msgs|] == msgs;
  }

  lemma AcceptedSnoc(fd: int, id: nat, resps: seq<Text>, r: Text)
    ensures AcceptedItems(fd, id, resps + [r]) == AcceptedItems(fd, id, resps) + multiset{Item(fd, id, r)}
  {
    assert (resps + [r])[..|resps|] == resps;
  }

  lemma {:induction false} QueuedSnoc(h: Text -> Text, tasks: seq<Task>, t: Task)
    ensures QueuedItems(h, tasks + [t]) == QueuedItems(h, tasks) + multiset{Respond(h, t)}
  {
    if tasks != [] {
      assert (tasks + [t])[1..] == tasks[1..] + [t];
      QueuedSnoc(h, tasks[1..], t);
    }
  }

  /** A worker that changes what it does changes the running items by just that. */
  lemma {:induction false} RunningUpdate(h: Text -> Text, ws: seq<Worker>, i: nat, w: Worker)
    requires i < |ws|
    ensures RunningItems(h, ws[i := w]) + WorkerItems(h, ws[i]) == RunningItems(h, ws) + WorkerItems(h, w)
  {
    hide WorkerItems;
    var ws' := ws[i := w];
    assert ws'[0] == if i == 0 then w else ws[0];
    if i == 0 {
      assert ws'[1..] == ws[1..];
    } else {
      assert ws'[1..] == ws[1..][i - 1 := w];
      RunningUpdate(h, ws[1..], i - 1, w);
      var rest, rest' := RunningItems(h, ws[1..]), RunningItems(h, ws'[1..]);
      assert RunningItems(h, ws) == WorkerItems(h, ws[0]) + rest;
      assert RunningItems(h, ws') == WorkerItems(h, ws[0]) + rest';
      assert WorkerItems(h, ws[0]) + rest' + WorkerItems(h, ws[i])
          == WorkerItems(h, ws[0]) + (rest' + WorkerItems(h, ws[i]));
      assert WorkerItems(h, ws[0]) + rest + WorkerItems(h, w) == WorkerItems(h, ws[0]) + (rest + WorkerItems(h, w));
    }
  }

  /** Items of a connection carry its descriptor and id; so do all items in flight under its id. */
  lemma {:induction false} ItemsCarry(h: Text -> Text, fd: int, id: nat, msgs: seq<Text>)
    ensures forall x :: x in ItemsOf(h, fd, id, msgs) ==>
              x.fd == fd && x.id == id && exists m :: m in msgs && x.resp == h(m)
  {
    if msgs != [] {
      var init, last := msgs[..|msgs| - 1], msgs[|msgs| - 1];
      ItemsCarry(h, fd, id, init);
      assert msgs == init + [last];
    }
  }

  lemma FlyingBelongs(h: Text -> Text, flying: multiset<Item>, c: Conn, x: Item)
    requires Balanced(h, flying, c) && x in flying && x.id == c.id
    ensures x.fd == c.fd
  {
    hide AcceptedItems;
    ItemsCarry(h, c.fd, c.id, c.submitted);
    assert ItemsOf(h, c.fd, c.id, c.submitted)[x] > 0;
  }

  lemma {:induction false} AcceptedCarry(fd: int, id: nat, resps: seq<Text>)
    ensures |AcceptedItems(fd, id, resps)| == |resps|
    ensures forall x :: x in AcceptedItems(fd, id, resps) ==> x.id == id
  {
    if resps != [] {
      AcceptedCarry(fd, id, resps[..|resps| - 1]);
    }
  }

  lemma {:induction false} ItemsCount(h: Text -> Text, fd: int, id: nat, msgs: seq<Text>)
    ensures |ItemsOf(h, fd, id, msgs)| == |msgs|
  {
    if msgs != [] {
      ItemsCount(h, fd, id, msgs[..|msgs| - 1]);
    }
  }

  /** inflight is the number of undelivered responses, so it is never negative. */
  lemma InflightIsUndelivered(h: Text -> Text, flying: multiset<Item>, c: Conn)
    requires Balanced(h, flying, c)
    ensures AcceptedItems(c.fd, c.id, c.accepted) <= ItemsOf(h, c.fd, c.id, c.submitted)
    ensures c.inflight == |ItemsOf(h, c.fd, c.id, c.submitted) - AcceptedItems(c.fd, c.id, c.accepted)| >= 0
  {
    hide AcceptedItems, ItemsOf;
    var all, gone := ItemsOf(h, c.fd, c.id, c.submitted), AcceptedItems(c.fd, c.id, c.accepted);
    AcceptedCarry(c.fd, c.id, c.accepted);
    ItemsCount(h, c.fd, c.id, c.submitted);
    forall x: Item
      ensures gone[x] <= all[x]
    {
      if x.id != c.id {
        assert x !in gone;
      }
    }
    assert all == gone + (all - gone);
  }

  /** Steps that only move items around leave the items in flight what they were. */
  predicate Moves(step: Step) {
    !step.SubmitOne? && !step.DeliverOne?
  }

  lemma FlyingMoved(h: Text -> Text, s: State, step: Step)
    requires Enabled(s, step) && Moves(step)
    ensures Flying(h, Apply(h, s, step)) == Flying(h, s)
  {
    hide RunningItems, QueuedItems, WriteSpec, Parse, Rung, Finished;
    match step {
      case WorkerTakes(w) => FlyingTaken(h, s, w);
      case WorkerPushes(w) => FlyingPushed(h, s, w);
      case WorkerRings(w) => FlyingRung(h, s, w);
      case _ =>
    }
  }

  lemma FlyingPushed(h: Text -> Text, s: State, w: nat)
    requires Enabled(s, WorkerPushes(w))
    ensures Flying(h, Apply(h, s, WorkerPushes(w))) == Flying(h, s)
  {
    hide RunningItems, QueuedItems;
    var item := Respond(h, s.workers[w].task);
    RunningUpdate(h, s.workers, w, Ringing);
    var before, after := RunningItems(h, s.workers), RunningItems(h, s.workers[w := Ringing]);
    assert before == after + multiset{item};
    assert multiset(s.done + [item]) == multiset(s.done) + multiset{item};
  }

  lemma FlyingRung(h: Text -> Text, s: State, w: nat)
    requires Enabled(s, WorkerRings(w))
    ensures Flying(h, Apply(h, s, WorkerRings(w))) == Flying(h, s)
  {
    hide RunningItems, QueuedItems, Rung;
    RunningUpdate(h, s.workers, w, Waiting);
    var before, after := RunningItems(h, s.workers), RunningItems(h, s.workers[w := Waiting]);
    assert before == before + multiset{} && after == after + multiset{};
  }

  lemma FlyingTaken(h: Text -> Text, s: State, w: nat)
    requires Enabled(s, WorkerTakes(w))
    ensures Flying(h, Apply(h, s, WorkerTakes(w))) == Flying(h, s)
  {
    hide RunningItems, QueuedItems;
    var t := s.tasks[0];
    RunningUpdate(h, s.workers, w, Running(t));
    QueuedHead(h, s.tasks);
    var before, after := RunningItems(h, s.workers), RunningItems(h, s.workers[w := Running(t)]);
    assert after == before + multiset{Respond(h, t)};
  }

  lemma QueuedHead(h: Text -> Text, tasks: seq<Task>)
    requires tasks != []
    ensures QueuedItems(h, tasks) == multiset{Respond(h, tasks[0])} + QueuedItems(h, tasks[1..])
  {
  }

  lemma FlyingSubmitted(h: Text -> Text, s: State)
    requires Enabled(s, SubmitOne)
    ensures var c := s.conns[s.loop.fd];
            Flying(h, Apply(h, s, SubmitOne)) == Flying(h, s) + multiset{Item(c.fd, c.id, h(s.loop.queue[0]))}
  {
    hide RunningItems, QueuedItems;
    var c := s.conns[s.loop.fd];
    QueuedSnoc(h, s.tasks, Task(c.fd, c.id, s.loop.queue[0]));
  }

  lemma FlyingDelivered(h: Text -> Text, s: State, next: Conn, ok: bool)
    requires Enabled(s, DeliverOne(next, ok))
    ensures s.loop.batch[0] in Flying(h, s)
    ensures Flying(h, Apply(h, s, DeliverOne(next, ok))) == Flying(h, s) - multiset{s.loop.batch[0]}
  {
    hide RunningItems, QueuedItems, SendSpec, Finished, Counted, Addressed;
    var rest := QueuedItems(h, s.tasks) + RunningItems(h, s.workers) + multiset(s.done);
    TakenOut(rest, s.loop.batch);
  }

  lemma TakenOut(others: multiset<Item>, batch: seq<Item>)
    requires batch != []
    ensures others + multiset(batch[1..]) == others + multiset(batch) - multiset{batch[0]}
    ensures batch[0] in others + multiset(batch)
  {
    assert batch == [batch[0]] + batch[1..];
    assert multiset(batch) == multiset{batch[0]} + multiset(batch[1..]);
  }

  // ---------- one step ----------

  /** A connection the step does not touch. */
  lemma Untouched(h: Text -> Text, s: State, s': State, fd: int)
    requires fd in s.conns && fd in s'.conns && s'.conns[fd] == s.conns[fd] && ConnInv(h, s, fd)
    requires Unsubmitted(s', fd) == Unsubmitted(s, fd) && s'.lastId >= s.lastId
    requires forall x: Item :: x.id == s.conns[fd].id ==> Flying(h, s')[x] == Flying(h, s)[x]
    ensures ConnInv(h, s', fd)
  {
    hide Parse, InOrder, Tidy, Flying, ItemsOf, AcceptedItems;
  }

  /** Steps of the workers and of the loop that touch no connection. */
  lemma KeepsQuiet(h: Text -> Text, s: State, step: Step)
    requires Inv(h, s) && Enabled(s, step)
    requires step.BeginRead? || step.RecvDry? || step.ReadBell? || step.Drain? || step.BatchDone?
             || step.WorkerTakes? || step.WorkerPushes? || step.WorkerRings?
    ensures Inv(h, Apply(h, s, step))
  {
    hide ConnInv, Flying, Rung;
    var s' := Apply(h, s, step);
    FlyingMoved(h, s, step);
    forall fd | fd in s'.conns
      ensures ConnInv(h, s', fd)
    {
      Untouched(h, s, s', fd);
    }
  }

  /** Closing a connection never disturbs another one. */
  lemma KeepsClose(h: Text -> Text, s: State, s': State, fd: int)
    requires Inv(h, s) && s'.conns == s.conns - {fd} && s'.lastId == s.lastId && Flying(h, s') == Flying(h, s)
    requires forall g :: g in s.conns && g != fd ==> Unsubmitted(s', g) == Unsubmitted(s, g)
    requires !s'.loop.Reading?
    ensures Inv(h, s')
  {
    hide ConnInv, Flying;
    forall g | g in s'.conns
      ensures ConnInv(h, s', g)
    {
      Untouched(h, s, s', g);
    }
  }

  /** Replacing one connection by a value with the same identity. */
  lemma KeepsUpdate(h: Text -> Text, s: State, s': State, fd: int)
    requires Inv(h, s) && fd in s.conns && s'.conns.Keys == s.conns.Keys && s'.lastId == s.lastId
    requires forall g :: g in s.conns && g != fd ==>
               s'.conns[g] == s.conns[g] && Unsubmitted(s', g) == Unsubmitted(s, g)
    requires s'.conns[fd].id == s.conns[fd].id && ConnInv(h, s', fd)
    requires forall x: Item :: x.id != s.conns[fd].id ==> Flying(h, s')[x] == Flying(h, s)[x]
    requires forall x :: x in Flying(h, s') ==> x.id <= s'.lastId
    requires s'.loop.Reading? ==> s'.loop.fd in s'.conns
    ensures Inv(h, s')
  {
    hide ConnInv, Flying;
    forall g | g in s'.conns
      ensures ConnInv(h, s', g)
    {
      if g != fd {
        Untouched(h, s, s', g);
      }
    }
  }

  lemma KeepsAccept(h: Text -> Text, s: State, fd: int)
    requires Inv(h, s) && Enabled(s, Accept(fd))
    ensures Inv(h, Apply(h, s, Accept(fd)))
  {
    hide ConnInv, Flying, Balanced, InOrder, Tidy;
    var s' := Apply(h, s, Accept(fd));
    FlyingMoved(h, s, Accept(fd));
    forall g | g in s'.conns
      ensures ConnInv(h, s', g)
    {
      if g == fd {
        NewConnInv(h, s', fd);
      } else {
        Untouched(h, s, s', g);
      }
    }
    forall g | g in s.conns
      ensures s.conns[g].id <= s.lastId
    {
      IdBound(h, s, g);
    }
  }

  lemma IdBound(h: Text -> Text, s: State, fd: int)
    requires fd in s.conns && ConnInv(h, s, fd)
    ensures s.conns[fd].id <= s.lastId && s.conns[fd].fd == fd
  {
  }

  lemma NewConnInv(h: Text -> Text, s': State, fd: int)
    requires fd in s'.conns && s'.lastId > 0 && s'.conns[fd] == NewConn(fd, s'.lastId) && !s'.loop.Reading?
    requires forall x :: x in Flying(h, s') ==> x.id < s'.lastId
    ensures ConnInv(h, s', fd)
  {
    hide Flying;
    EmptyParse();
  }

  lemma KeepsRecv(h: Text -> Text, s: State, chunk: Text)
    requires Inv(h, s) && Enabled(s, RecvChunk(chunk))
    ensures Inv(h, Apply(h, s, RecvChunk(chunk)))
  {
    hide Flying, Parse, Balanced, InOrder, Tidy, ConnInv;
    var step := RecvChunk(chunk);
    var s', fd := Apply(h, s, step), s.loop.fd;
    FlyingMoved(h, s, step);
    if fd in s'.conns {
      RecvConnInv(h, s, s', chunk);
      KeepsUpdate(h, s, s', fd);
    } else {
      KeepsClose(h, s, s', fd);
    }
  }

  lemma RecvConnInv(h: Text -> Text, s: State, s': State, chunk: Text)
    requires Inv(h, s) && Enabled(s, RecvChunk(chunk)) && s' == Apply(h, s, RecvChunk(chunk))
    requires s.loop.fd in s'.conns && Flying(h, s') == Flying(h, s)
    ensures ConnInv(h, s', s.loop.fd)
  {
    hide Flying, Parse, ItemsOf, AcceptedItems, EncodeAll;
    var c := s.conns[s.loop.fd];
    assert ConnInv(h, s, s.loop.fd);
    ParseAppend(c.received, chunk);
    assert c.submitted + [] == c.submitted;
  }

  lemma KeepsSubmit(h: Text -> Text, s: State)
    requires Inv(h, s) && Enabled(s, SubmitOne)
    ensures Inv(h, Apply(h, s, SubmitOne))
  {
    hide Flying, Parse, Balanced, InOrder, Tidy, ConnInv;
    var s', fd := Apply(h, s, SubmitOne), s.loop.fd;
    FlyingSubmitted(h, s);
    IdBound(h, s, fd);
    SubmitConnInv(h, s, s');
    KeepsUpdate(h, s, s', fd);
  }

  lemma SubmitConnInv(h: Text -> Text, s: State, s': State)
    requires Inv(h, s) && Enabled(s, SubmitOne) && s' == Apply(h, s, SubmitOne)
    requires var c := s.conns[s.loop.fd];
             Flying(h, s') == Flying(h, s) + multiset{Item(c.fd, c.id, h(s.loop.queue[0]))}
    ensures ConnInv(h, s', s.loop.fd)
  {
    hide Flying, Parse, Balanced, EncodeAll, Respond;
    var c, q := s.conns[s.loop.fd], s.loop.queue;
    InvOf(h, s, s.loop.fd);
    BalancedSubmit(h, Flying(h, s), c, q[0]);
    assert c.submitted + q == c.submitted + [q[0]] + q[1..];
  }

  lemma BalancedSubmit(h: Text -> Text, flying: multiset<Item>, c: Conn, m: Text)
    requires Balanced(h, flying, c)
    ensures var c' := c.(submitted := c.submitted + [m], inflight := c.inflight + 1);
            Balanced(h, flying + multiset{Item(c.fd, c.id, h(m))}, c') && c'.inflight > 0
  {
    hide ItemsOf, AcceptedItems;
    InflightIsUndelivered(h, flying, c);
    ItemsSnoc(h, c.fd, c.id, c.submitted, m);
  }

  lemma KeepsEof(h: Text -> Text, s: State)
    requires Inv(h, s) && Enabled(s, RecvEof)
    ensures Inv(h, Apply(h, s, RecvEof))
  {
    hide Flying, Parse, Balanced, InOrder, Tidy, ConnInv, Finished;
    var s', fd := Apply(h, s, RecvEof), s.loop.fd;
    FlyingMoved(h, s, RecvEof);
    if Finished(AfterEof(s.conns[fd])) {
      KeepsClose(h, s, s', fd);
    } else {
      EofConnInv(h, s, s');
      KeepsUpdate(h, s, s', fd);
    }
  }

  lemma EofConnInv(h: Text -> Text, s: State, s': State)
    requires Inv(h, s) && Enabled(s, RecvEof) && s' == Apply(h, s, RecvEof) && Flying(h, s') == Flying(h, s)
    requires !Finished(AfterEof(s.conns[s.loop.fd]))
    ensures ConnInv(h, s', s.loop.fd)
  {
    hide Flying, Parse, ItemsOf, AcceptedItems, EncodeAll;
    assert ConnInv(h, s, s.loop.fd);
    EofKeeps(s.conns[s.loop.fd]);
  }

  lemma KeepsWritable(h: Text -> Text, s: State, fd: int, next: Conn, ok: bool)
    requires Inv(h, s) && Enabled(s, Writable(fd, next, ok))
    ensures Inv(h, Apply(h, s, Writable(fd, next, ok)))
  {
    hide Flying, Parse, Balanced, InOrder, Tidy, ConnInv, WriteSpec;
    var step := Writable(fd, next, ok);
    var s' := Apply(h, s, step);
    FlyingMoved(h, s, step);
    if ok {
      WritableConnInv(h, s, s', fd, next);
      KeepsUpdate(h, s, s', fd);
    } else {
      KeepsClose(h, s, s', fd);
    }
  }

  lemma WritableConnInv(h: Text -> Text, s: State, s': State, fd: int, next: Conn)
    requires Inv(h, s) && fd in s.conns && WriteSpec(s.conns[fd], next, true)
    requires s' == s.(conns := s.conns[fd := next]) && Flying(h, s') == Flying(h, s)
    ensures ConnInv(h, s', fd) && next.id == s.conns[fd].id
  {
    hide Flying, Parse, ItemsOf, AcceptedItems, InOrder, Tidy, Finished;
    assert ConnInv(h, s, fd);
    WriteKeeps(s.conns[fd], next, true);
  }

  lemma KeepsDeliver(h: Text -> Text, s: State, next: Conn, ok: bool)
    requires Inv(h, s) && Enabled(s, DeliverOne(next, ok))
    ensures Inv(h, Apply(h, s, DeliverOne(next, ok)))
  {
    hide Flying, Parse, Balanced, InOrder, Tidy, ConnInv, SendSpec, Finished;
    var step, item := DeliverOne(next, ok), s.loop.batch[0];
    var s' := Apply(h, s, step);
    FlyingDelivered(h, s, next, ok);
    if Addressed(s, item) {
      if ok && !Finished(next) {
        DeliverConnInv(h, s, s', next);
        KeepsUpdate(h, s, s', item.fd);
      } else {
        forall g | g in s'.conns
          ensures ConnInv(h, s', g)
        {
          Untouched(h, s, s', g);
        }
      }
    } else {
      forall g | g in s'.conns
        ensures ConnInv(h, s', g)
      {
        StrayItem(h, s, g, item);
        Untouched(h, s, s', g);
      }
    }
  }

  /** An item that is not addressed belongs to no live connection. */
  lemma StrayItem(h: Text -> Text, s: State, fd: int, item: Item)
    requires fd in s.conns && ConnInv(h, s, fd) && item in Flying(h, s) && !Addressed(s, item)
    ensures s.conns[fd].id != item.id
  {
    hide Flying, Parse, InOrder, Tidy, Balanced;
    if s.conns[fd].id == item.id {
      FlyingBelongs(h, Flying(h, s), s.conns[fd], item);
    }
  }

  lemma DeliverConnInv(h: Text -> Text, s: State, s': State, next: Conn)
    requires Inv(h, s) && s.loop.Delivering? && s.loop.batch != [] && Addressed(s, s.loop.batch[0])
    requires var item := s.loop.batch[0];
             && SendSpec(Counted(s.conns[item.fd]), item.resp, next, true) && !Finished(next)
             && s' == s.(conns := s.conns[item.fd := next], loop := Delivering(s.loop.batch[1..]))
             && item in Flying(h, s) && Flying(h, s') == Flying(h, s) - multiset{item}
    ensures ConnInv(h, s', s.loop.batch[0].fd) && next.id == s.loop.batch[0].id
  {
    hide Flying, Parse, ItemsOf, AcceptedItems, EncodeAll, Encode;
    var item := s.loop.batch[0];
    var c := s.conns[item.fd];
    assert ConnInv(h, s, item.fd);
    assert InOrder(Counted(c));
    SendKeeps(Counted(c), item.resp, next, true);
    AcceptedSnoc(c.fd, c.id, c.accepted, item.resp);
  }

  /** Every step of the loop, of a worker and of the kernel keeps the invariant. */
  lemma StepKeeps(h: Text -> Text, s: State, step: Step)
    requires Inv(h, s) && Enabled(s, step)
    ensures Inv(h, Apply(h, s, step))
  {
    hide Inv, Apply, ConnInv, Flying;
    match step {
      case Accept(fd) => KeepsAccept(h, s, fd);
      case RecvChunk(chunk) => KeepsRecv(h, s, chunk);
      case SubmitOne => KeepsSubmit(h, s);
      case RecvEof => KeepsEof(h, s);
      case Writable(fd, next, ok) => KeepsWritable(h, s, fd, next, ok);
      case DeliverOne(next, ok) => KeepsDeliver(h, s, next, ok);
      case RecvFails => KeepsHangup(h, s, step, s.loop.fd);
      case Hangup(fd) => KeepsHangup(h, s, step, fd);
      case _ => KeepsQuiet(h, s, step);
    }
  }

  lemma KeepsHangup(h: Text -> Text, s: State, step: Step, fd: int)
    requires Inv(h, s) && Enabled(s, step)
    requires (step == RecvFails && fd == s.loop.fd) || step == Hangup(fd)
    ensures Inv(h, Apply(h, s, step))
  {
    hide Flying, ConnInv;
    FlyingMoved(h, s, step);
    KeepsClose(h, s, Apply(h, s, step), fd);
  }

  // ---------- whole runs ----------

  ghost predicate Run(h: Text -> Text, s: State, steps: seq<Step>, s': State)
    decreases |steps|
  {
    if steps == [] then s' == s
    else Enabled(s, steps[0]) && Run(h, Apply(h, s, steps[0]), steps[1..], s')
  }

  lemma InitHolds(h: Text -> Text, s: State)
    requires Init(s)
    ensures Inv(h, s)
  {
    NothingRuns(h, s.workers);
  }

  lemma {:induction false} NothingRuns(h: Text -> Text, ws: seq<Worker>)
    requires forall i :: 0 <= i < |ws| ==> ws[i] == Waiting
    ensures RunningItems(h, ws) == multiset{}
  {
    if ws != [] {
      NothingRuns(h, ws[1..]);
    }
  }

  lemma {:induction false} RunKeeps(h: Text -> Text, s: State, steps: seq<Step>, s': State)
    requires Inv(h, s) && Run(h, s, steps, s')
    ensures Inv(h, s')
    decreases |steps|
  {
    hide Inv, Apply, Enabled;
    if steps != [] {
      StepKeeps(h, s, steps[0]);
      RunKeeps(h, Apply(h, s, steps[0]), steps[1..], s');
    }
  }

  lemma {:induction false} RunSnoc(h: Text -> Text, s: State, steps: seq<Step>, s1: State, step: Step)
    requires Run(h, s, steps, s1) && Enabled(s1, step)
    ensures Run(h, s, steps + [step], Apply(h, s1, step))
    decreases |steps|
  {
    hide Apply, Enabled;
    if steps == [] {
      RunOne(h, s, step);
      assert steps + [step] == [step];
    } else {
      assert (steps + [step])[1..] == steps[1..] + [step];
      RunSnoc(h, Apply(h, s, steps[0]), steps[1..], s1, step);
    }
  }

  /** The last step of a run. */
  lemma {:induction false} RunSplit(h: Text -> Text, s: State, init: seq<Step>, last: Step, s': State)
    returns (mid: State)
    requires Run(h, s, init + [last], s')
    ensures Run(h, s, init, mid) && Enabled(mid, last) && s' == Apply(h, mid, last)
    decreases |init|
  {
    hide Apply, Enabled;
    if init == [] {
      mid := s;
      assert ([] + [last])[1..] == [];
    } else {
      assert (init + [last])[1..] == init[1..] + [last];
      mid := RunSplit(h, Apply(h, s, init[0]), init[1..], last, s');
    }
  }

  lemma RunOne(h: Text -> Text, s: State, step: Step)
    requires Enabled(s, step)
    ensures Run(h, s, [step], Apply(h, s, step))
  {
    hide Apply, Enabled;
    assert Run(h, Apply(h, s, step), [], Apply(h, s, step));
  }

  lemma RunNone(h: Text -> Text, s: State)
    ensures Run(h, s, [], s)
  {
  }

  // ---------- what it means ----------

  /** The pipeline ledger, for every connection alive after any run: the handler's results for its submitted requests
      are its accepted responses and what is in flight under its id; inflight counts the undelivered ones; nothing it
      accepted came from another connection, even if its descriptor was used before. */
  lemma Ledger(h: Text -> Text, s0: State, steps: seq<Step>, s: State, fd: int)
    requires Init(s0) && Run(h, s0, steps, s) && fd in s.conns
    ensures var c := s.conns[fd];
            var all, gone := ItemsOf(h, fd, c.id, c.submitted), AcceptedItems(fd, c.id, c.accepted);
            && (forall x: Item :: x.id == c.id ==> all[x] == gone[x] + Flying(h, s)[x])
            && c.inflight == |all - gone| >= 0
            && (forall r :: r in c.accepted ==> exists m :: m in c.submitted && r == h(m))
  {
    hide Flying, Parse, InOrder, Tidy, ItemsOf, AcceptedItems, Inv, Run;
    InitHolds(h, s0);
    RunKeeps(h, s0, steps, s);
    LedgerHere(h, s, fd);
  }

  lemma LedgerHere(h: Text -> Text, s: State, fd: int)
    requires Inv(h, s) && fd in s.conns
    ensures var c := s.conns[fd];
            var all, gone := ItemsOf(h, fd, c.id, c.submitted), AcceptedItems(fd, c.id, c.accepted);
            && (forall x: Item :: x.id == c.id ==> all[x] == gone[x] + Flying(h, s)[x])
            && c.inflight == |all - gone| >= 0
            && (forall r :: r in c.accepted ==> exists m :: m in c.submitted && r == h(m))
  {
    hide Flying, Parse, InOrder, Tidy, ItemsOf, AcceptedItems;
    var c := s.conns[fd];
    assert ConnInv(h, s, fd);
    InflightIsUndelivered(h, Flying(h, s), c);
    ItemsCarry(h, fd, c.id, c.submitted);
    forall r | r in c.accepted
      ensures exists m :: m in c.submitted && r == h(m)
    {
      AcceptedMember(fd, c.id, c.accepted, r);
      assert Item(fd, c.id, r) in ItemsOf(h, fd, c.id, c.submitted);
    }
  }

  lemma {:induction false} AcceptedMember(fd: int, id: nat, resps: seq<Text>, r: Text)
    requires r in resps
    ensures Item(fd, id, r) in AcceptedItems(fd, id, resps)
  {
    if resps[|resps| - 1] != r {
      AcceptedMember(fd, id, resps[..|resps| - 1], r);
    }
  }

  /** The stream of every connection alive after any run: requests are the messages of the received bytes in order;
      sent and pending bytes are the accepted responses in order; and as long as no response exceeds 1 MiB, what the
      client decodes is a prefix of them. Write interest is armed exactly while something is pending; read interest
      until the end of input is met, and then not while nothing is pending; and a connection whose peer has closed is
      kept only while there is something left to deliver. */
  lemma Streams(h: Text -> Text, s0: State, steps: seq<Step>, s: State, fd: int)
    requires Init(s0) && Run(h, s0, steps, s) && fd in s.conns
    ensures var c := s.conns[fd];
            && c.submitted + Unsubmitted(s, fd) == Parse(c.received).msgs && !Parse(c.received).broken
            && c.wire + c.pending == EncodeAll(c.accepted)
            && ((forall r :: r in c.accepted ==> |r| <= MESSAGE_MAX) ==>
                  !Parse(c.wire).broken && Parse(c.wire).msgs <= c.accepted)
            && (c.interest.writable <==> c.pending != []) && (!c.peerClose ==> c.interest.readable)
            && (c.peerClose && c.pending == [] ==> !c.interest.readable)
            && (c.peerClose ==> c.inflight > 0 || c.pending != [])
  {
    hide Flying, Parse, ItemsOf, AcceptedItems, Inv, Run, EncodeAll;
    InitHolds(h, s0);
    RunKeeps(h, s0, steps, s);
    assert ConnInv(h, s, fd) by { InvOf(h, s, fd); }
    var c := s.conns[fd];
    InflightIsUndelivered(h, Flying(h, s), c);
    if forall r :: r in c.accepted ==> |r| <= MESSAGE_MAX {
      ClientReads(c);
    }
  }

  // ---------- the end of input ----------

  /** The step by which connection id meets the end of its input. */
  predicate MeetsEof(s: State, step: Step, id: nat) {
    step.RecvEof? && s.loop.Reading? && s.loop.fd in s.conns && s.conns[s.loop.fd].id == id
  }

  /** Connection id meets the end of its input somewhere in the run that takes these steps from s. */
  ghost predicate MetEof(h: Text -> Text, s: State, steps: seq<Step>, id: nat)
    decreases |steps|
  {
    steps != [] && Enabled(s, steps[0]) &&
    (MeetsEof(s, steps[0], id) || MetEof(h, Apply(h, s, steps[0]), steps[1..], id))
  }

  ghost predicate Alive(s: State, id: nat) {
    exists fd :: fd in s.conns && s.conns[fd].id == id
  }

  /** Connection id is alive and knows that its peer has sent everything. */
  ghost predicate HalfClosed(s: State, id: nat) {
    exists fd :: fd in s.conns && s.conns[fd].id == id && s.conns[fd].peerClose
  }

  /** The connection that this step works on, and what it becomes unless it is closed. */
  lemma StepChanges(h: Text -> Text, s: State, step: Step)
    requires Inv(h, s) && Enabled(s, step)
    ensures var s' := Apply(h, s, step);
            && s.lastId <= s'.lastId
            && (forall fd :: fd in s'.conns ==>
                 if fd in s.conns && s'.conns[fd].id == s.conns[fd].id
                 then s'.conns[fd].peerClose <==> s.conns[fd].peerClose || MeetsEof(s, step, s.conns[fd].id)
                 else !s'.conns[fd].peerClose && s'.conns[fd].id > s.lastId)
  {
    hide Parse, Finished, Flying, Balanced, InOrder, Tidy, Rung, Respond, Encode;
  }

  lemma StepAlive(h: Text -> Text, s: State, step: Step, id: nat)
    requires Inv(h, s) && Enabled(s, step)
    requires var s' := Apply(h, s, step); Alive(s', id) || id > s'.lastId
    ensures Alive(s, id) || id > s.lastId
    ensures HalfClosed(Apply(h, s, step), id) <==> HalfClosed(s, id) || MeetsEof(s, step, id)
  {
    hide Apply, Enabled, ConnInv, Flying;
    StepChanges(h, s, step);
    assert forall fd :: fd in s.conns ==> s.conns[fd].id <= s.lastId by { IdsBound(h, s); }
    var s' := Apply(h, s, step);
    StepKeeps(h, s, step);
    IdsBound(h, s');
  }

  lemma IdsBound(h: Text -> Text, s: State)
    requires Inv(h, s)
    ensures forall fd :: fd in s.conns ==> s.conns[fd].id <= s.lastId
  {
    hide Flying, Balanced, InOrder, Tidy, Parse;
  }

  lemma {:induction false} EofHistory(h: Text -> Text, s: State, steps: seq<Step>, s': State, id: nat)
    requires Inv(h, s) && Run(h, s, steps, s') && Alive(s', id)
    ensures Alive(s, id) || id > s.lastId
    ensures HalfClosed(s', id) <==> HalfClosed(s, id) || MetEof(h, s, steps, id)
    decreases |steps|
  {
    hide Inv, Apply, Enabled, Alive, HalfClosed, MeetsEof;
    if steps != [] {
      var s1 := Apply(h, s, steps[0]);
      StepKeeps(h, s, steps[0]);
      EofHistory(h, s1, steps[1..], s', id);
      StepAlive(h, s, steps[0], id);
    }
  }

  /** The end of input is remembered and acted upon: a connection alive after any run knows that its peer has sent
      everything exactly if it met the end of its input on the way, and then it has something left to deliver. */
  lemma EofRemembered(h: Text -> Text, s0: State, steps: seq<Step>, s: State, fd: int)
    requires Init(s0) && Run(h, s0, steps, s) && fd in s.conns
    ensures var c := s.conns[fd];
            && (c.peerClose <==> MetEof(h, s0, steps, c.id))
            && (MetEof(h, s0, steps, c.id) ==> c.inflight > 0 || c.pending != [])
  {
    hide Inv, Run, MetEof, Parse, EncodeAll;
    var id := s.conns[fd].id;
    InitHolds(h, s0);
    RunKeeps(h, s0, steps, s);
    EofHistory(h, s0, steps, s, id);
    assert HalfClosed(s, id) <==> s.conns[fd].peerClose by { OneHolder(h, s, fd); }
    Streams(h, s0, steps, s, fd);
  }

  lemma OneHolder(h: Text -> Text, s: State, fd: int)
    requires Inv(h, s) && fd in s.conns
    ensures HalfClosed(s, s.conns[fd].id) <==> s.conns[fd].peerClose
  {
    hide ConnInv;
  }

  lemma InvOf(h: Text -> Text, s: State, fd: int)
    requires Inv(h, s) && fd in s.conns
    ensures ConnInv(h, s, fd)
  {
    hide ConnInv;
  }

  /** The three ways in which a connection is closed because everything is done. */
  predicate DrainClose(s: State, step: Step, fd: int, last: Conn) {
    fd in s.conns && Finished(last) &&
    match step
    case RecvEof => s.loop.Reading? && s.loop.fd == fd && last == AfterEof(s.conns[fd])
    case Writable(g, next, ok) => g == fd && last == next
    case DeliverOne(next, ok) =>
      s.loop.Delivering? && s.loop.batch != [] && ok && Addressed(s, s.loop.batch[0])
          && s.loop.batch[0].fd == fd && last == next
    case _ => false
  }

  /** Why a step closes the connection of fd. */
  predicate Cause(s: State, step: Step, fd: int)
    requires fd in s.conns
  {
    var c := s.conns[fd];
    match step
    case RecvChunk(chunk) => s.loop.Reading? && s.loop.fd == fd && Parse(c.received + chunk).broken
    case RecvEof => s.loop.Reading? && s.loop.fd == fd && c.inflight == 0 && c.pending == []
    case RecvFails => s.loop.Reading? && s.loop.fd == fd
    case Writable(g, next, ok) => g == fd && !ok
    case Hangup(g) => g == fd
    case DeliverOne(next, ok) =>
      && s.loop.Delivering? && s.loop.batch != [] && s.loop.batch[0].fd == fd && s.loop.batch[0].id == c.id
      && (!ok || (c.peerClose && c.inflight == 1 && next.pending == []))
    case _ => false
  }

  /** A connection is closed by these causes and by no others: a broken stream, a failed call, a hang-up, or an end of
      input behind which nothing is left to deliver. */
  lemma ClosedForCause(h: Text -> Text, s: State, step: Step, fd: int)
    requires Inv(h, s) && Enabled(s, step) && fd in s.conns
    ensures fd !in Apply(h, s, step).conns <==> Cause(s, step, fd)
  {
    hide Flying, Parse, Balanced, InOrder, Tidy, Rung, Respond, Encode;
  }

  /** A connection closed that way had every response to its submitted requests on the wire, complete and in order. */
  lemma DrainCloseComplete(h: Text -> Text, s: State, step: Step, fd: int, last: Conn)
    requires Inv(h, s) && Enabled(s, step) && DrainClose(s, step, fd, last)
    ensures fd !in Apply(h, s, step).conns
    ensures last.wire == EncodeAll(last.accepted)
    ensures ItemsOf(h, fd, last.id, last.submitted) == AcceptedItems(fd, last.id, last.accepted)
  {
    hide Flying, Parse, ItemsOf, AcceptedItems, EncodeAll, Tidy;
    var c := s.conns[fd];
    InvOf(h, s, fd);
    if step.DeliverOne? {
      var item := s.loop.batch[0];
      FlyingDelivered(h, s, step.next, step.ok);
      SendKeeps(Counted(c), item.resp, last, true);
      AcceptedSnoc(c.fd, c.id, c.accepted, item.resp);
      AllDelivered(h, Flying(h, s) - multiset{item}, last);
    } else {
      assert InOrder(last);
      AllDelivered(h, Flying(h, s), last);
    }
    assert last.wire + [] == last.wire;
  }

  lemma AllDelivered(h: Text -> Text, flying: multiset<Item>, c: Conn)
    requires Balanced(h, flying, c) && c.inflight == 0
    ensures ItemsOf(h, c.fd, c.id, c.submitted) == AcceptedItems(c.fd, c.id, c.accepted)
  {
    hide ItemsOf, AcceptedItems;
    InflightIsUndelivered(h, flying, c);
    var all, gone := ItemsOf(h, c.fd, c.id, c.submitted), AcceptedItems(c.fd, c.id, c.accepted);
    assert all == gone + (all - gone);
  }

  // ---------- the wake-up ----------

  /** Responses that wait are announced: the counter is up, or a pusher has still to write it, or the loop is between
      reading it and draining. Everything pushed is drained once and in order. */
  ghost predicate Announced(s: State) {
    && (s.done != [] ==>
          s.bell > 0 || s.loop == BellRead || exists w :: 0 <= w < |s.workers| && s.workers[w] == Ringing)
    && s.pushed == s.drained + s.done
  }

  lemma AnnouncedKept(h: Text -> Text, s: State, step: Step)
    requires Announced(s) && Enabled(s, step)
    ensures Announced(Apply(h, s, step))
  {
    hide Parse, SendSpec, WriteSpec, Finished, AfterEof;
    var s' := Apply(h, s, step);
    match step {
      case WorkerPushes(w) =>
        assert s'.workers[w] == Ringing;
        assert s.pushed + [Respond(h, s.workers[w].task)] == s.drained + (s.done + [Respond(h, s.workers[w].task)]);
      case WorkerRings(w) =>
        assert s'.bell > 0;
      case WorkerTakes(w) =>
        if exists v :: 0 <= v < |s.workers| && s.workers[v] == Ringing {
          var v :| 0 <= v < |s.workers| && s.workers[v] == Ringing;
          assert s'.workers[v] == Ringing;
        }
      case Drain => assert s.drained + s.done + [] == s.drained + s.done;
      case _ =>
    }
  }

  /** No lost wake-up, in every interleaving. */
  lemma {:induction false} NoLostWakeup(h: Text -> Text, s: State, steps: seq<Step>, s': State)
    requires (Init(s) || Announced(s)) && Run(h, s, steps, s')
    ensures Announced(s')
    decreases |steps|
  {
    hide Apply, Enabled;
    if steps != [] {
      AnnouncedKept(h, s, steps[0]);
      NoLostWakeup(h, Apply(h, s, steps[0]), steps[1..], s');
    }
  }
}
