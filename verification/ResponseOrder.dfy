/** In which order a client gets its responses: with one worker in the order of its requests, with more in any. */
module ResponseOrder {
  import opened Bytes
  import opened Donequeue
  import opened Message
  import opened NetConnection
  import opened Pipeline
  import opened PipelineProofs
  import opened ThreadPool

  function Results(h: Text -> Text, msgs: seq<Text>): (rs: seq<Text>)
    ensures |rs| == |msgs|
  {
    seq(|msgs|, i requires 0 <= i < |msgs| => h(msgs[i]))
  }

  function TaskItems(h: Text -> Text, tasks: seq<Task>): (items: seq<Item>)
    ensures |items| == |tasks|
  {
    seq(|tasks|, i requires 0 <= i < |tasks| => Respond(h, tasks[i]))
  }

  function WorkerLine(h: Text -> Text, w: Worker): seq<Item> {
    if w.Running? then [Respond(h, w.task)] else []
  }

  function WorkersLine(h: Text -> Text, ws: seq<Worker>): seq<Item> {
    if ws == [] then [] else WorkerLine(h, ws[0])
  }

  /** With at most one worker everything in flight stands in one line. */
  function Line(h: Text -> Text, s: State): seq<Item>
    requires |s.workers| <= 1
  {
    Batch(s.loop) + s.done + WorkersLine(h, s.workers) + TaskItems(h, s.tasks)
  }

  /** The responses in the line that are for this connection. */
  function Mine(id: nat, line: seq<Item>): seq<Text> {
    if line == [] then []
    else Mine(id, line[..|line| - 1]) + (if line[|line| - 1].id == id then [line[|line| - 1].resp] else [])
  }

  /** What was accepted and what stands in line are the results of the requests, in their order. */
  predicate InLine(h: Text -> Text, line: seq<Item>, c: Conn) {
    Results(h, c.submitted) == c.accepted + Mine(c.id, line)
  }

  ghost predicate Ordered(h: Text -> Text, s: State) {
    |s.workers| <= 1 && forall fd :: fd in s.conns ==> InLine(h, Line(h, s), s.conns[fd])
  }

  // ---------- the line ----------

  lemma MineSnoc(id: nat, line: seq<Item>, x: Item)
    ensures Mine(id, line + [x]) == Mine(id, line) + (if x.id == id then [x.resp] else [])
  {
    assert (line + [x])[..|line|] == line;
  }

  lemma {:induction false} MineCons(id: nat, x: Item, line: seq<Item>)
    ensures Mine(id, [x] + line) == (if x.id == id then [x.resp] else []) + Mine(id, line)
  {
    if line == [] {
      assert [x] + line == [] + [x];
      MineSnoc(id, [], x);
    } else {
      var init, last := line[..|line| - 1], line[|line| - 1];
      assert [x] + line == ([x] + init) + [last];
      MineSnoc(id, [x] + init, last);
      MineCons(id, x, init);
    }
  }

  lemma {:induction false} MineNone(id: nat, line: seq<Item>)
    requires forall x :: x in line ==> x.id != id
    ensures Mine(id, line) == []
  {
    if line != [] {
      MineNone(id, line[..|line| - 1]);
    }
  }

  lemma {:induction false} TasksAreQueued(h: Text -> Text, tasks: seq<Task>)
    ensures multiset(TaskItems(h, tasks)) == QueuedItems(h, tasks)
  {
    if tasks != [] {
      TasksAreQueued(h, tasks[1..]);
      assert TaskItems(h, tasks) == [Respond(h, tasks[0])] + TaskItems(h, tasks[1..]);
    }
  }

  /** The line is what is in flight. */
  lemma LineIsFlying(h: Text -> Text, s: State)
    requires |s.workers| <= 1
    ensures multiset(Line(h, s)) == Flying(h, s)
  {
    hide TaskItems, QueuedItems, Respond;
    TasksAreQueued(h, s.tasks);
    OneWorkerRuns(h, s.workers);
    var a, b, c := multiset(Batch(s.loop)), multiset(s.done), multiset(WorkersLine(h, s.workers));
    var d := QueuedItems(h, s.tasks);
    assert a + b + c + d == d + c + b + a;
  }

  lemma OneWorkerRuns(h: Text -> Text, ws: seq<Worker>)
    requires |ws| <= 1
    ensures RunningItems(h, ws) == multiset(WorkersLine(h, ws))
  {
    if ws != [] {
      assert RunningItems(h, ws) == WorkerItems(h, ws[0]) + RunningItems(h, []);
    }
  }

  lemma LineMoved(h: Text -> Text, s: State, step: Step)
    requires |s.workers| <= 1 && Enabled(s, step) && Moves(step)
    ensures |Apply(h, s, step).workers| <= 1 && Line(h, Apply(h, s, step)) == Line(h, s)
  {
    hide WriteSpec, Parse, Rung, Finished, TaskItems, WorkersLine;
    match step {
      case WorkerTakes(w) => LineTaken(h, s, w);
      case WorkerPushes(w) => LinePushed(h, s, w);
      case WorkerRings(w) =>
        assert s.workers == [Ringing] && s.workers[w := Waiting] == [Waiting];
        Resting(h);
      case _ =>
    }
  }

  lemma Resting(h: Text -> Text)
    ensures WorkersLine(h, [Waiting]) == WorkersLine(h, [Ringing]) == []
  {
  }

  lemma LineTaken(h: Text -> Text, s: State, w: nat)
    requires |s.workers| <= 1 && Enabled(s, WorkerTakes(w))
    ensures Line(h, Apply(h, s, WorkerTakes(w))) == Line(h, s)
  {
    hide Respond;
    assert TaskItems(h, s.tasks) == [Respond(h, s.tasks[0])] + TaskItems(h, s.tasks[1..]);
  }

  lemma LinePushed(h: Text -> Text, s: State, w: nat)
    requires |s.workers| <= 1 && Enabled(s, WorkerPushes(w))
    ensures Line(h, Apply(h, s, WorkerPushes(w))) == Line(h, s)
  {
    hide Respond, TaskItems;
  }

  lemma LineSubmitted(h: Text -> Text, s: State)
    requires |s.workers| <= 1 && Enabled(s, SubmitOne)
    ensures var c := s.conns[s.loop.fd];
            Line(h, Apply(h, s, SubmitOne)) == Line(h, s) + [Item(c.fd, c.id, h(s.loop.queue[0]))]
  {
    var c := s.conns[s.loop.fd];
    var t := Task(c.fd, c.id, s.loop.queue[0]);
    assert TaskItems(h, s.tasks + [t]) == TaskItems(h, s.tasks) + [Respond(h, t)];
  }

  lemma LineDelivered(h: Text -> Text, s: State, next: Conn, ok: bool)
    requires |s.workers| <= 1 && Enabled(s, DeliverOne(next, ok))
    ensures var s' := Apply(h, s, DeliverOne(next, ok));
            |s'.workers| <= 1 && Line(h, s) == [s.loop.batch[0]] + Line(h, s')
  {
    hide SendSpec, Finished, TaskItems, WorkersLine;
    assert s.loop.batch == [s.loop.batch[0]] + s.loop.batch[1..];
  }

  // ---------- one step ----------

  lemma InLineSubmit(h: Text -> Text, line: seq<Item>, c: Conn, m: Text)
    requires InLine(h, line, c)
    ensures InLine(h, line + [Item(c.fd, c.id, h(m))], c.(submitted := c.submitted + [m], inflight := c.inflight + 1))
  {
    MineSnoc(c.id, line, Item(c.fd, c.id, h(m)));
    assert Results(h, c.submitted + [m]) == Results(h, c.submitted) + [h(m)];
  }

  lemma InLineDeliver(h: Text -> Text, item: Item, line: seq<Item>, c: Conn, c': Conn)
    requires InLine(h, [item] + line, c) && item.id == c.id
    requires c'.submitted == c.submitted && c'.id == c.id && c'.accepted == c.accepted + [item.resp]
    ensures InLine(h, line, c')
  {
    hide Results;
    MineCons(c.id, item, line);
  }

  /** Steps that submit nothing and deliver nothing. */
  lemma KeepsMoves(h: Text -> Text, s: State, step: Step)
    requires Inv(h, s) && Ordered(h, s) && Enabled(s, step) && Moves(step)
    ensures Ordered(h, Apply(h, s, step))
  {
    hide WriteSpec, Parse, Rung, Finished, Line, InLine, ConnInv, Flying;
    var s' := Apply(h, s, step);
    LineMoved(h, s, step);
    forall fd | fd in s'.conns
      ensures InLine(h, Line(h, s'), s'.conns[fd])
    {
      if step.Accept? && fd == step.fd {
        LineIsFlying(h, s);
        NewInLine(h, s, fd);
      } else {
        SameOrder(h, s, step, fd);
      }
    }
  }

  lemma SameOrder(h: Text -> Text, s: State, step: Step, fd: int)
    requires Enabled(s, step) && Moves(step) && fd in Apply(h, s, step).conns && !(step.Accept? && fd == step.fd)
    requires fd in s.conns ==> |s.workers| <= 1 && InLine(h, Line(h, s), s.conns[fd])
    ensures fd in s.conns && InLine(h, Line(h, s), Apply(h, s, step).conns[fd])
  {
    hide Parse, Rung, Finished, Line, Results, Mine;
  }

  lemma NewInLine(h: Text -> Text, s: State, fd: int)
    requires |s.workers| <= 1 && multiset(Line(h, s)) == Flying(h, s)
    requires forall x :: x in Flying(h, s) ==> x.id <= s.lastId
    ensures InLine(h, Line(h, s), NewConn(fd, s.lastId + 1))
  {
    hide Line, Flying;
    forall x | x in Line(h, s)
      ensures x.id != s.lastId + 1
    {
      assert x in multiset(Line(h, s));
    }
    MineNone(s.lastId + 1, Line(h, s));
  }

  lemma KeepsSubmitOrder(h: Text -> Text, s: State)
    requires Inv(h, s) && Ordered(h, s) && Enabled(s, SubmitOne)
    ensures Ordered(h, Apply(h, s, SubmitOne))
  {
    hide Line, ConnInv, Flying, Results;
    var s', me := Apply(h, s, SubmitOne), s.loop.fd;
    var item := Item(s.conns[me].fd, s.conns[me].id, h(s.loop.queue[0]));
    LineSubmitted(h, s);
    forall fd | fd in s'.conns
      ensures InLine(h, Line(h, s'), s'.conns[fd])
    {
      if fd == me {
        InLineSubmit(h, Line(h, s), s.conns[fd], s.loop.queue[0]);
      } else {
        assert s.conns[fd].id != s.conns[me].id;
        MineSnoc(s.conns[fd].id, Line(h, s), item);
      }
    }
  }

  lemma KeepsDeliverOrder(h: Text -> Text, s: State, next: Conn, ok: bool)
    requires Inv(h, s) && Ordered(h, s) && Enabled(s, DeliverOne(next, ok))
    ensures Ordered(h, Apply(h, s, DeliverOne(next, ok)))
  {
    hide Line, ConnInv, Flying, Results, InLine, SendSpec, Finished, Counted;
    var s', item := Apply(h, s, DeliverOne(next, ok)), s.loop.batch[0];
    LineDelivered(h, s, next, ok);
    FlyingDelivered(h, s, next, ok);
    forall fd | fd in s'.conns
      ensures InLine(h, Line(h, s'), s'.conns[fd])
    {
      if Addressed(s, item) && fd == item.fd {
        AcceptedLast(s, item, next);
        InLineDeliver(h, item, Line(h, s'), s.conns[fd], next);
      } else {
        if !Addressed(s, item) {
          StrayItem(h, s, fd, item);
        }
        NotMine(h, s.conns[fd], item, Line(h, s'));
      }
    }
  }

  lemma AcceptedLast(s: State, item: Item, next: Conn)
    requires Addressed(s, item) && SendSpec(Counted(s.conns[item.fd]), item.resp, next, true)
    ensures var c := s.conns[item.fd];
            next.submitted == c.submitted && next.id == c.id && next.accepted == c.accepted + [item.resp]
  {
    hide Encode;
  }

  lemma NotMine(h: Text -> Text, c: Conn, item: Item, line: seq<Item>)
    requires InLine(h, [item] + line, c) && item.id != c.id
    ensures InLine(h, line, c)
  {
    hide Results;
    MineCons(c.id, item, line);
  }

  lemma {:induction false} RunKeepsOrder(h: Text -> Text, s: State, steps: seq<Step>, s': State)
    requires Inv(h, s) && Ordered(h, s) && Run(h, s, steps, s')
    ensures Ordered(h, s')
    decreases |steps|
  {
    hide Inv, Apply, Enabled, Ordered;
    if steps != [] {
      match steps[0] {
        case SubmitOne => KeepsSubmitOrder(h, s);
        case DeliverOne(next, ok) => KeepsDeliverOrder(h, s, next, ok);
        case _ => KeepsMoves(h, s, steps[0]);
      }
      StepKeeps(h, s, steps[0]);
      RunKeepsOrder(h, Apply(h, s, steps[0]), steps[1..], s');
    }
  }

  /** With at most one worker the responses of every live connection are, after any run, the handler's results for its
      first requests in their order. */
  lemma OneWorkerInOrder(h: Text -> Text, s0: State, steps: seq<Step>, s: State, fd: int)
    requires Init(s0) && |s0.workers| <= 1 && Run(h, s0, steps, s) && fd in s.conns
    ensures s.conns[fd].accepted <= Results(h, s.conns[fd].submitted)
  {
    hide Inv, Run, Line, Results;
    InitHolds(h, s0);
    RunKeepsOrder(h, s0, steps, s);
  }

  // ---------- several workers ----------

  lemma Go(h: Text -> Text, s0: State, steps: seq<Step>, s: State, step: Step, s': State)
    requires Run(h, s0, steps, s) && Enabled(s, step) && Apply(h, s, step) == s'
    ensures Run(h, s0, steps + [step], s')
  {
    hide Run, Enabled, Apply;
    RunSnoc(h, s0, steps, s, step);
  }

  /** The server with n workers before anything happened, and its only connection with two requests submitted. */
  function Start(n: nat): State {
    State(map[], 0, [], seq(n, _ => Waiting), [], 0, Idle, [], [])
  }

  function Asked(fd: int, m1: Text, m2: Text): Conn {
    NewConn(fd, 1).(received := EncodeAll([m1, m2]), submitted := [m1, m2], inflight := 2)
  }

  function Arrived(n: nat, fd: int, m1: Text, m2: Text): State {
    Start(n).(conns := map[fd := Asked(fd, m1, m2)], lastId := 1, tasks := [Task(fd, 1, m1), Task(fd, 1, m2)])
  }

  lemma Arrives(h: Text -> Text, n: nat, fd: int, m1: Text, m2: Text) returns (steps: seq<Step>)
    requires |m1| <= MESSAGE_MAX && |m2| <= MESSAGE_MAX
    ensures Run(h, Start(n), steps, Arrived(n, fd, m1, m2))
  {
    hide Run, Parse, EncodeAll;
    var chunk, s0, c0 := EncodeAll([m1, m2]), Start(n), NewConn(fd, 1);
    TwoParsed(m1, m2);
    var s1 := s0.(conns := map[fd := c0], lastId := 1);
    RunNone(h, s0);
    Go(h, s0, [], s0, Accept(fd), s1);
    var s2 := s1.(loop := Reading(fd, []));
    Go(h, s0, [] + [Accept(fd)], s1, BeginRead(fd), s2);
    var s3 := s1.(conns := map[fd := c0.(received := chunk)], loop := Reading(fd, [m1, m2]));
    assert [] + chunk == chunk && [m1, m2][0..] == [m1, m2];
    Go(h, s0, [] + [Accept(fd)] + [BeginRead(fd)], s2, RecvChunk(chunk), s3);
    steps := SubmitsBoth(h, n, s0, [] + [Accept(fd)] + [BeginRead(fd)] + [RecvChunk(chunk)], s3, fd, m1, m2);
  }

  lemma TwoParsed(m1: Text, m2: Text)
    requires |m1| <= MESSAGE_MAX && |m2| <= MESSAGE_MAX
    ensures EncodeAll([m1, m2]) != [] && Parse(EncodeAll([m1, m2])) == Parsed([m1, m2], [], false)
  {
    hide Parse, Encode;
    var msgs := [m1, m2];
    assert msgs == [m1] + [m2];
    ParseEncoded(msgs, []);
    EmptyParse();
    EncodeAllSnoc([m1], m2);
    EncodeNotEmpty(m2);
    assert EncodeAll(msgs) + [] == EncodeAll(msgs) && msgs + [] == msgs;
  }

  lemma SubmitsBoth(h: Text -> Text, n: nat, s0: State, steps: seq<Step>, s3: State, fd: int, m1: Text, m2: Text)
    returns (more: seq<Step>)
    requires Run(h, s0, steps, s3)
    requires s3 == Start(n).(conns := map[fd := NewConn(fd, 1).(received := EncodeAll([m1, m2]))], lastId := 1,
                            loop := Reading(fd, [m1, m2]))
    ensures Run(h, s0, more, Arrived(n, fd, m1, m2))
  {
    hide Run, EncodeAll;
    var c, t1, t2 := s3.conns[fd], Task(fd, 1, m1), Task(fd, 1, m2);
    assert [m1, m2][1..] == [m2] && [m2][1..] == [] && [] + [m1] == [m1] && [m1] + [m2] == [m1, m2];
    assert [] + [t1] == [t1] && [t1] + [t2] == [t1, t2];
    var s4 := s3.(conns := map[fd := c.(submitted := [m1], inflight := 1)], tasks := [t1], loop := Reading(fd, [m2]));
    Go(h, s0, steps, s3, SubmitOne, s4);
    var s5 := Arrived(n, fd, m1, m2).(loop := Reading(fd, []));
    Go(h, s0, steps + [SubmitOne], s4, SubmitOne, s5);
    Go(h, s0, steps + [SubmitOne] + [SubmitOne], s5, RecvDry, Arrived(n, fd, m1, m2));
    more := steps + [SubmitOne] + [SubmitOne] + [RecvDry];
  }

  /** The second worker is done first. */
  function Overtaken(h: Text -> Text, n: nat, fd: int, m1: Text, m2: Text): State
    requires n >= 2
  {
    var items := [Item(fd, 1, h(m2)), Item(fd, 1, h(m1))];
    var ws := Start(n).workers[0 := Ringing][1 := Ringing];
    Arrived(n, fd, m1, m2).(tasks := [], workers := ws, done := items, pushed := items)
  }

  lemma Overtakes(h: Text -> Text, n: nat, s0: State, steps: seq<Step>, fd: int, m1: Text, m2: Text)
    returns (more: seq<Step>)
    requires n >= 2 && Run(h, s0, steps, Arrived(n, fd, m1, m2))
    ensures Run(h, s0, more, Overtaken(h, n, fd, m1, m2))
  {
    hide Run, EncodeAll, Asked;
    var s6, t1, t2 := Arrived(n, fd, m1, m2), Task(fd, 1, m1), Task(fd, 1, m2);
    var s7 := s6.(tasks := [t2], workers := Start(n).workers[0 := Running(t1)]);
    assert [t1, t2][1..] == [t2] && [t2][1..] == [];
    Go(h, s0, steps, s6, WorkerTakes(0), s7);
    var s8 := s6.(tasks := [], workers := Start(n).workers[0 := Running(t1)][1 := Running(t2)]);
    Go(h, s0, steps + [WorkerTakes(0)], s7, WorkerTakes(1), s8);
    more := PushesBoth(h, s0, steps + [WorkerTakes(0)] + [WorkerTakes(1)], s8, t1, t2);
    assert s8.workers[1 := Ringing][0 := Ringing] == Start(n).workers[0 := Ringing][1 := Ringing];
  }

  lemma PushesBoth(h: Text -> Text, s0: State, steps: seq<Step>, s8: State, t1: Task, t2: Task)
    returns (more: seq<Step>)
    requires Run(h, s0, steps, s8) && s8.done == s8.pushed == []
    requires |s8.workers| >= 2 && s8.workers[0] == Running(t1) && s8.workers[1] == Running(t2)
    ensures var items := [Respond(h, t2), Respond(h, t1)];
            Run(h, s0, more,
                s8.(workers := s8.workers[1 := Ringing][0 := Ringing], done := items, pushed := items))
  {
    hide Run, Respond;
    var i1, i2, ws := Respond(h, t1), Respond(h, t2), s8.workers[1 := Ringing];
    var s9 := s8.(workers := ws, done := [i2], pushed := [i2]);
    assert [] + [i2] == [i2] && [i2] + [i1] == [i2, i1];
    Go(h, s0, steps, s8, WorkerPushes(1), s9);
    var s10 := s8.(workers := ws[0 := Ringing], done := [i2, i1], pushed := [i2, i1]);
    Go(h, s0, steps + [WorkerPushes(1)], s9, WorkerPushes(0), s10);
    more := steps + [WorkerPushes(1)] + [WorkerPushes(0)];
  }

  /** One more response of the only connection, taken whole by the kernel. */
  lemma Answered(h: Text -> Text, s0: State, steps: seq<Step>, s: State, fd: int, item: Item, rest: seq<Item>)
    returns (more: seq<Step>, next: Conn)
    requires Run(h, s0, steps, s) && s.loop == Delivering([item] + rest) && Addressed(s, item) && item.fd == fd
    requires var c := s.conns[fd]; c.pending == [] && !c.peerClose
    ensures Run(h, s0, more, s.(conns := s.conns[fd := next], loop := Delivering(rest)))
    ensures var c := s.conns[fd];
            && next.id == c.id && next.pending == [] && !next.peerClose
            && next.submitted == c.submitted && next.accepted == c.accepted + [item.resp]
  {
    hide Run, Encode;
    var c, data := Counted(s.conns[fd]), Encode(item.resp);
    next := c.(wire := c.wire + data[..|data|], pending := data[|data|..], interest := c.interest,
               accepted := c.accepted + [item.resp]);
    SentDirectly(c, item.resp, |data|, c.interest);
    assert ([item] + rest)[1..] == rest;
    Go(h, s0, steps, s, DeliverOne(next, true), s.(conns := s.conns[fd := next], loop := Delivering(rest)));
    more := steps + [DeliverOne(next, true)];
  }

  /** With more than one worker, however many, the order may change: for any two requests there is a run after which
      the client got the second answer first. */
  lemma SeveralWorkersReorder(h: Text -> Text, n: nat, fd: int, m1: Text, m2: Text)
    returns (s0: State, steps: seq<Step>, s: State)
    requires n >= 2 && |m1| <= MESSAGE_MAX && |m2| <= MESSAGE_MAX
    ensures Init(s0) && |s0.workers| == n && Run(h, s0, steps, s) && fd in s.conns
    ensures s.conns[fd].submitted == [m1, m2] && s.conns[fd].accepted == [h(m2), h(m1)]
  {
    hide Run, EncodeAll;
    var i1, i2 := Item(fd, 1, h(m1)), Item(fd, 1, h(m2));
    s0 := Start(n);
    steps := Arrives(h, n, fd, m1, m2);
    steps := Overtakes(h, n, s0, steps, fd, m1, m2);
    s := Overtaken(h, n, fd, m1, m2);
    var rung := s.(bell := 0, loop := BellRead);
    Go(h, s0, steps, s, ReadBell, rung);
    var batch := rung.(loop := Delivering([i2, i1]), done := [], drained := [i2, i1]);
    assert [] + [i2, i1] == [i2, i1];
    Go(h, s0, steps + [ReadBell], rung, Drain, batch);
    assert [i2, i1] == [i2] + [i1] && [i1] == [i1] + [];
    var more, next := Answered(h, s0, steps + [ReadBell] + [Drain], batch, fd, i2, [i1]);
    s := batch.(conns := batch.conns[fd := next], loop := Delivering([i1]));
    steps, next := Answered(h, s0, more, s, fd, i1, []);
    s := s.(conns := s.conns[fd := next], loop := Delivering([]));
  }

  // ---------- what is guaranteed ----------

  /** After every run of a server with n workers, every live connection got the results of its first requests in their
      order. */
  ghost predicate KeepsOrder(h: Text -> Text, n: nat) {
    forall s0, steps, s, fd | Init(s0) && |s0.workers| == n && Run(h, s0, steps, s) && fd in s.conns ::
      s.conns[fd].accepted <= Results(h, s.conns[fd].submitted)
  }

  /** That is guaranteed exactly for at most one worker, unless the handler answers all requests alike. */
  lemma OrderGuaranteed(h: Text -> Text, n: nat)
    ensures KeepsOrder(h, n) <==> n <= 1 || AnswersAlike(h)
  {
    hide Run, Results, Init;
    if n <= 1 || AnswersAlike(h) {
      forall s0, steps, s, fd | Init(s0) && |s0.workers| == n && Run(h, s0, steps, s) && fd in s.conns
        ensures s.conns[fd].accepted <= Results(h, s.conns[fd].submitted)
      {
        if n <= 1 {
          OneWorkerInOrder(h, s0, steps, s, fd);
        } else {
          AlikeInOrder(h, s0, steps, s, fd);
        }
      }
    } else {
      var m1, m2 :| Requestable(m1) && Requestable(m2) && h(m1) != h(m2);
      var s0, steps, s := SeveralWorkersReorder(h, n, 0, m1, m2);
      TwoResults(h, m1, m2);
      assert [h(m2), h(m1)][0] != [h(m1), h(m2)][0];
    }
  }

  predicate Requestable(m: Text) {
    |m| <= MESSAGE_MAX
  }

  ghost predicate AnswersAlike(h: Text -> Text) {
    forall m1, m2 :: Requestable(m1) && Requestable(m2) ==> h(m1) == h(m2)
  }

  lemma TwoResults(h: Text -> Text, m1: Text, m2: Text)
    ensures Results(h, [m1, m2]) == [h(m1), h(m2)]
  {
  }

  lemma {:induction false} ParsedBounded(s: Text)
    ensures forall m :: m in Parse(s).msgs ==> |m| <= MESSAGE_MAX
    decreases |s|
  {
    if !BadHead(s) && WholeMessage(s) {
      ParsedBounded(Behind(s));
    }
  }

  lemma AlikeInOrder(h: Text -> Text, s0: State, steps: seq<Step>, s: State, fd: int)
    requires AnswersAlike(h) && Init(s0) && Run(h, s0, steps, s) && fd in s.conns
    ensures s.conns[fd].accepted <= Results(h, s.conns[fd].submitted)
  {
    hide Run, Init, Parse, Flying, ItemsOf, AcceptedItems;
    var c := s.conns[fd];
    Ledger(h, s0, steps, s, fd);
    Streams(h, s0, steps, s, fd);
    ParsedBounded(c.received);
    AcceptedFewer(h, s0, steps, s, fd);
    forall i | 0 <= i < |c.accepted|
      ensures c.accepted[i] == h(c.submitted[i])
    {
      assert c.accepted[i] in c.accepted;
      var m :| m in c.submitted && c.accepted[i] == h(m);
      AskedOf(c.submitted, Unsubmitted(s, fd), m);
      AskedOf(c.submitted, Unsubmitted(s, fd), c.submitted[i]);
      assert Requestable(m) && Requestable(c.submitted[i]);
    }
  }

  lemma AskedOf(a: seq<Text>, b: seq<Text>, m: Text)
    requires m in a
    ensures m in a + b
  {
  }

  lemma AcceptedFewer(h: Text -> Text, s0: State, steps: seq<Step>, s: State, fd: int)
    requires Init(s0) && Run(h, s0, steps, s) && fd in s.conns
    ensures |s.conns[fd].accepted| <= |s.conns[fd].submitted|
  {
    hide Run, Init, Parse, Flying, Inv, ItemsOf, AcceptedItems, InOrder, Tidy;
    InitHolds(h, s0);
    RunKeeps(h, s0, steps, s);
    InvOf(h, s, fd);
    InflightIsUndelivered(h, Flying(h, s), s.conns[fd]);
  }

  // ---------- one request at a time ----------

  /** All along the run the connection with this id has at most one request in flight. */
  ghost predicate OneAtATime(h: Text -> Text, s: State, steps: seq<Step>, id: nat)
    decreases |steps|
  {
    && (forall fd :: fd in s.conns && s.conns[fd].id == id ==> s.conns[fd].inflight <= 1)
    && (steps != [] ==> Enabled(s, steps[0]) && OneAtATime(h, Apply(h, s, steps[0]), steps[1..], id))
  }

  ghost predicate InTurn(h: Text -> Text, s: State, id: nat) {
    forall fd :: fd in s.conns && s.conns[fd].id == id ==> s.conns[fd].accepted <= Results(h, s.conns[fd].submitted)
  }

  lemma {:induction false} AcceptedAreItems(h: Text -> Text, fd: int, id: nat, msgs: seq<Text>)
    ensures AcceptedItems(fd, id, Results(h, msgs)) == ItemsOf(h, fd, id, msgs)
  {
    if msgs != [] {
      var init, last := msgs[..|msgs| - 1], msgs[|msgs| - 1];
      AcceptedAreItems(h, fd, id, init);
      assert Results(h, msgs)[..|msgs| - 1] == Results(h, init);
    }
  }

  /** When one request is in flight, what comes back for it is its result. */
  lemma OnlyAnswer(h: Text -> Text, flying: multiset<Item>, c: Conn, x: Item)
    requires Balanced(h, flying, c) && x in flying && x.id == c.id && c.inflight <= 1
    requires c.accepted <= Results(h, c.submitted)
    ensures c.accepted + [x.resp] <= Results(h, c.submitted)
  {
    hide ItemsOf, AcceptedItems;
    var all, gone := ItemsOf(h, c.fd, c.id, c.submitted), AcceptedItems(c.fd, c.id, c.accepted);
    InflightIsUndelivered(h, flying, c);
    assert all[x] == gone[x] + flying[x];
    assert x in all - gone;
    LastOpen(h, c.fd, c.id, c.submitted, c.accepted, x);
  }

  lemma LastOpen(h: Text -> Text, fd: int, id: nat, msgs: seq<Text>, accepted: seq<Text>, x: Item)
    requires accepted <= Results(h, msgs) && |msgs| - |accepted| <= 1
    requires x in ItemsOf(h, fd, id, msgs) - AcceptedItems(fd, id, accepted)
    ensures accepted + [x.resp] <= Results(h, msgs)
  {
    hide ItemsOf, AcceptedItems;
    var n := |accepted|;
    WholePrefix(msgs, n);
    AcceptedAreItems(h, fd, id, msgs[..n]);
    assert Results(h, msgs[..n]) == Results(h, msgs)[..n] == accepted;
    assert msgs == msgs[..n] + [msgs[n]];
    ItemsSnoc(h, fd, id, msgs[..n], msgs[n]);
    LeftOver(AcceptedItems(fd, id, accepted), Item(fd, id, h(msgs[n])));
    assert x == Item(fd, id, h(msgs[n]));
  }

  lemma WholePrefix(msgs: seq<Text>, n: nat)
    requires n <= |msgs|
    ensures n == |msgs| ==> msgs[..n] == msgs
  {
  }

  lemma LeftOver(a: multiset<Item>, y: Item)
    ensures a + multiset{y} - a == multiset{y}
  {
  }

  lemma TurnKept(h: Text -> Text, s: State, step: Step, id: nat)
    requires Inv(h, s) && Enabled(s, step) && InTurn(h, s, id) && !step.DeliverOne?
    ensures InTurn(h, Apply(h, s, step), id)
  {
    hide Inv, Results, Parse, Rung, Finished, SendSpec, WriteSpec, Flying;
    var s' := Apply(h, s, step);
    forall fd | fd in s'.conns && s'.conns[fd].id == id
      ensures s'.conns[fd].accepted <= Results(h, s'.conns[fd].submitted)
    {
      match step {
        case SubmitOne => if fd == s.loop.fd { MoreResults(h, s.conns[fd].submitted, s.loop.queue[0]); }
        case Writable(g, next, ok) => if fd == g { WrittenSame(s.conns[fd], next, ok); }
        case _ =>
      }
    }
  }

  lemma TurnKeptDelivering(h: Text -> Text, s: State, next: Conn, ok: bool, id: nat)
    requires Inv(h, s) && Enabled(s, DeliverOne(next, ok)) && InTurn(h, s, id)
    requires forall fd :: fd in s.conns && s.conns[fd].id == id ==> s.conns[fd].inflight <= 1
    ensures InTurn(h, Apply(h, s, DeliverOne(next, ok)), id)
  {
    hide Inv, Results, SendSpec, Finished, Flying, Counted;
    var s', item := Apply(h, s, DeliverOne(next, ok)), s.loop.batch[0];
    forall fd | fd in s'.conns && s'.conns[fd].id == id
      ensures s'.conns[fd].accepted <= Results(h, s'.conns[fd].submitted)
    {
      if Addressed(s, item) && fd == item.fd {
        AcceptedLast(s, item, next);
        TurnDelivered(h, s, next, ok, fd);
      }
    }
  }

  lemma MoreResults(h: Text -> Text, msgs: seq<Text>, m: Text)
    ensures Results(h, msgs) <= Results(h, msgs + [m])
  {
  }

  lemma WrittenSame(c: Conn, next: Conn, ok: bool)
    requires WriteSpec(c, next, ok)
    ensures next.id == c.id && next.accepted == c.accepted && next.submitted == c.submitted
  {
  }

  lemma TurnDelivered(h: Text -> Text, s: State, next: Conn, ok: bool, fd: int)
    requires Inv(h, s) && Enabled(s, DeliverOne(next, ok)) && fd in Apply(h, s, DeliverOne(next, ok)).conns
    requires fd in s.conns && s.conns[fd].inflight <= 1 && s.conns[fd].accepted <= Results(h, s.conns[fd].submitted)
    ensures var c := Apply(h, s, DeliverOne(next, ok)).conns[fd];
            c.accepted <= Results(h, c.submitted)
  {
    hide Inv, Results, Parse, SendSpec, Finished, Flying, Counted, Balanced, InOrder, Tidy;
    var item := s.loop.batch[0];
    if Addressed(s, item) && fd == item.fd {
      InvOf(h, s, fd);
      FlyingDelivered(h, s, next, ok);
      AcceptedLast(s, item, next);
      OnlyAnswer(h, Flying(h, s), s.conns[fd], item);
    }
  }

  lemma {:induction false} RunInTurn(h: Text -> Text, s: State, steps: seq<Step>, s': State, id: nat)
    requires Inv(h, s) && InTurn(h, s, id) && Run(h, s, steps, s') && OneAtATime(h, s, steps, id)
    ensures InTurn(h, s', id)
    decreases |steps|
  {
    hide Inv, Apply, Enabled, InTurn;
    if steps != [] {
      match steps[0] {
        case DeliverOne(next, ok) => TurnKeptDelivering(h, s, next, ok, id);
        case _ => TurnKept(h, s, steps[0], id);
      }
      StepKeeps(h, s, steps[0]);
      RunInTurn(h, Apply(h, s, steps[0]), steps[1..], s', id);
    }
  }

  /** Whatever the number of workers: a connection that never has more than one request in flight gets its answers in
      the order of its requests. */
  lemma OneAtATimeInOrder(h: Text -> Text, s0: State, steps: seq<Step>, s: State, fd: int)
    requires Init(s0) && Run(h, s0, steps, s) && fd in s.conns && OneAtATime(h, s0, steps, s.conns[fd].id)
    ensures s.conns[fd].accepted <= Results(h, s.conns[fd].submitted)
  {
    hide Inv, Run, OneAtATime, Results;
    InitHolds(h, s0);
    RunInTurn(h, s0, steps, s, s.conns[fd].id);
  }
}
