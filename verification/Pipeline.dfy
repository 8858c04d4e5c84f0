/** The server as a step machine: one loop thread, any number of workers, and a kernel that decides what arrives,
    what is taken for sending and which descriptors are reused. */
module Pipeline {
  import opened Donequeue
  import opened Message
  import opened NetConnection
  import opened ThreadPool

  /** Where the loop thread is: waiting; inside handreadable of fd with decoded messages still to submit; between
      the eventfd read and the drain; or inside ondone with a batch still to deliver. */
  datatype Loop = Idle | Reading(fd: int, queue: seq<Text>) | BellRead | Delivering(batch: seq<Item>)

  /** A worker waits, runs a task, or has pushed the response and must still write the eventfd. */
  datatype Worker = Waiting | Running(task: Task) | Ringing

  datatype State = State(
    conns: map<int, Conn>, lastId: nat,
    tasks: seq<Task>, workers: seq<Worker>,
    done: seq<Item>, bell: nat, loop: Loop,
    pushed: seq<Item>, drained: seq<Item>)

  predicate Init(s: State) {
    && s.conns == map[] && s.lastId == 0 && s.tasks == [] && s.done == [] && s.bell == 0
    && s.loop == Idle && s.pushed == [] && s.drained == []
    && forall i :: 0 <= i < |s.workers| ==> s.workers[i] == Waiting
  }

  // ---------- steps ----------

  datatype Step =
    | Accept(fd: int)
    | BeginRead(fd: int)
    | RecvChunk(chunk: Text)
    | SubmitOne
    | RecvEof
    | RecvDry
    | RecvFails
    | Writable(fd: int, next: Conn, ok: bool)
    | Hangup(fd: int)
    | ReadBell
    | Drain
    | DeliverOne(next: Conn, ok: bool)
    | BatchDone
    | WorkerTakes(w: nat)
    | WorkerPushes(w: nat)
    | WorkerRings(w: nat)

  function NewConn(fd: int, id: nat): Conn {
    Conn(fd, id, [], [], [], false, 0, [], [], Events(true, false))
  }

  /** The connection the head of the batch belongs to: same descriptor and same connection id. */
  predicate Addressed(s: State, item: Item) {
    item.fd in s.conns && s.conns[item.fd].id == item.id
  }

  predicate Enabled(s: State, step: Step) {
    match step
    case Accept(fd) => s.loop == Idle && fd !in s.conns
    case BeginRead(fd) => s.loop == Idle && fd in s.conns
    case RecvChunk(chunk) => s.loop.Reading? && s.loop.queue == [] && s.loop.fd in s.conns && chunk != []
    case SubmitOne => s.loop.Reading? && s.loop.queue != [] && s.loop.fd in s.conns
    case RecvEof => s.loop.Reading? && s.loop.queue == [] && s.loop.fd in s.conns
    case RecvDry => s.loop.Reading? && s.loop.queue == []
    case RecvFails => s.loop.Reading? && s.loop.queue == []
    case Writable(fd, next, ok) => s.loop == Idle && fd in s.conns && WriteSpec(s.conns[fd], next, ok)
    case Hangup(fd) => s.loop == Idle && fd in s.conns
    case ReadBell => s.loop == Idle
    case Drain => s.loop == BellRead
    case DeliverOne(next, ok) =>
      && s.loop.Delivering? && s.loop.batch != []
      && (Addressed(s, s.loop.batch[0]) ==>
            SendSpec(Counted(s.conns[s.loop.batch[0].fd]), s.loop.batch[0].resp, next, ok))
    case BatchDone => s.loop.Delivering? && s.loop.batch == []
    case WorkerTakes(w) => w < |s.workers| && s.workers[w] == Waiting && s.tasks != []
    case WorkerPushes(w) => w < |s.workers| && s.workers[w].Running?
    case WorkerRings(w) => w < |s.workers| && s.workers[w] == Ringing
  }

  /** --inflight, before the response is handed to senddata. */
  function Counted(c: Conn): Conn {
    c.(inflight := c.inflight - 1)
  }

  function Respond(h: Text -> Text, t: Task): Item {
    Item(t.fd, t.id, h(t.msg))
  }

  /** Keep the connection as c, or close it. */
  function KeepOrClose(s: State, fd: int, c: Conn, keep: bool): State {
    s.(conns := if keep then s.conns[fd := c] else s.conns - {fd})
  }

  function Apply(h: Text -> Text, s: State, step: Step): State
    requires Enabled(s, step)
  {
    match step
    case Accept(fd) => s.(conns := s.conns[fd := NewConn(fd, s.lastId + 1)], lastId := s.lastId + 1)
    case BeginRead(fd) => s.(loop := Reading(fd, []))
    case RecvChunk(chunk) =>
      var fd := s.loop.fd;
      var c := s.conns[fd].(received := s.conns[fd].received + chunk);
      var p := Parse(c.received);
      if p.broken then KeepOrClose(s, fd, c, false).(loop := Idle)
      else
        var queue := if |c.submitted| <= |p.msgs| then p.msgs[|c.submitted|..] else [];
        KeepOrClose(s, fd, c, true).(loop := Reading(fd, queue))
    case SubmitOne =>
      var fd, m := s.loop.fd, s.loop.queue[0];
      var c := s.conns[fd];
      KeepOrClose(s, fd, c.(submitted := c.submitted + [m], inflight := c.inflight + 1), true)
        .(tasks := s.tasks + [Task(c.fd, c.id, m)], loop := Reading(fd, s.loop.queue[1..]))
    case RecvEof =>
      var c := AfterEof(s.conns[s.loop.fd]);
      KeepOrClose(s, s.loop.fd, c, !Finished(c)).(loop := Idle)
    case RecvDry => s.(loop := Idle)
    case RecvFails => KeepOrClose(s, s.loop.fd, NewConn(0, 0), false).(loop := Idle)
    case Writable(fd, next, ok) => KeepOrClose(s, fd, next, ok)
    case Hangup(fd) => KeepOrClose(s, fd, s.conns[fd], false)
    case ReadBell => s.(bell := 0, loop := BellRead)
    case Drain => s.(loop := Delivering(s.done), done := [], drained := s.drained + s.done)
    case DeliverOne(next, ok) =>
      var item := s.loop.batch[0];
      (if Addressed(s, item) then KeepOrClose(s, item.fd, next, ok && !Finished(next)) else s)
        .(loop := Delivering(s.loop.batch[1..]))
    case BatchDone => s.(loop := Idle)
    case WorkerTakes(w) => s.(tasks := s.tasks[1..], workers := s.workers[w := Running(s.tasks[0])])
    case WorkerPushes(w) =>
      var item := Respond(h, s.workers[w].task);
      s.(done := s.done + [item], pushed := s.pushed + [item], workers := s.workers[w := Ringing])
    case WorkerRings(w) => s.(bell := Rung(s.bell), workers := s.workers[w := Waiting])
  }

  // ---------- the ledger ----------

  function ItemsOf(h: Text -> Text, fd: int, id: nat, msgs: seq<Text>): multiset<Item> {
    if msgs == [] then multiset{}
    else ItemsOf(h, fd, id, msgs[..|msgs| - 1]) + multiset{Item(fd, id, h(msgs[|msgs| - 1]))}
  }

  function AcceptedItems(fd: int, id: nat, resps: seq<Text>): multiset<Item> {
    if resps == [] then multiset{}
    else AcceptedItems(fd, id, resps[..|resps| - 1]) + multiset{Item(fd, id, resps[|resps| - 1])}
  }

  function QueuedItems(h: Text -> Text, tasks: seq<Task>): multiset<Item> {
    if tasks == [] then multiset{} else multiset{Respond(h, tasks[0])} + QueuedItems(h, tasks[1..])
  }

  function WorkerItems(h: Text -> Text, w: Worker): multiset<Item> {
    if w.Running? then multiset{Respond(h, w.task)} else multiset{}
  }

  function RunningItems(h: Text -> Text, ws: seq<Worker>): multiset<Item> {
    if ws == [] then multiset{} else WorkerItems(h, ws[0]) + RunningItems(h, ws[1..])
  }

  function Batch(loop: Loop): seq<Item> {
    if loop.Delivering? then loop.batch else []
  }

  /** Every response that exists or will exist and has not been offered to its connection yet. */
  function Flying(h: Text -> Text, s: State): multiset<Item> {
    QueuedItems(h, s.tasks) + RunningItems(h, s.workers) + multiset(s.done) + multiset(Batch(s.loop))
  }

  /** For this connection: handler results of its submitted requests = accepted responses + what is in flight. */
  ghost predicate Balanced(h: Text -> Text, flying: multiset<Item>, c: Conn) {
    && (forall x: Item :: x.id == c.id ==>
          ItemsOf(h, c.fd, c.id, c.submitted)[x] == AcceptedItems(c.fd, c.id, c.accepted)[x] + flying[x])
    && c.inflight == |c.submitted| - |c.accepted|
  }

  /** Messages of fd that are decoded and not submitted yet. */
  function Unsubmitted(s: State, fd: int): seq<Text> {
    if s.loop.Reading? && s.loop.fd == fd then s.loop.queue else []
  }

  ghost predicate ConnInv(h: Text -> Text, s: State, fd: int)
    requires fd in s.conns
  {
    var c := s.conns[fd];
    && c.fd == fd && 1 <= c.id <= s.lastId
    && Balanced(h, Flying(h, s), c)
    && InOrder(c) && Tidy(c)
    && Parse(c.received).msgs == c.submitted + Unsubmitted(s, fd) && !Parse(c.received).broken
  }

  ghost predicate Inv(h: Text -> Text, s: State) {
    && (forall fd :: fd in s.conns ==> ConnInv(h, s, fd))
    && (forall a, b :: a in s.conns && b in s.conns && s.conns[a].id == s.conns[b].id ==> a == b)
    && (forall x :: x in Flying(h, s) ==> x.id <= s.lastId)
    && (s.loop.Reading? ==> s.loop.fd in s.conns)
  }
}
