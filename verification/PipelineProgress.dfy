/** The server is never stuck: whatever has happened, it can go on and answer every request it has received. */
module PipelineProgress {
  import opened Donequeue
  import opened Message
  import opened NetConnection
  import opened Pipeline
  import opened PipelineProofs
  import opened ThreadPool

  // ---------- how much is left to do ----------

  function WorkOf(w: Worker): nat {
    match w case Waiting => 0 case Running(_) => 8 case Ringing => 1
  }

  function WorkLeft(ws: seq<Worker>): nat {
    if ws == [] then 0 else WorkOf(ws[0]) + WorkLeft(ws[1..])
  }

  function Phase(loop: Loop): nat {
    match loop
    case Idle => 0
    case Reading(_, queue) => 1 + 10 * |queue|
    case BellRead => 2
    case Delivering(batch) => 1 + 2 * |batch|
  }

  function Left(s: State): nat {
    Phase(s.loop) + 9 * |s.tasks| + WorkLeft(s.workers) + (if s.loop.BellRead? then 3 else 6) * |s.done|
  }

  lemma {:induction false} WorkUpdate(ws: seq<Worker>, i: nat, w: Worker)
    requires i < |ws|
    ensures WorkLeft(ws[i := w]) + WorkOf(ws[i]) == WorkLeft(ws) + WorkOf(w)
  {
    var ws' := ws[i := w];
    assert ws'[0] == if i == 0 then w else ws[0];
    if i == 0 {
      assert ws'[1..] == ws[1..];
    } else {
      assert ws'[1..] == ws[1..][i - 1 := w];
      WorkUpdate(ws[1..], i - 1, w);
    }
  }

  /** The connections are the same ones, and nothing more has arrived. */
  predicate Later(s: State, s': State) {
    && s'.conns.Keys == s.conns.Keys && |s'.workers| == |s.workers|
    && forall fd :: fd in s.conns ==> s'.conns[fd].id == s.conns[fd].id && s'.conns[fd].received == s.conns[fd].received
  }

  /** Nobody has anything left to do. */
  predicate AtRest(s: State) {
    && s.loop == Idle && s.tasks == [] && s.done == []
    && forall w :: 0 <= w < |s.workers| ==> s.workers[w] == Waiting
  }

  // ---------- one step on ----------

  lemma ReaderGoesOn(h: Text -> Text, s: State) returns (step: Step)
    requires Inv(h, s) && s.loop.Reading?
    ensures Enabled(s, step) && Later(s, Apply(h, s, step)) && Left(Apply(h, s, step)) < Left(s)
  {
    hide ConnInv, Flying, WorkLeft;
    step := if s.loop.queue != [] then SubmitOne else RecvDry;
  }

  /** The response at the head of the batch can always be queued, and then its connection stays. */
  lemma DeliveryGoesOn(h: Text -> Text, s: State) returns (step: Step)
    requires s.loop.Delivering?
    ensures Enabled(s, step) && Later(s, Apply(h, s, step)) && Left(Apply(h, s, step)) < Left(s)
  {
    hide WorkLeft, SendSpec, Encode;
    if s.loop.batch == [] {
      step := BatchDone;
    } else if Addressed(s, s.loop.batch[0]) {
      var item := s.loop.batch[0];
      var c := Counted(s.conns[item.fd]);
      SentQueued(c, item.resp);
      EncodeNotEmpty(item.resp);
      var next := c.(pending := c.pending + Encode(item.resp), interest := Events(true, true),
                     accepted := c.accepted + [item.resp]);
      step := DeliverOne(next, true);
    } else {
      step := DeliverOne(NewConn(0, 0), false);
    }
  }

  lemma WorkerGoesOn(h: Text -> Text, s: State, w: nat) returns (step: Step)
    requires s.loop == Idle && w < |s.workers| && (s.workers[w] != Waiting || s.tasks != [])
    ensures Enabled(s, step) && Later(s, Apply(h, s, step)) && Left(Apply(h, s, step)) < Left(s)
  {
    hide WorkLeft, Respond, Rung;
    match s.workers[w] {
      case Waiting =>
        step := WorkerTakes(w);
        WorkUpdate(s.workers, w, Running(s.tasks[0]));
      case Running(_) =>
        step := WorkerPushes(w);
        WorkUpdate(s.workers, w, Ringing);
      case Ringing =>
        step := WorkerRings(w);
        WorkUpdate(s.workers, w, Waiting);
    }
  }

  lemma LoopGoesOn(h: Text -> Text, s: State) returns (step: Step)
    requires s.loop == BellRead || (s.loop == Idle && s.done != [])
    ensures Enabled(s, step) && Later(s, Apply(h, s, step)) && Left(Apply(h, s, step)) < Left(s)
  {
    hide WorkLeft;
    step := if s.loop == Idle then ReadBell else Drain;
  }

  /** No deadlock: as long as anything is left to do, somebody can take a step that leaves less to do. */
  lemma SomebodyGoesOn(h: Text -> Text, s: State) returns (step: Step)
    requires Inv(h, s) && s.workers != [] && !AtRest(s)
    ensures Enabled(s, step) && Later(s, Apply(h, s, step)) && Left(Apply(h, s, step)) < Left(s)
  {
    hide Inv, Enabled, Apply, Left, Later;
    match s.loop {
      case Reading(_, _) => step := ReaderGoesOn(h, s);
      case Delivering(_) => step := DeliveryGoesOn(h, s);
      case BellRead => step := LoopGoesOn(h, s);
      case Idle =>
        if w: nat :| w < |s.workers| && s.workers[w] != Waiting {
          step := WorkerGoesOn(h, s, w);
        } else if s.tasks != [] {
          step := WorkerGoesOn(h, s, 0);
        } else {
          step := LoopGoesOn(h, s);
        }
    }
  }

  // ---------- to the end ----------

  lemma LaterTrans(a: State, b: State, c: State)
    requires Later(a, b) && Later(b, c)
    ensures Later(a, c)
  {
  }

  lemma {:induction false} ComesToRest(h: Text -> Text, s: State) returns (steps: seq<Step>, s': State)
    requires Inv(h, s) && s.workers != []
    ensures Run(h, s, steps, s') && Inv(h, s') && Later(s, s') && AtRest(s')
    decreases Left(s)
  {
    hide Inv, Enabled, Apply, Left, Later, AtRest;
    if AtRest(s) {
      steps, s' := [], s;
      assert Later(s, s) by { SameLater(s); }
    } else {
      var step := SomebodyGoesOn(h, s);
      var s1 := Apply(h, s, step);
      StepKeeps(h, s, step);
      assert s1.workers != [] by { SameWorkers(s, s1); }
      var more;
      more, s' := ComesToRest(h, s1);
      LaterTrans(s, s1, s');
      steps := [step] + more;
      assert steps[1..] == more;
    }
  }

  lemma SameLater(s: State)
    ensures Later(s, s)
  {
  }

  lemma SameWorkers(s: State, s': State)
    requires Later(s, s') && s.workers != []
    ensures s'.workers != []
  {
  }

  lemma NothingFlies(h: Text -> Text, s: State)
    requires AtRest(s)
    ensures Flying(h, s) == multiset{}
  {
    NothingRuns(h, s.workers);
  }

  /** From every reachable state of a server with at least one worker there is a way on that keeps every connection and
      answers every request received so far: each connection has submitted all the messages of its stream, its responses
      are exactly the handler's results for them, and nothing is in flight any more. */
  lemma EverythingAnswerable(h: Text -> Text, s0: State, before: seq<Step>, s: State)
    returns (steps: seq<Step>, s': State)
    requires Init(s0) && Run(h, s0, before, s) && s.workers != []
    ensures Run(h, s, steps, s') && s'.conns.Keys == s.conns.Keys
    ensures forall fd :: fd in s.conns ==>
              var c, c' := s.conns[fd], s'.conns[fd];
              && c'.id == c.id && c'.submitted == Parse(c.received).msgs && c'.inflight == 0
              && AcceptedItems(fd, c.id, c'.accepted) == ItemsOf(h, fd, c.id, Parse(c.received).msgs)
  {
    hide Inv, Run, Init, Parse, ItemsOf, AcceptedItems, AtRest;
    InitHolds(h, s0);
    RunKeeps(h, s0, before, s);
    steps, s' := ComesToRest(h, s);
    forall fd | fd in s.conns
      ensures var c, c' := s.conns[fd], s'.conns[fd];
              && c'.id == c.id && c'.submitted == Parse(c.received).msgs && c'.inflight == 0
              && AcceptedItems(fd, c.id, c'.accepted) == ItemsOf(h, fd, c.id, Parse(c.received).msgs)
    {
      RestAnswers(h, s', fd);
    }
  }

  lemma RestAnswers(h: Text -> Text, s: State, fd: int)
    requires Inv(h, s) && AtRest(s) && fd in s.conns
    ensures var c := s.conns[fd];
            && c.submitted == Parse(c.received).msgs && c.inflight == 0
            && AcceptedItems(fd, c.id, c.accepted) == ItemsOf(h, fd, c.id, c.submitted)
  {
    hide Parse, ItemsOf, AcceptedItems, InOrder, Tidy, Flying;
    var c := s.conns[fd];
    assert ConnInv(h, s, fd);
    NothingFlies(h, s);
    InflightIsUndelivered(h, Flying(h, s), c);
    var all, gone := ItemsOf(h, fd, c.id, c.submitted), AcceptedItems(fd, c.id, c.accepted);
    ItemsCarry(h, fd, c.id, c.submitted);
    SameItems(all, gone, c.id);
    assert c.submitted + [] == c.submitted;
  }

  lemma SameItems(all: multiset<Item>, gone: multiset<Item>, id: nat)
    requires gone <= all && forall x: Item :: x.id == id ==> all[x] == gone[x]
    requires forall x :: x in all ==> x.id == id
    ensures all == gone && |all - gone| == 0
  {
    assert all - gone == multiset{};
  }
}
