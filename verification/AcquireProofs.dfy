/** What acquire achieves: alone it lends a connection whenever there is one or room for one, and in company it expands
    only when it found neither an idle connection nor a full pool, and gives up only when it found one of them or has
    tried to expand. */
module AcquireProofs {
  import opened ConnectionPool
  import opened PoolMachine
  import opened PoolProofs

  /** The step is one of thread t's own. */
  predicate By(step: Step, t: nat) {
    match step
    case Check(u) => u == t
    case Reserve(u) => u == t
    case CreateGood(u, _) => u == t
    case CreateBad(u) => u == t
    case CreateDone(u) => u == t
    case Commit(u) => u == t
    case Take(u, _) => u == t
    case GiveUp(u) => u == t
    case PingOk(u) => u == t
    case PingFails(u) => u == t
    case DeleteDoomed(u) => u == t
    case _ => false
  }

  predicate AllBy(steps: seq<Step>, t: nat) {
    forall i :: 0 <= i < |steps| ==> By(steps[i], t)
  }

  // ---------- alone ----------

  /** A run by thread t alone goes on with one more step of its own. */
  lemma StepOn(s: State, steps: seq<Step>, mid: State, step: Step, t: nat) returns (more: seq<Step>)
    requires Run(s, steps, mid) && AllBy(steps, t) && Enabled(mid, step) && By(step, t)
    ensures Run(s, more, Apply(mid, step)) && AllBy(more, t)
  {
    hide Run, Apply, Enabled;
    RunSnoc(s, steps, mid, step);
    more := steps + [step];
  }

  lemma {:induction false} AddressAbove(live: set<Ptr>) returns (x: Ptr)
    ensures forall y :: y in live ==> y < x
  {
    if live == {} {
      x := 0;
    } else {
      var y :| y in live;
      var rest := AddressAbove(live - {y});
      x := if rest <= y then y + 1 else rest;
      assert live == live - {y} + {y};
    }
  }

  /** How many connections an expand with that much room makes when all of them are usable. */
  function Room(p: Pool): nat {
    if p.total + 2 <= p.maxConn then 2 else if p.total < p.maxConn then 1 else 0
  }

  function NewAddresses(x: Ptr, n: nat): seq<Ptr> {
    seq(n, i => x + i)
  }

  /** Thread t in expand, with the capacity reserved and n connections made. */
  function Making(s: State, t: nat, x: Ptr, n: nat): State
    requires t < |s.threads|
  {
    var need := Room(s.pool);
    At(s, t, Creating(need, NewAddresses(x, n), n, need))
      .(pool := s.pool.(total := Wrap(s.pool.total + need)), live := s.live + set c | c in NewAddresses(x, n))
  }

  /** Thread t behind expand. */
  function Expanded(s: State, t: nat, x: Ptr): State
    requires t < |s.threads|
  {
    var made := NewAddresses(x, Room(s.pool));
    At(s, t, WaitingForIdle)
      .(pool := s.pool.(total := Wrap(s.pool.total + |made|), idle := s.pool.idle + made),
        live := s.live + set c | c in made)
  }

  lemma ReserveStarts(s: State, t: nat, x: Ptr)
    requires t < |s.threads| && s.threads[t] == Expanding && s.pool.total < s.pool.maxConn
    ensures Enabled(s, Reserve(t)) && Apply(s, Reserve(t)) == Making(s, t, x, 0)
  {
    hide Wrap;
    ReserveWithinLimit(s.pool);
    WrapId(s.pool.maxConn - s.pool.total);
    assert NewAddresses(x, 0) == [];
    assert s.live + {} == s.live;
  }

  lemma MakeOne(s: State, t: nat, x: Ptr, n: nat)
    requires t < |s.threads| && n < Room(s.pool) && forall y :: y in s.live ==> y < x
    ensures var mid, step := Making(s, t, x, n), CreateGood(t, x + n);
            Enabled(mid, step) && Apply(mid, step) == Making(s, t, x, n + 1)
  {
    hide NewAddresses, Wrap, Lent, Discarded, Committed, ReserveStep, ExpireStep, ReturnGuard, TransferGuard;
    var made, more := NewAddresses(x, n), NewAddresses(x, n + 1);
    OneAddressMore(s.live, x, n);
    var need := Room(s.pool);
    assert s.threads[t := Creating(need, made, n, need)][t := Creating(need, more, n + 1, need)]
        == s.threads[t := Creating(need, more, n + 1, need)];
  }

  lemma OneAddressMore(live: set<Ptr>, x: Ptr, n: nat)
    requires forall y :: y in live ==> y < x
    ensures var made, more := NewAddresses(x, n), NewAddresses(x, n + 1);
            && |made| == n && more == made + [x + n]
            && live + (set c | c in made) + {x + n} == live + (set c | c in more)
            && x + n !in live + set c | c in made
  {
    var made, more := NewAddresses(x, n), NewAddresses(x, n + 1);
    assert more == made + [x + n];
    assert (set c | c in more) == (set c | c in made) + {x + n};
  }

  lemma CommitAll(s: State, t: nat, x: Ptr)
    requires t < |s.threads| && s.pool.total <= s.pool.maxConn
    ensures var mid := Making(s, t, x, Room(s.pool));
            && Enabled(mid, CreateDone(t))
            && Enabled(Apply(mid, CreateDone(t)), Commit(t))
            && Apply(Apply(mid, CreateDone(t)), Commit(t)) == Expanded(s, t, x)
  {
    hide Wrap;
    var need := Room(s.pool);
    var made := NewAddresses(x, need);
    WrapId(s.pool.total + need);
    assert s.threads[t := Creating(need, made, need, need)][t := Committing(need, made)][t := WaitingForIdle]
        == s.threads[t := WaitingForIdle];
  }

  /** An expand that meets only usable connections makes all that there is room for, up to two. */
  lemma ExpandsAlone(s: State, steps: seq<Step>, mid: State, t: nat, x: Ptr) returns (more: seq<Step>)
    requires Run(s, steps, mid) && AllBy(steps, t)
    requires t < |mid.threads| && mid.threads[t] == Expanding && mid.pool.total < mid.pool.maxConn
    requires forall y :: y in mid.live ==> y < x
    ensures Run(s, more, Expanded(mid, t, x)) && AllBy(more, t)
  {
    hide Run, Apply, Enabled, AllBy, Making, Expanded;
    ReserveStarts(mid, t, x);
    more := StepOn(s, steps, mid, Reserve(t), t);
    MakeOne(mid, t, x, 0);
    more := StepOn(s, more, Making(mid, t, x, 0), CreateGood(t, x), t);
    if Room(mid.pool) == 2 {
      MakeOne(mid, t, x, 1);
      more := StepOn(s, more, Making(mid, t, x, 1), CreateGood(t, x + 1), t);
    }
    CommitAll(mid, t, x);
    var full := Making(mid, t, x, Room(mid.pool));
    more := StepOn(s, more, full, CreateDone(t), t);
    more := StepOn(s, more, Apply(full, CreateDone(t)), Commit(t), t);
  }

  /** Thread t has got the connection lent last. */
  function Served(s: State, t: nat, now: nat): State
    requires t < |s.threads| && s.pool.idle != []
  {
    var conn := s.pool.idle[|s.pool.idle| - 1];
    At(s, t, Ready)
      .(pool := Lent(s.pool, now), lent := s.lent + multiset{conn}, guards := s.guards + [Holding(conn)])
  }

  lemma LendsAlone(s: State, steps: seq<Step>, mid: State, t: nat, now: nat) returns (more: seq<Step>)
    requires Run(s, steps, mid) && AllBy(steps, t)
    requires t < |mid.threads| && mid.threads[t] == WaitingForIdle && mid.pool.idle != []
    ensures Run(s, more, Served(mid, t, now)) && AllBy(more, t)
  {
    hide Run, AllBy, Lent;
    var taken := Apply(mid, Take(t, now));
    more := StepOn(s, steps, mid, Take(t, now), t);
    assert mid.threads[t := taken.threads[t]][t := Ready] == mid.threads[t := Ready];
    more := StepOn(s, more, taken, PingOk(t), t);
  }

  /** Acquire achieves something: from every state of the pool, as long as there is an idle connection or room for a new
      one, the thread's own steps, with usable connections and a good ping, end with a guard more. It holds the idle
      connection returned last; without one, a new connection of the one or two that there is room for. */
  lemma AcquireSucceeds(s: State, t: nat, now: nat) returns (steps: seq<Step>, s': State, conn: Ptr)
    requires Inv(s) && t < |s.threads| && s.threads[t] == Ready
    requires s.pool.idle != [] || s.pool.total < s.pool.maxConn
    ensures Run(s, steps, s') && AllBy(steps, t)
    ensures s'.threads == s.threads && s'.guards == s.guards + [Holding(conn)] && conn in s'.live
    ensures s.pool.idle != [] ==>
              conn == s.pool.idle[|s.pool.idle| - 1] && s'.live == s.live && s'.pool.total == s.pool.total
    ensures s.pool.idle == [] ==>
              var made := if s.pool.maxConn - s.pool.total == 1 then 1 else 2;
              && conn !in s.live && s.live < s'.live && |s'.live| == |s.live| + made
              && s'.pool.total == s.pool.total + made && |s'.pool.idle| == made - 1
  {
    hide Run, Inv, AllBy, Enabled, Apply;
    RunNone(s);
    NobodyBy(t);
    CheckSees(s, t);
    steps := StepOn(s, [], s, Check(t), t);
    var mid := Apply(s, Check(t));
    if s.pool.idle == [] {
      var x := AddressAbove(s.live);
      steps := ExpandsAlone(s, steps, mid, t, x);
      ExpandedSize(s, t, x);
      mid := Expanded(mid, t, x);
    }
    conn := mid.pool.idle[|mid.pool.idle| - 1];
    steps := LendsAlone(s, steps, mid, t, now);
    s' := Served(mid, t, now);
    ServedSize(s, mid, t, now);
    IdleIsLive(s);
  }

  lemma CheckSees(s: State, t: nat)
    requires t < |s.threads| && s.threads[t] == Ready
    ensures Enabled(s, Check(t))
    ensures var s' := Apply(s, Check(t));
            && s'.pool == s.pool && s'.live == s.live && s'.guards == s.guards
            && (s.pool.idle != [] ==> s'.threads == s.threads[t := WaitingForIdle])
            && (s.pool.idle == [] && s.pool.total < s.pool.maxConn ==> s'.threads == s.threads[t := Expanding])
  {
  }

  lemma ServedSize(s: State, mid: State, t: nat, now: nat)
    requires t < |s.threads| && s.threads[t] == Ready && mid.pool.idle != []
    requires mid.threads == s.threads[t := WaitingForIdle]
    ensures var s' := Served(mid, t, now);
            && s'.threads == s.threads && s'.live == mid.live && s'.pool.total == mid.pool.total
            && |s'.pool.idle| == |mid.pool.idle| - 1
  {
  }

  /** A connection that does not answer is lost to the pool and to nobody else: the thread takes it, strikes it from the
      books and deletes it, and comes back without a guard. */
  lemma BrokenConnectionGoes(s: State, t: nat, now: nat) returns (steps: seq<Step>, s': State)
    requires Inv(s) && t < |s.threads| && s.threads[t] == WaitingForIdle && s.pool.idle != []
    ensures Run(s, steps, s') && AllBy(steps, t) && Inv(s')
    ensures s'.threads == s.threads[t := Ready] && s'.guards == s.guards
    ensures var n := |s.pool.idle| - 1;
            var conn := s.pool.idle[n];
            && s'.live == s.live - {conn} && s'.pool.total == s.pool.total - 1 && s'.pool.idle == s.pool.idle[..n]
            && (forall c :: c in s'.pool.inUse <==> c in s.pool.inUse)
            && s'.lost == s.lost + multiset{conn} && s'.back == s.back
  {
    hide Run, Inv, AllBy, Enabled, Apply;
    var n := |s.pool.idle| - 1;
    var conn := s.pool.idle[n];
    RunNone(s);
    NobodyBy(t);
    TakesLast(s, t, now);
    var taken := Apply(s, Take(t, now));
    steps := StepOn(s, [], s, Take(t, now), t);
    StepKeeps(s, Take(t, now));
    PingFailure(taken, t);
    var struck := Apply(taken, PingFails(t));
    steps := StepOn(s, steps, taken, PingFails(t), t);
    StepKeeps(taken, PingFails(t));
    steps := StepOn(s, steps, struck, DeleteDoomed(t), t);
    StepKeeps(struck, DeleteDoomed(t));
    s' := Apply(struck, DeleteDoomed(t));
    assert s.threads[t := Pinging(conn)][t := Doomed(conn)][t := Ready] == s.threads[t := Ready];
    assert s.pool.total == taken.pool.total && s.pool.idle[..n] == taken.pool.idle;
    OnceOnly(s, conn);
  }

  lemma TakesLast(s: State, t: nat, now: nat)
    requires t < |s.threads| && s.threads[t] == WaitingForIdle && s.pool.idle != []
    ensures Enabled(s, Take(t, now))
    ensures var s', n := Apply(s, Take(t, now)), |s.pool.idle| - 1;
            var conn := s.pool.idle[n];
            && s'.threads == s.threads[t := Pinging(conn)] && s'.guards == s.guards && s'.live == s.live
            && s'.pool.idle == s.pool.idle[..n] && s'.pool.inUse == s.pool.inUse + [conn]
            && s'.pool.total == s.pool.total && s'.lost == s.lost && s'.back == s.back
  {
  }

  lemma PingFailure(s: State, t: nat)
    requires Inv(s) && t < |s.threads| && s.threads[t].Pinging?
    ensures Enabled(s, PingFails(t))
    ensures var mid, conn := Apply(s, PingFails(t)), s.threads[t].conn;
            && Enabled(mid, DeleteDoomed(t))
            && var s' := Apply(mid, DeleteDoomed(t));
            && mid.threads == s.threads[t := Doomed(conn)]
            && s'.threads == mid.threads[t := Ready] && s'.guards == s.guards && s'.live == s.live - {conn}
            && s'.pool.total == s.pool.total - 1 && s'.pool.idle == s.pool.idle
            && (forall c :: c in s'.pool.inUse <==> c in s.pool.inUse && c != conn)
            && s'.lost == s.lost + multiset{conn} && s'.back == s.back
  {
    hide Sum, Outstanding, Wrap, Remove, Referenced, Placed, Tabled;
    PingingIsLent(s, t);
    WrapId(s.pool.total - 1);
    RemoveTakesAll(s.pool.inUse, s.threads[t].conn);
  }

  lemma OnceOnly(s: State, conn: Ptr)
    requires Inv(s) && conn in s.pool.idle
    ensures conn !in s.pool.inUse
  {
    hide Sum, Outstanding, Tabled, Linear;
    CleanPool(s);
    CleanListsOnce(s.pool);
  }

  lemma NobodyBy(t: nat)
    ensures AllBy([], t)
  {
  }

  lemma IdleIsLive(s: State)
    requires Inv(s)
    ensures forall c :: c in s.pool.idle ==> c in s.live
  {
    hide Sum, Linear, Counted, Tabled;
    forall c | c in s.pool.idle
      ensures c in s.live
    {
      assert c in multiset(s.pool.idle) + multiset(s.pool.inUse) + Sum(Held, s.threads);
    }
  }

  lemma ExpandedSize(s: State, t: nat, x: Ptr)
    requires t < |s.threads| && s.threads[t] == Ready && s.pool.idle == [] && s.pool.total < s.pool.maxConn
    requires forall y :: y in s.live ==> y < x
    ensures var mid, n := Expanded(Apply(s, Check(t)), t, x), Room(s.pool);
            && n == (if s.pool.maxConn - s.pool.total == 1 then 1 else 2)
            && mid.threads == s.threads[t := WaitingForIdle] && mid.guards == s.guards
            && |mid.pool.idle| == n && mid.pool.total == s.pool.total + n
            && s.live < mid.live && |mid.live| == |s.live| + n
            && mid.pool.idle[n - 1] !in s.live && mid.pool.idle[n - 1] in mid.live
  {
    hide Wrap;
    var n := Room(s.pool);
    WrapId(s.pool.total + n);
    NewSet(s.live, x, n);
  }

  lemma NewSet(live: set<Ptr>, x: Ptr, n: nat)
    requires 1 <= n <= 2 && forall y :: y in live ==> y < x
    ensures var made := set c | c in NewAddresses(x, n);
            live < live + made && |live + made| == |live| + n && x + n - 1 in made && x + n - 1 !in live
  {
    var made := set c | c in NewAddresses(x, n);
    assert made == if n == 1 then {x} else {x, x + 1} by {
      assert NewAddresses(x, n) == if n == 1 then [x] else [x, x + 1];
    }
    assert x in made;
    assert |live + made| == |live| + |made|;
  }

  // ---------- in company ----------

  /** Since its latest Check, thread t has been through the first locked region of expand. */
  predicate ReservedSince(steps: seq<Step>, t: nat) {
    steps != [] &&
    var init, last := steps[..|steps| - 1], steps[|steps| - 1];
    last == Reserve(t) || (last != Check(t) && ReservedSince(init, t))
  }

  /** What thread t saw at its latest Check: whether there was nothing idle and room for more. */
  ghost predicate LatestCheck(s0: State, steps: seq<Step>, t: nat, roomOnly: bool) {
    steps != [] &&
    var init, last := steps[..|steps| - 1], steps[|steps| - 1];
    if last == Check(t) then
      exists s :: Run(s0, init, s) && roomOnly == (s.pool.idle == [] && s.pool.total < s.pool.maxConn)
    else LatestCheck(s0, init, t, roomOnly)
  }

  ghost predicate Remembered(s0: State, steps: seq<Step>, t: nat, th: Thread) {
    && (th == Expanding ==> LatestCheck(s0, steps, t, true))
    && (th.Creating? || th.Committing? ==> ReservedSince(steps, t))
    && (th == WaitingForIdle ==> ReservedSince(steps, t) || LatestCheck(s0, steps, t, false))
  }

  lemma {:induction false} RunSplit(s: State, init: seq<Step>, last: Step, s': State) returns (mid: State)
    requires Run(s, init + [last], s')
    ensures Run(s, init, mid) && Enabled(mid, last) && s' == Apply(mid, last)
    decreases |init|
  {
    hide Apply, Enabled;
    if init == [] {
      mid := s;
      assert ([] + [last])[1..] == [];
    } else {
      assert (init + [last])[1..] == init[1..] + [last];
      mid := RunSplit(Apply(s, init[0]), init[1..], last, s');
    }
  }

  /** A step that is not thread t's own leaves it where it is. */
  lemma OthersLeave(s: State, step: Step, t: nat)
    requires Enabled(s, step) && !By(step, t)
    ensures |Apply(s, step).threads| == |s.threads|
    ensures t < |s.threads| ==> Apply(s, step).threads[t] == s.threads[t]
  {
    hide ExpireStep, ReturnGuard, Reported, Referenced, Lent, Discarded, Committed, Need, Reserved;
    if step.Scan? || step.MoveNew? || step.MoveAssign? || step.Destroy? {
      NoThreadMoves(s, step);
    }
  }

  /** Neither the scanner nor a guard moves a thread. */
  lemma NoThreadMoves(s: State, step: Step)
    requires Enabled(s, step) && (step.Scan? || step.MoveNew? || step.MoveAssign? || step.Destroy?)
    ensures Apply(s, step).threads == s.threads
  {
    hide ExpireStep, ReturnGuard, Reported, Referenced, Lent, Discarded, Committed, ReserveStep, At, Delete;
    match step {
      case Scan(overdue, expired) => ScanElsewhere(s.(pool := Reported(s.pool, overdue)), expired);
      case MoveAssign(g, other, now) => ReturnLeavesThreads(s, g, now);
      case Destroy(g, now) => ReturnLeavesThreads(s, g, now);
      case _ =>
    }
  }

  /** What becomes of thread t by a step of its own. */
  lemma ThreadMoves(s: State, step: Step, t: nat)
    requires Enabled(s, step) && By(step, t)
    ensures t < |s.threads| == |Apply(s, step).threads|
    ensures var th, th' := s.threads[t], Apply(s, step).threads[t];
            && (step == Check(t) ==>
                 th' == if s.pool.idle == [] && s.pool.total < s.pool.maxConn then Expanding else WaitingForIdle)
            && (step == Reserve(t) ==> th'.Creating? || th' == WaitingForIdle)
            && (step != Check(t) && step != Reserve(t) ==>
                 || (th.Creating? && (th'.Creating? || th'.Committing?))
                 || (th.Committing? && th' == WaitingForIdle)
                 || th' == Ready || th'.Pinging? || th'.Doomed?)
  {
    hide ExpireStep, ReturnGuard, TransferGuard, Reported, Referenced, Lent, Discarded, Committed, Need, Reserved;
  }

  lemma ReturnLeavesThreads(s: State, g: nat, now: nat)
    requires g < |s.guards|
    ensures ReturnGuard(s, g, now).threads == s.threads && |ReturnGuard(s, g, now).guards| == |s.guards|
  {
    hide Released;
  }

  lemma {:induction false} ThreadsRemember(s0: State, steps: seq<Step>, s: State, t: nat)
    requires Init(s0) && Run(s0, steps, s) && t < |s.threads|
    ensures Remembered(s0, steps, t, s.threads[t])
    decreases |steps|
  {
    hide Apply, Enabled, Run;
    if steps == [] {
      StartsReady(s0, s, t);
    } else {
      var init, last := steps[..|steps| - 1], steps[|steps| - 1];
      assert steps == init + [last];
      var mid := RunSplit(s0, init, last, s);
      if By(last, t) {
        ThreadMoves(mid, last, t);
      } else {
        OthersLeave(mid, last, t);
      }
      ThreadsRemember(s0, init, mid, t);
    }
  }

  lemma StartsReady(s0: State, s: State, t: nat)
    requires Init(s0) && Run(s0, [], s) && t < |s.threads|
    ensures s.threads[t] == Ready
  {
    assert s.threads[t] in s0.threads;
  }

  /** In every run, a thread goes into expand exactly after finding nothing idle and room for more, and it gives up only
      with nothing idle, after it has tried to expand or had found something idle or no room. */
  lemma GiveUpJustified(s0: State, steps: seq<Step>, s: State, t: nat)
    requires Init(s0) && Run(s0, steps, s) && t < |s.threads|
    ensures Enabled(s, Reserve(t)) ==> LatestCheck(s0, steps, t, true)
    ensures Enabled(s, GiveUp(t)) <==> s.threads[t] == WaitingForIdle && s.pool.idle == []
    ensures Enabled(s, GiveUp(t)) ==>
              && Apply(s, GiveUp(t)) == s.(threads := s.threads[t := Ready])
              && (ReservedSince(steps, t) || LatestCheck(s0, steps, t, false))
  {
    hide Run, Init;
    ThreadsRemember(s0, steps, s, t);
  }
}
