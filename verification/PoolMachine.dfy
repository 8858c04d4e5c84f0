/** The pool under any number of threads, as a step machine: one step for each locked region and for each piece of work
    between two of them. Threads run acquire, the scanner runs beside them, and guards are moved and destroyed. */
module PoolMachine {
  import opened ConnectionPool

  /** Where a thread is inside acquire. Creating and Committing are the part of expand outside the lock. */
  datatype Thread =
    | Ready
    | Expanding
    | Creating(need: nat, made: seq<Ptr>, i: nat, retries: nat)
    | Committing(need: nat, made: seq<Ptr>)
    | WaitingForIdle
    | Pinging(conn: Ptr)
    | Doomed(conn: Ptr)

  /** A guard owns a connection, or has been moved from or destroyed. */
  datatype Guard = Empty | Holding(conn: Ptr)

  /** live is what is allocated. lent, back and lost count what acquire handed out, release took back and failed pings
      took away. fault: something was deleted that was not allocated or still referred to. missed: a guard returned a
      connection the pool did not know to be lent. */
  datatype State = State(
    pool: Pool, threads: seq<Thread>, guards: seq<Guard>, live: set<Ptr>,
    lent: multiset<Ptr>, back: multiset<Ptr>, lost: multiset<Ptr>, fault: bool, missed: bool)

  predicate Init(s: State) {
    && s.pool == Initial(s.pool.idle, s.pool.minConn, s.pool.maxConn)
    && |s.pool.idle| == s.pool.minConn && NoDup(s.pool.idle) && s.live == (set c | c in s.pool.idle)
    && (forall t :: t in s.threads ==> t == Ready) && s.guards == []
    && s.lent == s.back == s.lost == multiset{} && !s.fault && !s.missed
  }

  // ---------- steps ----------

  datatype Step =
    | Check(t: nat)
    | Reserve(t: nat)
    | CreateGood(t: nat, conn: Ptr)
    | CreateBad(t: nat)
    | CreateDone(t: nat)
    | Commit(t: nat)
    | Take(t: nat, now: nat)
    | GiveUp(t: nat)
    | PingOk(t: nat)
    | PingFails(t: nat)
    | DeleteDoomed(t: nat)
    | Scan(overdue: set<Ptr>, expired: seq<Ptr>)
    | MoveNew(g: nat)
    | MoveAssign(g: nat, other: nat, now: nat)
    | Destroy(g: nat, now: nat)

  predicate Enabled(s: State, step: Step) {
    match step
    case Check(t) => t < |s.threads| && s.threads[t] == Ready
    case Reserve(t) => t < |s.threads| && s.threads[t] == Expanding
    case CreateGood(t, conn) => t < |s.threads| && s.threads[t].Creating?
        && s.threads[t].i < s.threads[t].retries && conn !in s.live
    case CreateBad(t) => t < |s.threads| && s.threads[t].Creating? && s.threads[t].i < s.threads[t].retries
    case CreateDone(t) => t < |s.threads| && s.threads[t].Creating? && s.threads[t].i >= s.threads[t].retries
    case Commit(t) => t < |s.threads| && s.threads[t].Committing?
    case Take(t, now) => t < |s.threads| && s.threads[t] == WaitingForIdle && s.pool.idle != []
    case GiveUp(t) => t < |s.threads| && s.threads[t] == WaitingForIdle && s.pool.idle == []
    case PingOk(t) => t < |s.threads| && s.threads[t].Pinging?
    case PingFails(t) => t < |s.threads| && s.threads[t].Pinging?
    case DeleteDoomed(t) => t < |s.threads| && s.threads[t].Doomed?
    case Scan(overdue, expired) =>
      overdue <= s.pool.borrowTime.Keys && NoDup(expired) && forall c :: c in expired ==> c in s.pool.returnTime
    case MoveNew(g) => g < |s.guards|
    case MoveAssign(g, other, now) => g < |s.guards| && other < |s.guards|
    case Destroy(g, now) => g < |s.guards|
  }

  function At(s: State, t: nat, thread: Thread): State
    requires t < |s.threads|
  {
    s.(threads := s.threads[t := thread])
  }

  /** Somebody can still reach the connection. */
  predicate Referenced(s: State, conn: Ptr) {
    || conn in s.pool.idle || conn in s.pool.inUse
    || conn in s.pool.borrowTime || conn in s.pool.returnTime || conn in s.pool.warn
    || conn in Sum(Held, s.threads) || conn in Sum(Leased, s.threads) || conn in Sum(Owned, s.guards)
  }

  function Delete(s: State, conn: Ptr): State {
    s.(live := s.live - {conn}, fault := s.fault || conn !in s.live || Referenced(s, conn))
  }

  function ReserveStep(s: State, t: nat): State
    requires t < |s.threads|
  {
    var need := Need(s.pool);
    if need == 0 then At(s, t, WaitingForIdle)
    else At(s, t, Creating(need, [], 0, need)).(pool := Reserved(s.pool))
  }

  function ReleaseStep(s: State, conn: Ptr, now: nat): State {
    if conn in s.pool.borrowTime
    then s.(pool := Released(s.pool, conn, now), back := s.back + multiset{conn})
    else s.(missed := true)
  }

  /** The callback runs if there is anything to return. */
  function ReturnGuard(s: State, g: nat, now: nat): State
    requires g < |s.guards|
  {
    if s.guards[g].Holding? then ReleaseStep(s.(guards := s.guards[g := Empty]), s.guards[g].conn, now) else s
  }

  function TransferGuard(s: State, g: nat, other: nat): State
    requires g < |s.guards| && other < |s.guards|
  {
    s.(guards := s.guards[g := s.guards[other]][other := Empty])
  }

  /** The scanner deletes one connection after the other, under the lock. */
  function ExpireStep(s: State, expired: seq<Ptr>): State
    decreases |expired|
  {
    if expired == [] || s.pool.total <= s.pool.minConn then s
    else ExpireStep(Delete(s.(pool := ExpiredOne(s.pool, expired[0])), expired[0]), expired[1..])
  }

  function Apply(s: State, step: Step): State
    requires Enabled(s, step)
  {
    match step
    case Check(t) => At(s, t, if s.pool.idle == [] && s.pool.total < s.pool.maxConn then Expanding else WaitingForIdle)
    case Reserve(t) => ReserveStep(s, t)
    case CreateGood(t, conn) =>
      var th := s.threads[t];
      At(s, t, th.(made := th.made + [conn], i := th.i + 1)).(live := s.live + {conn})
    case CreateBad(t) =>
      var th := s.threads[t];
      At(s, t, if th.retries + 1 > 5 then Committing(th.need, th.made)
               else th.(retries := th.retries + 1, i := th.i + 1))
    case CreateDone(t) => At(s, t, Committing(s.threads[t].need, s.threads[t].made))
    case Commit(t) =>
      At(s, t, WaitingForIdle).(pool := Committed(s.pool, s.threads[t].need, s.threads[t].made))
    case Take(t, now) =>
      var conn := s.pool.idle[|s.pool.idle| - 1];
      At(s, t, Pinging(conn)).(pool := Lent(s.pool, now), lent := s.lent + multiset{conn})
    case GiveUp(t) => At(s, t, Ready)
    case PingOk(t) => At(s, t, Ready).(guards := s.guards + [Holding(s.threads[t].conn)])
    case PingFails(t) =>
      var conn := s.threads[t].conn;
      At(s, t, Doomed(conn)).(pool := Discarded(s.pool, conn), lost := s.lost + multiset{conn})
    case DeleteDoomed(t) => Delete(At(s, t, Ready), s.threads[t].conn)
    case Scan(overdue, expired) => ExpireStep(s.(pool := Reported(s.pool, overdue)), expired)
    case MoveNew(g) => s.(guards := s.guards[g := Empty] + [s.guards[g]])
    case MoveAssign(g, other, now) => if g == other then s else TransferGuard(ReturnGuard(s, g, now), g, other)
    case Destroy(g, now) => ReturnGuard(s, g, now)
  }

  // ---------- the books ----------

  /** Connections a thread has created and not committed, or has still to delete. */
  function Held(t: Thread): multiset<Ptr> {
    match t
    case Creating(_, made, _, _) => multiset(made)
    case Committing(_, made) => multiset(made)
    case Doomed(conn) => multiset{conn}
    case _ => multiset{}
  }

  function Leased(t: Thread): multiset<Ptr> {
    if t.Pinging? then multiset{t.conn} else multiset{}
  }

  function Owned(g: Guard): multiset<Ptr> {
    if g.Holding? then multiset{g.conn} else multiset{}
  }

  function Sum<T>(f: T -> multiset<Ptr>, xs: seq<T>): multiset<Ptr> {
    if xs == [] then multiset{} else f(xs[0]) + Sum(f, xs[1..])
  }

  function NeedOf(t: Thread): nat {
    if t.Creating? || t.Committing? then t.need else 0
  }

  /** Capacity that running expands have reserved. */
  function Outstanding(ts: seq<Thread>): nat {
    if ts == [] then 0 else NeedOf(ts[0]) + Outstanding(ts[1..])
  }

  /** Every owner of a lease: threads that are pinging, and guards. */
  function Owners(s: State): multiset<Ptr> {
    Sum(Leased, s.threads) + Sum(Owned, s.guards)
  }

  /** The retry loop: as many good connections as iterations that did not fail, at most as many as wanted. */
  predicate Looping(t: Thread) {
    && (t.Creating? ==> 1 <= t.need <= 2 && t.i <= t.retries <= 5 && t.i - |t.made| == t.retries - t.need)
    && (t.Committing? ==> |t.made| <= t.need)
  }

  /** total counts the connections and the reserved capacity, and stays within the limits. */
  ghost predicate Counted(s: State) {
    && s.pool.total == |s.pool.idle| + |s.pool.inUse| + Outstanding(s.threads)
    && (s.pool.total <= s.pool.maxConn || (s.pool.total <= s.pool.minConn && Expanding !in s.threads))
    && forall t :: t in s.threads ==> Looping(t)
  }

  /** Every allocated connection is in exactly one place: none is listed twice, none is lost. */
  ghost predicate Placed(s: State) {
    multiset(s.pool.idle) + multiset(s.pool.inUse) + Sum(Held, s.threads) == multiset(s.live)
  }

  /** Every lease has exactly one owner, and none is returned twice. */
  ghost predicate Linear(s: State) {
    && multiset(s.pool.inUse) == Owners(s)
    && s.lent == s.back + s.lost + multiset(s.pool.inUse)
  }

  /** The tables agree with the lists. */
  ghost predicate Tabled(p: Pool) {
    && (forall c :: c in p.borrowTime <==> c in p.inUse)
    && (forall c :: c in p.returnTime ==> c in p.idle)
    && (forall c :: c in p.warn ==> (c in p.idle || c in p.inUse) && p.warn[c] == 1)
  }

  ghost predicate Inv(s: State) {
    Counted(s) && Placed(s) && Linear(s) && Tabled(s.pool) && !s.fault && !s.missed
  }

  ghost predicate Run(s: State, steps: seq<Step>, s': State)
    decreases |steps|
  {
    if steps == [] then s' == s
    else Enabled(s, steps[0]) && Run(Apply(s, steps[0]), steps[1..], s')
  }
}
