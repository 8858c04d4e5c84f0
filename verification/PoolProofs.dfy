/** What every step of the pool keeps, under every interleaving. */
module PoolProofs {
  import opened ConnectionPool
  import opened PoolMachine

  // ---------- sums ----------

  lemma {:induction false} SumUpdate<T>(f: T -> multiset<Ptr>, xs: seq<T>, i: nat, x: T)
    requires i < |xs|
    ensures Sum(f, xs[i := x]) + f(xs[i]) == Sum(f, xs) + f(x)
  {
    var xs' := xs[i := x];
    assert xs'[0] == if i == 0 then x else xs[0];
    if i == 0 {
      assert xs'[1..] == xs[1..];
    } else {
      assert xs'[1..] == xs[1..][i - 1 := x];
      SumUpdate(f, xs[1..], i - 1, x);
      Swap(f(xs[0]), Sum(f, xs'[1..]), f(xs[i]), Sum(f, xs[1..]), f(x));
    }
  }

  lemma Swap(a: multiset<Ptr>, b: multiset<Ptr>, c: multiset<Ptr>, d: multiset<Ptr>, e: multiset<Ptr>)
    requires b + c == d + e
    ensures a + b + c == a + d + e
  {
    assert a + b + c == a + (b + c);
    assert a + d + e == a + (d + e);
  }

  lemma {:induction false} SumAppend<T>(f: T -> multiset<Ptr>, xs: seq<T>, x: T)
    ensures Sum(f, xs + [x]) == Sum(f, xs) + f(x)
  {
    if xs == [] {
      assert xs + [x] == [x];
      assert Sum(f, [x]) == f(x) + Sum(f, []);
    } else {
      assert (xs + [x])[1..] == xs[1..] + [x];
      SumAppend(f, xs[1..], x);
      assert f(xs[0]) + (Sum(f, xs[1..]) + f(x)) == f(xs[0]) + Sum(f, xs[1..]) + f(x);
    }
  }

  lemma {:induction false} SumHas<T>(f: T -> multiset<Ptr>, xs: seq<T>, i: nat)
    requires i < |xs|
    ensures f(xs[i]) <= Sum(f, xs)
  {
    if i > 0 {
      SumHas(f, xs[1..], i - 1);
    }
  }

  /** Two different members contribute separately. */
  lemma {:induction false} SumHasBoth<T>(f: T -> multiset<Ptr>, xs: seq<T>, i: nat, j: nat)
    requires i < j < |xs|
    ensures f(xs[i]) + f(xs[j]) <= Sum(f, xs)
  {
    if i > 0 {
      SumHasBoth(f, xs[1..], i - 1, j - 1);
    } else {
      SumHas(f, xs[1..], j - 1);
    }
  }

  lemma {:induction false} SumEmpty<T>(f: T -> multiset<Ptr>, xs: seq<T>)
    requires forall x :: x in xs ==> f(x) == multiset{}
    ensures Sum(f, xs) == multiset{}
  {
    if xs != [] {
      SumEmpty(f, xs[1..]);
    }
  }

  lemma {:induction false} OutstandingUpdate(ts: seq<Thread>, i: nat, t: Thread)
    requires i < |ts|
    ensures Outstanding(ts[i := t]) + NeedOf(ts[i]) == Outstanding(ts) + NeedOf(t)
    ensures Outstanding(ts) >= NeedOf(ts[i])
  {
    hide NeedOf;
    var ts' := ts[i := t];
    assert ts'[0] == if i == 0 then t else ts[0];
    if i == 0 {
      assert ts'[1..] == ts[1..];
    } else {
      assert ts'[1..] == ts[1..][i - 1 := t];
      OutstandingUpdate(ts[1..], i - 1, t);
    }
  }

  lemma {:induction false} NothingOutstanding(ts: seq<Thread>)
    requires forall t :: t in ts ==> NeedOf(t) == 0
    ensures Outstanding(ts) == 0
  {
    if ts != [] {
      NothingOutstanding(ts[1..]);
    }
  }

  // ---------- the locked regions ----------

  function Lists(p: Pool): multiset<Ptr> {
    multiset(p.idle) + multiset(p.inUse)
  }

  predicate SameLimits(p: Pool, p': Pool) {
    p'.minConn == p.minConn && p'.maxConn == p.maxConn
  }

  /** No connection is listed twice. */
  ghost predicate Clean(p: Pool) {
    forall c :: Lists(p)[c] <= 1
  }

  lemma CleanPool(s: State)
    requires Placed(s)
    ensures Clean(s.pool) && Lists(s.pool) + Sum(Held, s.threads) == multiset(s.live)
  {
    hide Sum;
    forall c
      ensures Lists(s.pool)[c] <= 1
    {
      assert (Lists(s.pool) + Sum(Held, s.threads))[c] == multiset(s.live)[c] <= 1;
    }
  }

  lemma LentKeeps(p: Pool, now: nat)
    requires p.idle != [] && Clean(p) && Tabled(p)
    ensures var conn, p' := p.idle[|p.idle| - 1], Lent(p, now);
            && SameLimits(p, p') && Tabled(p') && Lists(p') == Lists(p)
            && multiset(p'.inUse) == multiset(p.inUse) + multiset{conn}
            && |p'.idle| + |p'.inUse| == |p.idle| + |p.inUse| && p'.total == p.total
  {
    var conn, init := p.idle[|p.idle| - 1], p.idle[..|p.idle| - 1];
    assert p.idle == init + [conn];
    assert multiset(p.idle) == multiset(init) + multiset{conn};
    assert Lists(p)[conn] <= 1;
    assert conn !in multiset(init) && conn !in multiset(p.inUse);
  }

  lemma DiscardedKeeps(p: Pool, conn: Ptr)
    requires conn in p.inUse && Clean(p) && Tabled(p) && p.total > 0
    ensures var p' := Discarded(p, conn);
            && SameLimits(p, p') && Tabled(p') && Lists(p') + multiset{conn} == Lists(p)
            && multiset(p'.inUse) + multiset{conn} == multiset(p.inUse)
            && |p'.idle| + |p'.inUse| + 1 == |p.idle| + |p.inUse| && p'.total == p.total - 1
            && conn !in p'.idle && conn !in p'.inUse && conn !in p'.borrowTime && conn !in p'.returnTime
            && conn !in p'.warn
  {
    hide Wrap, Remove;
    WrapId(p.total - 1);
    RemoveTakesAll(p.inUse, conn);
    assert Lists(p)[conn] <= 1;
  }

  lemma ReleasedKeeps(p: Pool, conn: Ptr, now: nat)
    requires conn in p.inUse && Clean(p) && Tabled(p)
    ensures var p' := Released(p, conn, now);
            && SameLimits(p, p') && Tabled(p') && Lists(p') == Lists(p)
            && multiset(p'.inUse) + multiset{conn} == multiset(p.inUse)
            && |p'.idle| + |p'.inUse| == |p.idle| + |p.inUse| && p'.total == p.total
  {
    hide Remove;
    RemoveTakesAll(p.inUse, conn);
    assert Lists(p)[conn] <= 1;
  }

  lemma CommittedKeeps(p: Pool, need: nat, made: seq<Ptr>)
    requires Tabled(p) && |made| <= need <= p.total
    ensures var p' := Committed(p, need, made);
            && SameLimits(p, p') && Tabled(p') && Lists(p') == Lists(p) + multiset(made) && p'.inUse == p.inUse
            && |p'.idle| == |p.idle| + |made| && p'.total == p.total - need + |made|
  {
    hide Wrap;
    WrapId(p.total - need + |made|);
  }

  lemma ExpiredOneKeeps(p: Pool, conn: Ptr)
    requires conn in p.idle && Clean(p) && Tabled(p) && p.total > 0
    ensures var p' := ExpiredOne(p, conn);
            && SameLimits(p, p') && Tabled(p') && Lists(p') + multiset{conn} == Lists(p) && p'.inUse == p.inUse
            && |p'.idle| + 1 == |p.idle| && p'.total == p.total - 1
            && conn !in p'.idle && conn !in p'.inUse && conn !in p'.borrowTime && conn !in p'.returnTime
            && conn !in p'.warn
  {
    hide Wrap, Remove;
    WrapId(p.total - 1);
    RemoveTakesAll(p.idle, conn);
    assert Lists(p)[conn] <= 1;
  }

  /** While the pool is within its upper limit the subtraction does not wrap. */
  lemma ReserveWithinLimit(p: Pool)
    requires p.total <= p.maxConn
    ensures Need(p) <= p.maxConn - p.total && (Need(p) > 0 ==> Reserved(p) == p.(total := p.total + Need(p)))
    ensures Need(p) == 0 <==> p.total == p.maxConn
  {
    hide Wrap;
    WrapId(p.maxConn - p.total);
    WrapId(p.total + Need(p));
  }

  // ---------- one step ----------

  /** A step of one thread that changes the lists, the heap and the books in step with each other. */
  lemma ThreadStep(s: State, s': State, t: nat, thread: Thread)
    requires Inv(s) && t < |s.threads| && s'.threads == s.threads[t := thread] && s'.guards == s.guards
    requires Looping(thread) && Tabled(s'.pool) && !s'.fault && !s'.missed
    requires s'.pool.total == s.pool.total + |s'.pool.idle| + |s'.pool.inUse| - |s.pool.idle| - |s.pool.inUse|
                              + NeedOf(thread) - NeedOf(s.threads[t])
    requires s'.pool.total <= s'.pool.maxConn
             || (s'.pool.total <= s'.pool.minConn && Expanding !in s.threads && thread != Expanding)
    requires Lists(s'.pool) + Held(thread) + multiset(s.live) == Lists(s.pool) + Held(s.threads[t]) + multiset(s'.live)
    requires multiset(s'.pool.inUse) + Leased(s.threads[t]) == multiset(s.pool.inUse) + Leased(thread)
    requires s'.lent == s'.back + s'.lost + multiset(s'.pool.inUse)
    ensures Inv(s')
  {
    hide Sum, Held, Leased, NeedOf, Looping, Tabled, Outstanding, Owned;
    OutstandingUpdate(s.threads, t, thread);
    CountedMembers(s.threads, t, thread);
    SumUpdate(Held, s.threads, t, thread);
    SumUpdate(Leased, s.threads, t, thread);
    PlacedMoved(Lists(s.pool), Lists(s'.pool), Sum(Held, s.threads), Sum(Held, s'.threads),
                multiset(s.live), multiset(s'.live), Held(s.threads[t]), Held(thread));
    LinearMoved(multiset(s.pool.inUse), multiset(s'.pool.inUse), Sum(Leased, s.threads), Sum(Leased, s'.threads),
                Sum(Owned, s.guards), Leased(s.threads[t]), Leased(thread));
  }

  lemma CountedMembers(ts: seq<Thread>, t: nat, thread: Thread)
    requires t < |ts| && (forall x :: x in ts ==> Looping(x)) && Looping(thread)
    ensures forall x :: x in ts[t := thread] ==> Looping(x)
    ensures Expanding !in ts && thread != Expanding ==> Expanding !in ts[t := thread]
  {
    hide Looping;
  }

  lemma PlacedMoved(a: multiset<Ptr>, a': multiset<Ptr>, b: multiset<Ptr>, b': multiset<Ptr>,
                    l: multiset<Ptr>, l': multiset<Ptr>, x: multiset<Ptr>, y: multiset<Ptr>)
    requires a + b == l && b' + x == b + y && a' + y + l == a + x + l'
    ensures a' + b' == l'
  {
    forall c
      ensures (a' + b')[c] == l'[c]
    {
      assert (a + b)[c] == l[c] && (b' + x)[c] == (b + y)[c] && (a' + y + l)[c] == (a + x + l')[c];
    }
  }

  lemma LinearMoved(a: multiset<Ptr>, a': multiset<Ptr>, b: multiset<Ptr>, b': multiset<Ptr>, g: multiset<Ptr>,
                    x: multiset<Ptr>, y: multiset<Ptr>)
    requires a == b + g && b' + x == b + y && a' + x == a + y
    ensures a' == b' + g
  {
    forall c
      ensures a'[c] == (b' + g)[c]
    {
      assert a[c] == (b + g)[c] && (b' + x)[c] == (b + y)[c] && (a' + x)[c] == (a + y)[c];
    }
  }

  lemma KeepsCheck(s: State, t: nat)
    requires Inv(s) && Enabled(s, Check(t))
    ensures Inv(Apply(s, Check(t)))
  {
    hide Sum, Tabled, Outstanding, Owned, Lent, Committed, Discarded, ExpireStep, ReturnGuard, TransferGuard, Delete,
         Reported;
    var s' := Apply(s, Check(t));
    ThreadStep(s, s', t, s'.threads[t]);
  }

  lemma KeepsGiveUp(s: State, t: nat)
    requires Inv(s) && Enabled(s, GiveUp(t))
    ensures Inv(Apply(s, GiveUp(t)))
  {
    hide Sum, Tabled, Outstanding, Owned, Lent, Committed, Discarded, ExpireStep, ReturnGuard, TransferGuard, Delete,
         Reported;
    ThreadStep(s, Apply(s, GiveUp(t)), t, Ready);
  }

  lemma KeepsReserve(s: State, t: nat)
    requires Inv(s) && Enabled(s, Reserve(t))
    ensures Inv(Apply(s, Reserve(t)))
  {
    hide Sum, Outstanding, Owned, Need, Reserved, Lent, Committed, Discarded, ExpireStep, ReturnGuard, TransferGuard,
         Delete, Reported;
    var s' := Apply(s, Reserve(t));
    assert s.threads[t] in s.threads;
    ReserveWithinLimit(s.pool);
    NeedAtMostTwo(s.pool);
    ThreadStep(s, s', t, s'.threads[t]);
  }

  lemma NeedAtMostTwo(p: Pool)
    ensures Need(p) <= 2
  {
  }

  lemma KeepsCreateGood(s: State, t: nat, conn: Ptr)
    requires Inv(s) && Enabled(s, CreateGood(t, conn))
    ensures Inv(Apply(s, CreateGood(t, conn)))
  {
    hide Sum, Tabled, Outstanding, Owned, Held, Leased, NeedOf, Looping, Lists, Lent, Committed, Discarded,
         ExpireStep, ReturnGuard, TransferGuard, Delete, Reported;
    var s', th := Apply(s, CreateGood(t, conn)), s.threads[t];
    assert th in s.threads;
    CreatedOne(th, conn);
    assert multiset(s'.live) == multiset(s.live) + multiset{conn};
    AddBoth(Lists(s.pool), Held(th), multiset(s.live), multiset{conn});
    ThreadStep(s, s', t, s'.threads[t]);
  }

  lemma CreatedOne(th: Thread, conn: Ptr)
    requires th.Creating? && th.i < th.retries && Looping(th)
    ensures var th' := th.(made := th.made + [conn], i := th.i + 1);
            Looping(th') && Held(th') == Held(th) + multiset{conn} && NeedOf(th') == NeedOf(th)
                && Leased(th') == Leased(th)
  {
  }

  lemma AddBoth(a: multiset<Ptr>, b: multiset<Ptr>, c: multiset<Ptr>, d: multiset<Ptr>)
    ensures a + (b + d) + c == a + b + (c + d)
  {
  }

  lemma KeepsCreating(s: State, step: Step)
    requires Inv(s) && Enabled(s, step) && (step.CreateBad? || step.CreateDone?)
    ensures Inv(Apply(s, step))
  {
    hide Sum, Tabled, Outstanding, Owned, Lent, Committed, Discarded, ExpireStep, ReturnGuard, TransferGuard, Delete,
         Reported;
    var s' := Apply(s, step);
    assert s.threads[step.t] in s.threads;
    ThreadStep(s, s', step.t, s'.threads[step.t]);
  }

  lemma KeepsCommit(s: State, t: nat)
    requires Inv(s) && Enabled(s, Commit(t))
    ensures Inv(Apply(s, Commit(t)))
  {
    hide Sum, Tabled, Outstanding, Owned, Held, Leased, NeedOf, Looping, Lists, Lent, Committed, Discarded, ExpireStep,
         ReturnGuard, TransferGuard, Delete, Reported;
    var s', th := Apply(s, Commit(t)), s.threads[t];
    assert th in s.threads;
    CommittingThread(th);
    PlainThread(WaitingForIdle);
    OutstandingUpdate(s.threads, t, WaitingForIdle);
    CommittedKeeps(s.pool, th.need, th.made);
    AddNothing(Lists(s.pool) + multiset(th.made), multiset(s.live), multiset(s.pool.inUse));
    ThreadStep(s, s', t, WaitingForIdle);
  }

  lemma CommittingThread(th: Thread)
    requires th.Committing? && Looping(th)
    ensures Held(th) == multiset(th.made) && Leased(th) == multiset{} && NeedOf(th) == th.need && |th.made| <= th.need
  {
  }

  lemma AddNothing(a: multiset<Ptr>, b: multiset<Ptr>, c: multiset<Ptr>)
    ensures a + multiset{} + b == a + b && c + multiset{} == c
  {
    assert a + multiset{} == a;
  }

  lemma KeepsTake(s: State, t: nat, now: nat)
    requires Inv(s) && Enabled(s, Take(t, now))
    ensures Inv(Apply(s, Take(t, now)))
  {
    hide Sum, Tabled, Outstanding, Owned, Lent, Committed, Discarded, ExpireStep, ReturnGuard, TransferGuard, Delete,
         Reported;
    CleanPool(s);
    LentKeeps(s.pool, now);
    var s' := Apply(s, Take(t, now));
    ThreadStep(s, s', t, s'.threads[t]);
  }

  /** A thread that is pinging owns a lease. */
  lemma PingingIsLent(s: State, t: nat)
    requires Linear(s) && t < |s.threads| && s.threads[t].Pinging?
    ensures s.threads[t].conn in s.pool.inUse && |s.pool.inUse| > 0
  {
    hide Sum;
    SumHas(Leased, s.threads, t);
    assert s.threads[t].conn in multiset(s.pool.inUse);
  }

  lemma KeepsPingFails(s: State, t: nat)
    requires Inv(s) && Enabled(s, PingFails(t))
    ensures Inv(Apply(s, PingFails(t)))
  {
    hide Sum, Tabled, Outstanding, Owned, Held, Leased, NeedOf, Looping, Discarded, Lists, Lent, Committed, ExpireStep,
         ReturnGuard, TransferGuard, Delete, Reported;
    var conn, s' := s.threads[t].conn, Apply(s, PingFails(t));
    CleanPool(s);
    PingingIsLent(s, t);
    PlainThread(s.threads[t]);
    PlainThread(Doomed(conn));
    DiscardedKeeps(s.pool, conn);
    Discharge(s.lent, s.back, s.lost, multiset(s.pool.inUse), multiset(s'.pool.inUse), Lists(s.pool),
        Lists(s'.pool), multiset(s.live), conn);
    ThreadStep(s, s', t, Doomed(conn));
  }

  /** What a thread that is not in expand contributes to the books. */
  lemma PlainThread(th: Thread)
    requires !th.Creating? && !th.Committing?
    ensures Looping(th) && NeedOf(th) == 0
    ensures Held(th) == if th.Doomed? then multiset{th.conn} else multiset{}
    ensures Leased(th) == if th.Pinging? then multiset{th.conn} else multiset{}
  {
  }

  lemma Discharge(lent: multiset<Ptr>, back: multiset<Ptr>, lost: multiset<Ptr>, a: multiset<Ptr>, a': multiset<Ptr>,
                  l: multiset<Ptr>, l': multiset<Ptr>, live: multiset<Ptr>, conn: Ptr)
    requires lent == back + lost + a && a' + multiset{conn} == a && l' + multiset{conn} == l
    ensures lent == back + (lost + multiset{conn}) + a'
    ensures l' + multiset{conn} + live == l + multiset{} + live && a' + multiset{conn} == a + multiset{}
  {
    assert back + lost + (a' + multiset{conn}) == back + (lost + multiset{conn}) + a';
    assert l + multiset{} == l && a + multiset{} == a;
  }

  // ---------- deletion ----------

  /** Nothing refers to a connection that is on no list and held by no thread. */
  lemma NotReferenced(s: State, conn: Ptr)
    requires Linear(s) && Tabled(s.pool) && Lists(s.pool)[conn] == 0 && Sum(Held, s.threads)[conn] == 0
    ensures !Referenced(s, conn)
  {
    hide Sum;
    assert conn !in multiset(s.pool.idle) && conn !in multiset(s.pool.inUse);
    assert Owners(s)[conn] == 0;
  }

  lemma KeepsDeleteDoomed(s: State, t: nat)
    requires Inv(s) && Enabled(s, DeleteDoomed(t))
    ensures Inv(Apply(s, DeleteDoomed(t)))
  {
    hide Sum, Tabled, Outstanding, Owned, Held, Leased, NeedOf, Looping, Referenced, Lists, Lent, Committed, Discarded,
         ExpireStep, ReturnGuard, TransferGuard;
    var s' := Apply(s, DeleteDoomed(t));
    DoomedFree(s, t);
    PlainThread(s.threads[t]);
    PlainThread(Ready);
    Rearranged(Lists(s.pool), multiset(s'.live), multiset{s.threads[t].conn});
    assert multiset(s.live) == multiset(s'.live) + multiset{s.threads[t].conn};
    ThreadStep(s, s', t, Ready);
  }

  lemma Rearranged(a: multiset<Ptr>, b: multiset<Ptr>, c: multiset<Ptr>)
    ensures a + multiset{} + (b + c) == a + c + b
  {
  }

  lemma DoomedFree(s: State, t: nat)
    requires Inv(s) && t < |s.threads| && s.threads[t].Doomed?
    ensures s.threads[t].conn in s.live && !Referenced(At(s, t, Ready), s.threads[t].conn)
  {
    hide Sum, Tabled, Outstanding, Owned, Referenced, Lists;
    var s1 := At(s, t, Ready);
    DoomedAlone(s, t);
    SumUpdate(Leased, s.threads, t, Ready);
    assert Sum(Leased, s1.threads) == Sum(Leased, s1.threads) + multiset{}
        == Sum(Leased, s.threads) + multiset{} == Sum(Leased, s.threads);
    NotReferenced(s1, s.threads[t].conn);
  }

  /** A connection whose ping failed belongs to the thread that lent it and to nobody else. */
  lemma DoomedAlone(s: State, t: nat)
    requires Placed(s) && t < |s.threads| && s.threads[t].Doomed?
    ensures var conn := s.threads[t].conn;
            conn in s.live && Lists(s.pool)[conn] == 0 && Sum(Held, s.threads[t := Ready])[conn] == 0
  {
    hide Sum, Lists;
    var conn := s.threads[t].conn;
    CleanPool(s);
    SumHas(Held, s.threads, t);
    SumUpdate(Held, s.threads, t, Ready);
    var all, rest := Sum(Held, s.threads), Sum(Held, s.threads[t := Ready]);
    assert (Lists(s.pool) + all)[conn] == multiset(s.live)[conn] <= 1;
    assert (rest + multiset{conn})[conn] == (all + multiset{})[conn];
  }

  lemma KeepsReported(s: State, overdue: set<Ptr>)
    requires Inv(s) && overdue <= s.pool.borrowTime.Keys
    ensures Inv(s.(pool := Reported(s.pool, overdue)))
    ensures Reported(s.pool, overdue).returnTime == s.pool.returnTime
  {
    hide Sum, Outstanding;
  }

  lemma {:induction false} KeepsExpire(s: State, expired: seq<Ptr>)
    requires Inv(s) && NoDup(expired) && forall c :: c in expired ==> c in s.pool.returnTime
    ensures Inv(ExpireStep(s, expired))
    decreases |expired|
  {
    hide Inv, ExpiredOne, Delete;
    if expired != [] && s.pool.total > s.pool.minConn {
      var conn := expired[0];
      var s' := Delete(s.(pool := ExpiredOne(s.pool, conn)), conn);
      assert conn in expired;
      KeepsExpireOne(s, conn);
      forall c | c in expired[1..]
        ensures c in s'.pool.returnTime
      {
        assert c in expired;
      }
      KeepsExpire(s', expired[1..]);
    }
  }

  lemma KeepsExpireOne(s: State, conn: Ptr)
    requires Inv(s) && conn in s.pool.returnTime && s.pool.total > s.pool.minConn
    ensures var s' := Delete(s.(pool := ExpiredOne(s.pool, conn)), conn);
            Inv(s') && s'.pool.returnTime == s.pool.returnTime - {conn}
  {
    hide Sum, Outstanding, Referenced, Lists, Remove, Wrap;
    var s1 := s.(pool := ExpiredOne(s.pool, conn));
    var s' := Delete(s1, conn);
    CleanPool(s);
    ExpiredOneKeeps(s.pool, conn);
    ExpireAlone(Lists(s.pool), Lists(s1.pool), Sum(Held, s.threads), s.live, conn);
    NotReferenced(s1, conn);
    assert multiset(s.live) == multiset(s'.live) + multiset{conn};
    ExpirePlaced(s, s', conn);
    ExpireLinear(s, s');
  }

  lemma ExpireAlone(a: multiset<Ptr>, a': multiset<Ptr>, b: multiset<Ptr>, live: set<Ptr>, conn: Ptr)
    requires a + b == multiset(live) && a' + multiset{conn} == a
    ensures conn in live && a'[conn] == 0 && b[conn] == 0
  {
    assert (a + b)[conn] == multiset(live)[conn] <= 1;
    assert (a' + multiset{conn})[conn] == a[conn];
  }

  lemma ExpirePlaced(s: State, s': State, conn: Ptr)
    requires Placed(s) && s'.threads == s.threads
    requires Lists(s'.pool) + multiset{conn} == Lists(s.pool) && multiset(s.live) == multiset(s'.live) + multiset{conn}
    ensures Placed(s')
  {
    hide Sum;
    var held := Sum(Held, s.threads);
    forall c
      ensures (Lists(s'.pool) + held)[c] == multiset(s'.live)[c]
    {
      assert (Lists(s.pool) + held)[c] == multiset(s.live)[c];
    }
  }

  lemma ExpireLinear(s: State, s': State)
    requires Linear(s) && s'.pool.inUse == s.pool.inUse
    requires s'.threads == s.threads && s'.guards == s.guards && s'.lent == s.lent && s'.back == s.back
        && s'.lost == s.lost
    ensures Linear(s')
  {
    hide Sum;
  }

  lemma KeepsScan(s: State, overdue: set<Ptr>, expired: seq<Ptr>)
    requires Inv(s) && Enabled(s, Scan(overdue, expired))
    ensures Inv(Apply(s, Scan(overdue, expired)))
  {
    hide Inv, Reported, ExpireStep;
    KeepsReported(s, overdue);
    KeepsExpire(s.(pool := Reported(s.pool, overdue)), expired);
  }

  // ---------- guards ----------

  /** A step that changes the guards, and the lists and books in step with them. */
  lemma GuardStep(s: State, s': State)
    requires Inv(s) && s'.threads == s.threads && s'.live == s.live && SameLimits(s.pool, s'.pool)
    requires Tabled(s'.pool) && Lists(s'.pool) == Lists(s.pool) && s'.pool.total == s.pool.total
    requires |s'.pool.idle| + |s'.pool.inUse| == |s.pool.idle| + |s.pool.inUse|
    requires multiset(s'.pool.inUse) + Sum(Owned, s.guards) == multiset(s.pool.inUse) + Sum(Owned, s'.guards)
    requires s'.lent == s'.back + s'.lost + multiset(s'.pool.inUse) && !s'.fault && !s'.missed
    ensures Inv(s')
  {
    hide Sum, Held, Leased, NeedOf, Looping, Tabled, Outstanding, Owned;
    OwnersMoved(multiset(s.pool.inUse), multiset(s'.pool.inUse), Sum(Leased, s.threads), Sum(Owned, s.guards),
        Sum(Owned, s'.guards));
  }

  lemma OwnersMoved(a: multiset<Ptr>, a': multiset<Ptr>, b: multiset<Ptr>, g: multiset<Ptr>, g': multiset<Ptr>)
    requires a == b + g && a' + g == a + g'
    ensures a' == b + g'
  {
    forall c
      ensures a'[c] == (b + g')[c]
    {
      assert a[c] == (b + g)[c] && (a' + g)[c] == (a + g')[c];
    }
  }

  lemma KeepsPingOk(s: State, t: nat)
    requires Inv(s) && Enabled(s, PingOk(t))
    ensures Inv(Apply(s, PingOk(t)))
  {
    hide Sum, Tabled, Outstanding, Lent, Committed, Discarded, ExpireStep, ReturnGuard, TransferGuard;
    var s', conn := Apply(s, PingOk(t)), s.threads[t].conn;
    OutstandingUpdate(s.threads, t, Ready);
    CountedMembers(s.threads, t, Ready);
    SumUpdate(Held, s.threads, t, Ready);
    SameSum(Sum(Held, s'.threads), Sum(Held, s.threads));
    SumUpdate(Leased, s.threads, t, Ready);
    SumAppend(Owned, s.guards, Holding(conn));
    HandedOver(Sum(Leased, s.threads), Sum(Leased, s'.threads), Sum(Owned, s.guards), conn);
  }

  lemma SameSum(a: multiset<Ptr>, b: multiset<Ptr>)
    requires a + multiset{} == b + multiset{}
    ensures a == b
  {
    assert a == a + multiset{} && b == b + multiset{};
  }

  lemma Returned(a: multiset<Ptr>, a': multiset<Ptr>, b: multiset<Ptr>, b': multiset<Ptr>, conn: Ptr)
    requires a' + multiset{conn} == a && b' + multiset{conn} == b + multiset{}
    ensures a' + b == a + b'
  {
    assert b + multiset{} == b;
    assert a' + (b' + multiset{conn}) == a' + multiset{conn} + b';
  }

  lemma LedgerReturned(lent: multiset<Ptr>, back: multiset<Ptr>, lost: multiset<Ptr>, a: multiset<Ptr>,
      a': multiset<Ptr>, conn: Ptr)
    requires lent == back + lost + a && a' + multiset{conn} == a
    ensures lent == back + multiset{conn} + lost + a'
  {
    assert back + lost + (a' + multiset{conn}) == back + multiset{conn} + lost + a';
  }

  lemma HandedOver(b: multiset<Ptr>, b': multiset<Ptr>, g: multiset<Ptr>, conn: Ptr)
    requires b' + multiset{conn} == b + multiset{}
    ensures b' + (g + multiset{conn}) == b + g
  {
    assert b + multiset{} == b;
    assert b' + (g + multiset{conn}) == b' + multiset{conn} + g;
  }

  lemma KeepsMoveNew(s: State, g: nat)
    requires Inv(s) && Enabled(s, MoveNew(g))
    ensures Inv(Apply(s, MoveNew(g)))
  {
    hide Sum, Tabled, Outstanding, Held, Lent, Committed, Discarded, ExpireStep, ReturnGuard, TransferGuard, Delete,
         Reported;
    var s' := Apply(s, MoveNew(g));
    SumUpdate(Owned, s.guards, g, Empty);
    SumAppend(Owned, s.guards[g := Empty], s.guards[g]);
    assert Sum(Owned, s'.guards) == Sum(Owned, s.guards) + multiset{} == Sum(Owned, s.guards);
    GuardStep(s, s');
  }

  /** A guard's connection is one that the pool knows to be lent. */
  lemma GuardIsLent(s: State, g: nat)
    requires Linear(s) && Tabled(s.pool) && g < |s.guards| && s.guards[g].Holding?
    ensures s.guards[g].conn in s.pool.inUse && s.guards[g].conn in s.pool.borrowTime
  {
    hide Sum;
    SumHas(Owned, s.guards, g);
    assert s.guards[g].conn in multiset(s.pool.inUse);
  }

  lemma KeepsReturn(s: State, g: nat, now: nat)
    requires Inv(s) && g < |s.guards|
    ensures Inv(ReturnGuard(s, g, now)) && ReturnGuard(s, g, now).guards == s.guards[g := Empty]
  {
    hide Sum, Tabled, Outstanding, Held, Released, Lists;
    if s.guards[g].Holding? {
      var conn := s.guards[g].conn;
      var s' := ReturnGuard(s, g, now);
      GuardIsLent(s, g);
      CleanPool(s);
      ReleasedKeeps(s.pool, conn, now);
      SumUpdate(Owned, s.guards, g, Empty);
      Returned(multiset(s.pool.inUse), multiset(s'.pool.inUse), Sum(Owned, s.guards), Sum(Owned, s'.guards), conn);
      LedgerReturned(s.lent, s.back, s.lost, multiset(s.pool.inUse), multiset(s'.pool.inUse), conn);
      GuardStep(s, s');
    }
  }

  lemma KeepsTransfer(s: State, g: nat, other: nat)
    requires Inv(s) && g < |s.guards| && other < |s.guards| && g != other && s.guards[g] == Empty
    ensures Inv(TransferGuard(s, g, other))
  {
    hide Sum, Tabled, Outstanding, Held;
    var s' := TransferGuard(s, g, other);
    var mid := s.guards[g := s.guards[other]];
    SumUpdate(Owned, s.guards, g, s.guards[other]);
    SumUpdate(Owned, mid, other, Empty);
    assert mid[other] == s.guards[other];
    TransferSums(Sum(Owned, s.guards), Sum(Owned, mid), Sum(Owned, s'.guards), Owned(s.guards[other]));
    GuardStep(s, s');
  }

  lemma TransferSums(a: multiset<Ptr>, m: multiset<Ptr>, b: multiset<Ptr>, x: multiset<Ptr>)
    requires m + multiset{} == a + x && b + x == m + multiset{}
    ensures a == b
  {
    forall c
      ensures a[c] == b[c]
    {
      assert (m + multiset{})[c] == (a + x)[c] && (b + x)[c] == (m + multiset{})[c];
    }
  }

  /** Move assignment returns the lease of the guard assigned to and passes the other guard's lease on; nobody else is
      concerned, and assigning a guard to itself does nothing. */
  lemma KeepsMoveAssign(s: State, g: nat, other: nat, now: nat)
    requires Inv(s) && Enabled(s, MoveAssign(g, other, now))
    ensures var s' := Apply(s, MoveAssign(g, other, now));
            && Inv(s')
            && (g == other ==> s' == s)
            && (g != other ==>
                  && s'.guards == s.guards[g := s.guards[other]][other := Empty]
                  && s'.pool == (match s.guards[g] case Holding(c) => Released(s.pool, c, now) case Empty => s.pool)
                  && s'.back == s.back + Owned(s.guards[g]))
  {
    hide Inv, Released, ExpireStep, Lent, Committed, Discarded, Linear, Tabled;
    if g != other {
      if s.guards[g].Holding? {
        InvGuardIsLent(s, g);
      } else {
        assert s.back + multiset{} == s.back;
      }
      KeepsReturn(s, g, now);
      KeepsTransfer(ReturnGuard(s, g, now), g, other);
    }
  }

  lemma InvGuardIsLent(s: State, g: nat)
    requires Inv(s) && g < |s.guards| && s.guards[g].Holding?
    ensures s.guards[g].conn in s.pool.borrowTime
  {
    hide Counted, Placed, Tabled, Sum;
    GuardIsLent(s, g);
  }

  // ---------- every run ----------

  lemma StepKeeps(s: State, step: Step)
    requires Inv(s) && Enabled(s, step)
    ensures Inv(Apply(s, step))
  {
    hide Inv, Enabled, Apply, ReturnGuard;
    match step {
      case Check(t) => KeepsCheck(s, t);
      case Reserve(t) => KeepsReserve(s, t);
      case CreateGood(t, conn) => KeepsCreateGood(s, t, conn);
      case CreateBad(t) => KeepsCreating(s, step);
      case CreateDone(t) => KeepsCreating(s, step);
      case Commit(t) => KeepsCommit(s, t);
      case Take(t, now) => KeepsTake(s, t, now);
      case GiveUp(t) => KeepsGiveUp(s, t);
      case PingOk(t) => KeepsPingOk(s, t);
      case PingFails(t) => KeepsPingFails(s, t);
      case DeleteDoomed(t) => KeepsDeleteDoomed(s, t);
      case Scan(overdue, expired) => KeepsScan(s, overdue, expired);
      case MoveNew(g) => KeepsMoveNew(s, g);
      case MoveAssign(g, other, now) => KeepsMoveAssign(s, g, other, now);
      case Destroy(g, now) => KeepsDestroy(s, g, now);
    }
  }

  lemma KeepsDestroy(s: State, g: nat, now: nat)
    requires Inv(s) && Enabled(s, Destroy(g, now))
    ensures Inv(Apply(s, Destroy(g, now)))
  {
    hide Inv, ReturnGuard;
    KeepsReturn(s, g, now);
  }

  lemma InitHolds(s: State)
    requires Init(s)
    ensures Inv(s)
  {
    hide Sum;
    NothingOutstanding(s.threads);
    SumEmpty(Held, s.threads);
    SumEmpty(Leased, s.threads);
    NoGuards();
    IdleOnce(s.pool.idle, s.live);
    assert Expanding !in s.threads;
  }

  lemma NoGuards()
    ensures Sum(Owned, []) == multiset{}
  {
  }

  lemma {:induction false} IdleOnce(idle: seq<Ptr>, live: set<Ptr>)
    requires NoDup(idle) && live == set c | c in idle
    ensures multiset(idle) == multiset(live)
  {
    if idle != [] {
      var init, last := idle[..|idle| - 1], idle[|idle| - 1];
      IdleOnce(init, set c | c in init);
      assert idle == init + [last];
      assert live == (set c | c in init) + {last};
      assert last !in init;
    } else {
      assert live == {};
    }
  }

  lemma {:induction false} RunKeeps(s: State, steps: seq<Step>, s': State)
    requires Inv(s) && Run(s, steps, s')
    ensures Inv(s')
    decreases |steps|
  {
    hide Inv, Apply, Enabled;
    if steps != [] {
      StepKeeps(s, steps[0]);
      RunKeeps(Apply(s, steps[0]), steps[1..], s');
    }
  }

  lemma Reachable(s0: State, steps: seq<Step>, s: State)
    requires Init(s0) && Run(s0, steps, s)
    ensures Inv(s)
  {
    hide Init, Inv, Run;
    InitHolds(s0);
    RunKeeps(s0, steps, s);
  }

  /** A connection is listed once. */
  ghost predicate ListedOnce(idle: seq<Ptr>, inUse: seq<Ptr>) {
    && NoDup(idle) && NoDup(inUse) && forall c :: !(c in idle && c in inUse)
  }

  lemma CleanListsOnce(p: Pool)
    requires Clean(p)
    ensures ListedOnce(p.idle, p.inUse)
  {
    NoDupFromCount(p.idle, Lists(p));
    NoDupFromCount(p.inUse, Lists(p));
    forall c
      ensures !(c in p.idle && c in p.inUse)
    {
      assert Lists(p)[c] <= 1;
    }
  }

  lemma NoDupFromCount(s: seq<Ptr>, m: multiset<Ptr>)
    requires multiset(s) <= m && forall c :: m[c] <= 1
    ensures NoDup(s)
  {
    forall i, j | 0 <= i < j < |s|
      ensures s[i] != s[j]
    {
      assert s == s[..i] + [s[i]] + s[i + 1..j] + [s[j]] + s[j + 1..];
      assert multiset(s) == multiset(s[..i]) + multiset{s[i]} + multiset(s[i + 1..j]) + multiset{s[j]}
          + multiset(s[j + 1..]);
      assert multiset(s)[s[i]] <= m[s[i]] <= 1;
    }
  }

  /** Conservation: in every interleaving of any number of threads, guards and the scanner, the total is the number of
      listed connections and of reserved ones; it stays within the larger limit; lists and tables agree; every listed
      connection is allocated and every allocated one is listed or held by the thread that creates or deletes it; and
      nothing was deleted twice or while something still referred to it. */
  lemma Conservation(s0: State, steps: seq<Step>, s: State)
    requires Init(s0) && Run(s0, steps, s)
    ensures s.pool.total == |s.pool.idle| + |s.pool.inUse| + Outstanding(s.threads)
    ensures s.pool.total <= s.pool.maxConn || s.pool.total <= s.pool.minConn
    ensures ListedOnce(s.pool.idle, s.pool.inUse)
    ensures forall c :: c in s.live <==> c in s.pool.idle || c in s.pool.inUse || c in Sum(Held, s.threads)
    ensures s.pool.borrowTime.Keys == set c | c in s.pool.inUse
    ensures forall c :: c in s.pool.returnTime ==> c in s.pool.idle
    ensures forall c :: c in s.pool.warn ==> (c in s.pool.idle || c in s.pool.inUse) && s.pool.warn[c] == 1
    ensures !s.fault && !s.missed
  {
    hide Init, Run, Sum, Outstanding;
    Reachable(s0, steps, s);
    CleanPool(s);
    CleanListsOnce(s.pool);
    forall c
      ensures c in s.live <==> c in s.pool.idle || c in s.pool.inUse || c in Sum(Held, s.threads)
    {
      assert c in s.live <==> c in Lists(s.pool) + Sum(Held, s.threads);
    }
  }

  /** Started with sane limits, the pool never counts more than its upper limit, so at every moment an expand that is
      about to reserve subtracts without wrapping around; and it reserves all that is left, up to two. */
  lemma NeverAboveLimit(s0: State, steps: seq<Step>, s: State)
    requires Init(s0) && Run(s0, steps, s)
    ensures s.pool.minConn <= s.pool.maxConn ==> s.pool.total <= s.pool.maxConn
    ensures Expanding in s.threads ==>
              var room := s.pool.maxConn - s.pool.total;
              room >= 0 && Need(s.pool) == if room < 2 then room else 2
  {
    hide Init, Run, Sum, Outstanding, Wrap;
    Reachable(s0, steps, s);
    WrapId(if s.pool.total <= s.pool.maxConn then s.pool.maxConn - s.pool.total else 0);
  }

  /** An owner of a lease: a thread that is pinging, or a guard. */
  datatype Owner = OfThread(t: nat) | OfGuard(g: nat)

  predicate Owns(s: State, o: Owner, conn: Ptr) {
    match o
    case OfThread(t) => t < |s.threads| && s.threads[t] == Pinging(conn)
    case OfGuard(g) => g < |s.guards| && s.guards[g] == Holding(conn)
  }

  lemma {:induction false} SumMember<T>(f: T -> multiset<Ptr>, xs: seq<T>, conn: Ptr) returns (i: nat)
    requires conn in Sum(f, xs)
    ensures i < |xs| && conn in f(xs[i])
  {
    if conn in f(xs[0]) {
      i := 0;
    } else {
      i := SumMember(f, xs[1..], conn);
      i := i + 1;
    }
  }

  /** Lease linearity: what is in use has an owner, what has an owner is in use and known to be lent, and no
      connection has two owners; every lease was returned or lost once or is still out. */
  lemma LeasesLinear(s0: State, steps: seq<Step>, s: State)
    requires Init(s0) && Run(s0, steps, s)
    ensures forall c :: c in s.pool.inUse ==> exists o :: Owns(s, o, c)
    ensures forall c, o :: Owns(s, o, c) ==> c in s.pool.inUse && c in s.pool.borrowTime
    ensures forall c, o, o' :: Owns(s, o, c) && Owns(s, o', c) ==> o == o'
    ensures s.lent == s.back + s.lost + multiset(s.pool.inUse)
  {
    hide Init, Run, Sum, Outstanding, Owns, Tabled, Placed, Counted;
    Reachable(s0, steps, s);
    forall c | c in s.pool.inUse
      ensures exists o :: Owns(s, o, c)
    {
      var o := OwnerOf(s, c);
    }
    forall c, o | Owns(s, o, c)
      ensures c in s.pool.inUse && c in s.pool.borrowTime
    {
      OwnerInUse(s, o, c);
    }
    forall c, o, o' | Owns(s, o, c) && Owns(s, o', c)
      ensures o == o'
    {
      OneOwner(s, o, o', c);
    }
  }

  lemma OwnerOf(s: State, c: Ptr) returns (o: Owner)
    requires Linear(s) && c in s.pool.inUse
    ensures Owns(s, o, c)
  {
    hide Sum;
    assert c in Sum(Leased, s.threads) + Sum(Owned, s.guards);
    if c in Sum(Leased, s.threads) {
      var t := SumMember(Leased, s.threads, c);
      o := OfThread(t);
    } else {
      var g := SumMember(Owned, s.guards, c);
      o := OfGuard(g);
    }
  }

  lemma OwnerInUse(s: State, o: Owner, c: Ptr)
    requires Linear(s) && Tabled(s.pool) && Owns(s, o, c)
    ensures c in s.pool.inUse && c in s.pool.borrowTime
  {
    hide Sum;
    match o {
      case OfThread(t) => PingingIsLent(s, t);
      case OfGuard(g) => GuardIsLent(s, g);
    }
  }

  lemma OneOwner(s: State, o: Owner, o': Owner, c: Ptr)
    requires Linear(s) && Placed(s) && Owns(s, o, c) && Owns(s, o', c)
    ensures o == o'
  {
    hide Sum, Placed, Lists;
    CleanPool(s);
    var ts, gs := Sum(Leased, s.threads), Sum(Owned, s.guards);
    assert Lists(s.pool)[c] <= 1;
    InUseOnce(s.pool, c);
    assert (ts + gs)[c] <= 1;
    match o {
      case OfThread(t) =>
        SumHas(Leased, s.threads, t);
        assert ts[c] == 1;
        match o' {
          case OfThread(t') =>
            if t != t' { SumHasBoth(Leased, s.threads, if t < t' then t else t', if t < t' then t' else t); }
          case OfGuard(g) => SumHas(Owned, s.guards, g);
        }
      case OfGuard(g) =>
        SumHas(Owned, s.guards, g);
        assert gs[c] == 1;
        match o' {
          case OfThread(t') => SumHas(Leased, s.threads, t');
          case OfGuard(g') =>
            if g != g' { SumHasBoth(Owned, s.guards, if g < g' then g else g', if g < g' then g' else g); }
        }
    }
  }

  lemma InUseOnce(p: Pool, c: Ptr)
    ensures multiset(p.inUse)[c] <= Lists(p)[c]
  {
  }

  /** The scanner alone never takes the pool below its lower limit. */
  lemma {:induction false} ScanKeepsMinimum(s: State, expired: seq<Ptr>)
    ensures ExpireStep(s, expired).pool.minConn == s.pool.minConn
    ensures s.pool.total >= s.pool.minConn ==> ExpireStep(s, expired).pool.total >= s.pool.minConn
    ensures s.pool.total <= s.pool.minConn ==> ExpireStep(s, expired) == s
    decreases |expired|
  {
    hide Referenced, Remove, Wrap;
    if expired != [] && s.pool.total > s.pool.minConn {
      WrapId(s.pool.total - 1);
      ScanKeepsMinimum(Delete(s.(pool := ExpiredOne(s.pool, expired[0])), expired[0]), expired[1..]);
    }
  }

  /** The scanner's loop in the machine is the loop of the pool object. */
  lemma {:induction false} ScanAgrees(s: State, expired: seq<Ptr>)
    ensures ExpireStep(s, expired).pool == ExpiredAll(s.pool, expired)
    ensures ExpireStep(s, expired).live == s.live - set c | c in DeletedOf(s.pool, expired)
    decreases |expired|
  {
    hide Referenced, ExpiredOne;
    if expired != [] && s.pool.total > s.pool.minConn {
      ScanAgrees(Delete(s.(pool := ExpiredOne(s.pool, expired[0])), expired[0]), expired[1..]);
    }
  }

  /** How many of n long idle connections the scanner may delete. */
  function Surplus(p: Pool, n: nat): nat {
    if p.total <= p.minConn then 0 else if n < p.total - p.minConn then n else p.total - p.minConn
  }

  /** The connections gone have left the pool, and nothing else has. */
  ghost predicate Without(p: Pool, gone: seq<Ptr>, p': Pool) {
    && p'.total == p.total - |gone| && p'.inUse == p.inUse && p'.borrowTime == p.borrowTime && SameLimits(p, p')
    && (forall c :: c in p'.idle <==> c in p.idle && c !in gone)
    && p'.returnTime == p.returnTime - (set c | c in gone) && p'.warn == p.warn - set c | c in gone
  }

  lemma WithoutNothing(p: Pool)
    ensures Without(p, [], p)
  {
    var none: seq<Ptr> := [];
    assert (set c | c in none) == {};
  }

  lemma WithoutOneMore(p: Pool, conn: Ptr, rest: seq<Ptr>, p': Pool)
    requires p.total > 0 && Without(ExpiredOne(p, conn), rest, p')
    ensures Without(p, [conn] + rest, p')
  {
    hide Remove, Wrap;
    WrapId(p.total - 1);
    RemoveTakesAll(p.idle, conn);
    assert (set c | c in [conn] + rest) == {conn} + set c | c in rest;
  }

  lemma {:induction false} ExpireMeaning(s: State, expired: seq<Ptr>)
    ensures var s', gone := ExpireStep(s, expired), expired[..Surplus(s.pool, |expired|)];
            Without(s.pool, gone, s'.pool) && s'.live == s.live - set c | c in gone
    decreases |expired|
  {
    hide Referenced, ExpiredOne, Without;
    var n := Surplus(s.pool, |expired|);
    if n == 0 {
      WithoutNothing(s.pool);
      assert expired[..n] == [];
    } else {
      var conn := expired[0];
      var mid := Delete(s.(pool := ExpiredOne(s.pool, conn)), conn);
      ExpireMeaning(mid, expired[1..]);
      OneLess(s.pool, conn, |expired|);
      var gone, rest := expired[..n], expired[1..][..n - 1];
      assert gone == [conn] + rest;
      WithoutOneMore(s.pool, conn, rest, ExpireStep(s, expired).pool);
      assert (set c | c in gone) == {conn} + set c | c in rest;
    }
  }

  lemma OneLess(p: Pool, conn: Ptr, n: nat)
    requires n > 0 && p.total > p.minConn
    ensures Surplus(ExpiredOne(p, conn), n - 1) == Surplus(p, n) - 1
  {
    hide Wrap, Remove;
    WrapId(p.total - 1);
  }

  /** One pass of the scanner: what is overdue is in the log, once; and of the long idle connections the first ones, as
      many as there are above the lower limit, leave the lists, the tables and the heap, and nothing else does. */
  lemma ScanMeaning(s: State, overdue: set<Ptr>, expired: seq<Ptr>)
    requires Inv(s) && overdue <= s.pool.borrowTime.Keys
    requires NoDup(expired) && forall c :: c in expired ==> c in s.pool.returnTime
    ensures Enabled(s, Scan(overdue, expired))
    ensures var s', p := Apply(s, Scan(overdue, expired)), s.pool;
            var gone := expired[..Surplus(p, |expired|)];
            && s'.pool.total == p.total - |gone| && s'.live == s.live - (set c | c in gone)
            && s'.pool.inUse == p.inUse && s'.pool.borrowTime == p.borrowTime && s'.threads == s.threads
            && (forall c :: c in s'.pool.idle <==> c in p.idle && c !in gone)
            && s'.pool.returnTime.Keys == p.returnTime.Keys - (set c | c in gone)
            && s'.pool.warn.Keys == p.warn.Keys + overdue - (set c | c in gone)
            && (forall c :: c in s'.pool.warn ==> s'.pool.warn[c] == 1)
  {
    hide ExpireStep, Sum, Outstanding, Reported;
    var mid := s.(pool := Reported(s.pool, overdue));
    ReportedMeaning(s.pool, overdue);
    ExpireMeaning(mid, expired);
    ScanElsewhere(mid, expired);
  }

  lemma ReportedMeaning(p: Pool, overdue: set<Ptr>)
    requires forall c :: c in p.warn ==> p.warn[c] == 1
    ensures var q := Reported(p, overdue);
            && q == p.(warn := q.warn) && q.warn.Keys == p.warn.Keys + overdue
            && forall c :: c in q.warn ==> q.warn[c] == 1
  {
  }

  lemma {:induction false} ScanElsewhere(s: State, expired: seq<Ptr>)
    ensures ExpireStep(s, expired).threads == s.threads && ExpireStep(s, expired).guards == s.guards
    decreases |expired|
  {
    hide Referenced, ExpiredOne;
    if expired != [] && s.pool.total > s.pool.minConn {
      ScanElsewhere(Delete(s.(pool := ExpiredOne(s.pool, expired[0])), expired[0]), expired[1..]);
    }
  }

  /** emplace never meets an old entry: the tables hold the time at which this lease began, and a new lease has not
      been reported yet. */
  lemma LeaseBeginsNow(s0: State, steps: seq<Step>, s: State, t: nat, now: nat)
    requires Init(s0) && Run(s0, steps, s) && Enabled(s, Take(t, now))
    ensures var p, conn := Apply(s, Take(t, now)).pool, s.pool.idle[|s.pool.idle| - 1];
            && conn in p.borrowTime && p.borrowTime[conn] == now && conn !in p.returnTime && conn !in p.warn
            && (forall c :: c in s.pool.borrowTime ==> c in p.borrowTime && p.borrowTime[c] == s.pool.borrowTime[c])
  {
    hide Init, Run, Sum, Outstanding;
    Reachable(s0, steps, s);
    CleanPool(s);
    CleanListsOnce(s.pool);
  }

  /** The same for the return: the time recorded is that of this return, and the connection is the next to be lent. */
  lemma ReturnBeginsNow(s0: State, steps: seq<Step>, s: State, g: nat, now: nat)
    requires Init(s0) && Run(s0, steps, s) && Enabled(s, Destroy(g, now)) && s.guards[g].Holding?
    ensures var p, conn := Apply(s, Destroy(g, now)).pool, s.guards[g].conn;
            && conn in p.returnTime && p.returnTime[conn] == now && conn !in p.borrowTime && conn !in p.inUse
            && p.idle == s.pool.idle + [conn]
            && (forall c :: c in s.pool.returnTime ==> c in p.returnTime && p.returnTime[c] == s.pool.returnTime[c])
  {
    hide Init, Run, Sum, Outstanding, Remove;
    Reachable(s0, steps, s);
    GuardIsLent(s, g);
    CleanPool(s);
    CleanListsOnce(s.pool);
    RemoveTakesAll(s.pool.inUse, s.guards[g].conn);
  }

  // ---------- the retry loop in the machine ----------

  lemma {:induction false} RunSnoc(s: State, steps: seq<Step>, s1: State, step: Step)
    requires Run(s, steps, s1) && Enabled(s1, step)
    ensures Run(s, steps + [step], Apply(s1, step))
    decreases |steps|
  {
    hide Apply, Enabled;
    if steps == [] {
      RunNone(Apply(s, step));
      assert [step][1..] == [];
      assert steps + [step] == [step];
    } else {
      assert (steps + [step])[1..] == steps[1..] + [step];
      RunSnoc(Apply(s, steps[0]), steps[1..], s1, step);
    }
  }

  lemma RunNone(s: State)
    ensures Run(s, [], s)
  {
  }

  /** Where a thread in expand is after some attempts. */
  function Trying(s: State, t: nat, need: nat, r: Retry): State
    requires t < |s.threads|
  {
    At(s, t, if r.over then Committing(need, r.made) else Creating(need, r.made, r.i, r.retries))
      .(live := s.live + set c | c in r.made)
  }

  /** An execution of the object's retry loop is a run of the machine, and leads to the same connections. */
  lemma CreateRefines(s: State, t: nat, need: nat, log: seq<Attempt>) returns (steps: seq<Step>)
    requires t < |s.threads| && s.threads[t] == Creating(need, [], 0, need) && Complete(need, log)
    requires var made := Tried(need, log).made; NoDup(made) && (set c | c in made) !! s.live
    ensures var made := Tried(need, log).made;
            Run(s, steps, At(s, t, Committing(need, made)).(live := s.live + set c | c in made))
  {
    hide Run, Tried;
    assert log[..|log|] == log;
    steps := AttemptsRefine(s, t, need, log, |log|);
    var r := Tried(need, log);
    if !r.over {
      CreateDoneRefines(s, t, need, r);
      RunSnoc(s, steps, Trying(s, t, need, r), CreateDone(t));
      steps := steps + [CreateDone(t)];
    }
  }

  lemma CreateDoneRefines(s: State, t: nat, need: nat, r: Retry)
    requires t < |s.threads| && !r.over && r.i >= r.retries
    ensures var mid := Trying(s, t, need, r);
            && Enabled(mid, CreateDone(t))
            && Apply(mid, CreateDone(t)) == At(s, t, Committing(need, r.made)).(live := s.live + set c | c in r.made)
  {
    assert s.threads[t := Creating(need, r.made, r.i, r.retries)][t := Committing(need, r.made)]
        == s.threads[t := Committing(need, r.made)];
  }

  lemma {:induction false} AttemptsRefine(s: State, t: nat, need: nat, log: seq<Attempt>, n: nat)
    returns (steps: seq<Step>)
    requires t < |s.threads| && s.threads[t] == Creating(need, [], 0, need) && n <= |log| && Complete(need, log)
    requires var made := Tried(need, log[..n]).made; NoDup(made) && (set c | c in made) !! s.live
    ensures Run(s, steps, Trying(s, t, need, Tried(need, log[..n])))
  {
    hide Run, Tried, Enabled, Apply;
    if n == 0 {
      NotTried(need);
      steps := [];
      assert s.threads[t := s.threads[t]] == s.threads;
      assert log[..0] == [];
      assert Trying(s, t, need, Tried(need, log[..0])) == s;
      RunNone(s);
    } else {
      var r, a := Tried(need, log[..n - 1]), log[n - 1];
      assert log[..n] == log[..n - 1] + [a];
      TriedSnoc(need, log[..n - 1], a);
      MadeBefore(r.made, NextTry(r, a).made, a);
      steps := AttemptsRefine(s, t, need, log, n - 1);
      var step := AttemptRefines(s, t, need, r, a);
      RunSnoc(s, steps, Trying(s, t, need, r), step);
      steps := steps + [step];
    }
  }

  lemma MadeBefore(made: seq<Ptr>, made': seq<Ptr>, a: Attempt)
    requires NoDup(made') && made' == if a.Good? then made + [a.conn] else made
    ensures NoDup(made) && (set c | c in made) <= (set c | c in made') && (a.Good?
        ==> a.conn !in made && a.conn in made')
  {
    if a.Good? {
      assert made'[|made|] == a.conn;
      assert forall i :: 0 <= i < |made| ==> made'[i] == made[i];
    }
  }

  lemma AttemptRefines(s: State, t: nat, need: nat, r: Retry, a: Attempt) returns (step: Step)
    requires t < |s.threads| && GoesOn(r) && (a.Good? ==> a.conn !in s.live && a.conn !in r.made)
    ensures var mid := Trying(s, t, need, r);
            Enabled(mid, step) && Apply(mid, step) == Trying(s, t, need, NextTry(r, a))
  {
    var mid, r' := Trying(s, t, need, r), NextTry(r, a);
    step := match a case Good(conn) => CreateGood(t, conn) case Bad => CreateBad(t);
    var th := if r'.over then Committing(need, r'.made) else Creating(need, r'.made, r'.i, r'.retries);
    assert s.threads[t := mid.threads[t]][t := th] == s.threads[t := th];
    assert a.Good? ==> s.live + (set c | c in r.made) + {a.conn} == s.live + set c | c in r'.made;
  }
}
