/** The pool of database connections: what each of its locked regions does, and the object that does it. A connection
    is known by its address; addresses of deleted connections may be used again. */
module ConnectionPool {
  type Ptr = nat
  datatype Option<T> = None | Some(value: T)

  const SIZE: nat := 0x1_0000_0000_0000_0000
  type size_t = x: nat | x < SIZE

  /** Six pieces of bookkeeping, and the two limits. */
  datatype Pool = Pool(
    idle: seq<Ptr>, inUse: seq<Ptr>,
    borrowTime: map<Ptr, nat>, returnTime: map<Ptr, nat>, warn: map<Ptr, nat>,
    total: size_t, minConn: size_t, maxConn: size_t)

  /** Unsigned arithmetic wraps around. */
  function Wrap(x: int): size_t {
    x % SIZE
  }

  lemma WrapId(x: int)
    requires 0 <= x < SIZE
    ensures Wrap(x) == x
  {
  }

  // ---------- the locked regions ----------

  /** list::remove takes out every occurrence. */
  function Remove(s: seq<Ptr>, x: Ptr): seq<Ptr> {
    if s == [] then []
    else if s[|s| - 1] == x then Remove(s[..|s| - 1], x)
    else Remove(s[..|s| - 1], x) + [s[|s| - 1]]
  }

  lemma {:induction false} RemoveTakesAll(s: seq<Ptr>, x: Ptr)
    ensures multiset(Remove(s, x)) == multiset(s)[x := 0]
    ensures |Remove(s, x)| == |s| - multiset(s)[x]
    ensures forall y :: y in Remove(s, x) <==> y in s && y != x
  {
    if s != [] {
      var init, last := s[..|s| - 1], s[|s| - 1];
      RemoveTakesAll(init, x);
      assert s == init + [last];
      assert multiset(s) == multiset(init) + multiset{last};
    }
  }

  function Initial(conns: seq<Ptr>, minConn: size_t, maxConn: size_t): Pool {
    Pool(conns, [], map[], map[], map[], minConn, minConn, maxConn)
  }

  /** How many connections expand may create: at most two, and the subtraction is unsigned. */
  function Need(p: Pool): nat {
    var room := Wrap(p.maxConn - p.total);
    if room < 2 then room else 2
  }

  function Reserved(p: Pool): Pool {
    p.(total := Wrap(p.total + Need(p)))
  }

  function Committed(p: Pool, need: nat, made: seq<Ptr>): Pool {
    p.(total := Wrap(p.total - need + |made|), idle := p.idle + made)
  }

  /** The connection returned last is lent. emplace keeps an entry that is there already. */
  function Lent(p: Pool, now: nat): Pool
    requires p.idle != []
  {
    var conn := p.idle[|p.idle| - 1];
    p.(idle := p.idle[..|p.idle| - 1], inUse := p.inUse + [conn],
       returnTime := p.returnTime - {conn}, warn := p.warn - {conn},
       borrowTime := Emplace(p.borrowTime, conn, now))
  }

  function Emplace(m: map<Ptr, nat>, key: Ptr, value: nat): map<Ptr, nat> {
    if key in m then m else m[key := value]
  }

  /** A connection that did not answer is struck from the books. */
  function Discarded(p: Pool, conn: Ptr): Pool {
    p.(total := Wrap(p.total - 1), inUse := Remove(p.inUse, conn), warn := p.warn - {conn},
        borrowTime := p.borrowTime - {conn})
  }

  /** A connection that is lent becomes idle; any other address is ignored. */
  function Released(p: Pool, conn: Ptr, now: nat): Pool {
    if conn !in p.borrowTime then p
    else p.(inUse := Remove(p.inUse, conn), borrowTime := p.borrowTime - {conn},
            idle := p.idle + [conn], returnTime := Emplace(p.returnTime, conn, now))
  }

  /** The scanner's log: what is overdue and has not been reported is reported. */
  function Reported(p: Pool, overdue: set<Ptr>): Pool {
    p.(warn := map c | c in p.warn.Keys + overdue ::
                 if c in p.warn && (p.warn[c] > 0 || c !in overdue) then p.warn[c] else 1)
  }

  lemma NoneReported(p: Pool)
    ensures Reported(p, {}) == p
  {
    assert Reported(p, {}).warn == p.warn;
  }

  lemma ReportedKeys(p: Pool, overdue: set<Ptr>)
    ensures Reported(p, overdue).warn.Keys == p.warn.Keys + overdue
  {
  }

  lemma ReportOne(p: Pool, overdue: set<Ptr>, c: Ptr)
    ensures var q := Reported(p, overdue);
            Reported(p, overdue + {c}) == if c !in q.warn || q.warn[c] == 0 then q.(warn := q.warn[c := 1]) else q
  {
    var q := Reported(p, overdue);
    assert Reported(p, overdue + {c}).warn == (if c !in q.warn || q.warn[c] == 0 then q.warn[c := 1] else q.warn);
  }

  function ExpiredOne(p: Pool, conn: Ptr): Pool {
    p.(idle := Remove(p.idle, conn), returnTime := p.returnTime - {conn}, warn := p.warn - {conn},
        total := Wrap(p.total - 1))
  }

  /** How many of the long idle connections the scanner deletes: it stops at the lower limit. */
  function ExpiredAll(p: Pool, conns: seq<Ptr>): Pool
    decreases |conns|
  {
    if conns == [] || p.total <= p.minConn then p else ExpiredAll(ExpiredOne(p, conns[0]), conns[1..])
  }

  function DeletedOf(p: Pool, conns: seq<Ptr>): seq<Ptr>
    decreases |conns|
  {
    if conns == [] || p.total <= p.minConn then [] else [conns[0]] + DeletedOf(ExpiredOne(p, conns[0]), conns[1..])
  }

  predicate NoDup(s: seq<Ptr>) {
    forall i, j :: 0 <= i < j < |s| ==> s[i] != s[j]
  }

  // ---------- the retry loop of expand ----------

  /** One new connection: usable, or not. */
  datatype Attempt = Good(conn: Ptr) | Bad

  /** The variables of the loop, and whether it was left by break. */
  datatype Retry = Retry(made: seq<Ptr>, i: nat, retries: nat, over: bool)

  function NextTry(r: Retry, a: Attempt): Retry {
    match a
    case Good(conn) => r.(made := r.made + [conn], i := r.i + 1)
    case Bad => if r.retries + 1 > 5 then r.(retries := r.retries + 1, over := true)
                else r.(retries := r.retries + 1, i := r.i + 1)
  }

  function Tried(need: nat, log: seq<Attempt>): Retry {
    if log == [] then Retry([], 0, need, false) else NextTry(Tried(need, log[..|log| - 1]), log[|log| - 1])
  }

  predicate GoesOn(r: Retry) {
    !r.over && r.i < r.retries
  }

  /** log is a whole execution of the loop: it went on after each attempt but the last. */
  predicate Complete(need: nat, log: seq<Attempt>) {
    !GoesOn(Tried(need, log)) && forall k :: 0 <= k < |log| ==> GoesOn(Tried(need, log[..k]))
  }

  lemma TriedSnoc(need: nat, log: seq<Attempt>, a: Attempt)
    ensures Tried(need, log + [a]) == NextTry(Tried(need, log), a)
  {
    assert (log + [a])[..|log|] == log;
  }

  /** Along the loop, its variables are determined by the number of good and of bad attempts. */
  lemma {:induction false} TriedCounts(need: nat, log: seq<Attempt>)
    requires 1 <= need <= 2 && forall k :: 0 <= k < |log| ==> GoesOn(Tried(need, log[..k]))
    ensures var r := Tried(need, log);
            var bad := |log| - |r.made|;
            && 0 <= bad && r.retries == need + bad && |r.made| <= need
            && (r.over <==> r.retries > 5) && r.retries <= 6 && (!r.over ==> r.i == |log|)
  {
    if log != [] {
      var init := log[..|log| - 1];
      forall k | 0 <= k < |init|
        ensures GoesOn(Tried(need, init[..k]))
      {
        assert init[..k] == log[..k];
      }
      TriedCounts(need, init);
      assert GoesOn(Tried(need, log[..|log| - 1]));
    }
  }

  /** How the loop ends: with as many usable connections as were wanted, or after six failures less that number. */
  lemma RetryEnds(need: nat, log: seq<Attempt>)
    requires 1 <= need <= 2 && Complete(need, log)
    ensures var made := Tried(need, log).made;
            |made| == need || (|made| < need && |log| - |made| == 6 - need)
  {
    TriedCounts(need, log);
  }

  // ---------- the objects ----------

  class Heap {
    var live: set<Ptr>
    /** What each new gave. */
    ghost var log: seq<Attempt>

    constructor ()
      ensures live == {} && log == []
    {
      live, log := {}, [];
    }

    /** new Connection: some address that is not in use, and whether the connection is usable. */
    method New() returns (conn: Ptr, valid: bool)
      modifies this
      ensures conn !in old(live) && live == old(live) + {conn}
      ensures log == old(log) + [if valid then Good(conn) else Bad]
    {
      conn := *;
      if conn in live {
        conn := Above(live);
      }
      valid := *;
      live := live + {conn};
      log := log + [if valid then Good(conn) else Bad];
    }

    /** delete may be given only what is allocated. */
    method Delete(conn: Ptr)
      requires conn in live
      modifies this
      ensures live == old(live) - {conn} && log == old(log)
    {
      live := live - {conn};
    }
  }

  /** Some address above everything in s. */
  method Above(s: set<Ptr>) returns (x: Ptr)
    ensures x !in s
  {
    var rest := s;
    x := 0;
    while rest != {}
      invariant rest <= s && forall y :: y in s && y !in rest ==> y < x
    {
      var y :| y in rest;
      if x <= y {
        x := y + 1;
      }
      rest := rest - {y};
    }
  }

  class ConnectionPool {
    var idle: seq<Ptr>
    var inUse: seq<Ptr>
    var borrowTime: map<Ptr, nat>
    var returnTime: map<Ptr, nat>
    var warn: map<Ptr, nat>
    var total: size_t
    const minConn: size_t
    const maxConn: size_t
    const heap: Heap

    function View(): Pool
      reads this
    {
      Pool(idle, inUse, borrowTime, returnTime, warn, total, minConn, maxConn)
    }

    /** Creates the first connections; none of them is checked. */
    constructor (minConn: size_t, maxConn: size_t, heap: Heap)
      modifies heap
      ensures this.heap == heap && View() == Initial(idle, minConn, maxConn)
      ensures |idle| == minConn && NoDup(idle)
      ensures (set c | c in idle) !! old(heap.live) && heap.live == old(heap.live) + set c | c in idle
    {
      this.minConn, this.maxConn, this.heap := minConn, maxConn, heap;
      inUse, borrowTime, returnTime, warn, total := [], map[], map[], map[], minConn;
      idle := [];
      new;
      var i := 0;
      while i < minConn
        invariant i == |idle| <= minConn && NoDup(idle)
        invariant View() == Initial(idle, minConn, maxConn)
        invariant (set c | c in idle) !! old(heap.live) && heap.live == old(heap.live) + set c | c in idle
      {
        var conn, _ := heap.New();
        idle := idle + [conn];
        i := i + 1;
      }
    }

    /** The first locked region of expand. */
    method Reserve() returns (need: nat)
      modifies this`total
      ensures need == Need(old(View())) <= 2
      ensures View() == if need == 0 then old(View()) else Reserved(old(View()))
    {
      var room := Wrap(maxConn - total);
      need := if room < 2 then room else 2;
      if need == 0 {
        return;
      }
      total := Wrap(total + need);
    }

    /** The loop of expand, outside the lock: tries again after a connection that is not usable. What it makes is what
        its attempts gave, it makes all the attempts of one execution of the loop, and what was not usable is
        deleted. */
    method CreateSome(need: nat) returns (made: seq<Ptr>)
      requires 1 <= need <= 2
      modifies heap
      ensures old(heap.log) <= heap.log
      ensures var log := heap.log[|old(heap.log)|..]; Complete(need, log) && made == Tried(need, log).made
      ensures |made| <= need && NoDup(made)
      ensures (set c | c in made) !! old(heap.live) && heap.live == old(heap.live) + set c | c in made
    {
      hide Tried, NextTry;
      made := [];
      ghost var before, log: seq<Attempt> := heap.log, [];
      var retries, i, count, over := need, 0, 0, false;
      NotTried(need);
      while i < retries
        invariant heap.log == before + log && !over && Tried(need, log) == Retry(made, i, retries, over)
        invariant forall k :: 0 <= k < |log| ==> GoesOn(Tried(need, log[..k]))
        invariant count == |made| && i <= retries <= 5 && i - count == retries - need && NoDup(made)
        invariant (set c | c in made) !! old(heap.live) && heap.live == old(heap.live) + set c | c in made
        decreases 6 - retries, retries - i
      {
        var conn, valid := heap.New();
        ghost var a := if valid then Good(conn) else Bad;
        GoesOnSnoc(need, log, a);
        log := log + [a];
        if valid {
          made := made + [conn];
          count := count + 1;
        } else {
          heap.Delete(conn);
          retries := retries + 1;
          if retries > 5 {
            over := true;
            break;
          }
        }
        i := i + 1;
      }
      assert heap.log[|before|..] == log;
    }

    /** The second locked region of expand. */
    method Commit(need: nat, made: seq<Ptr>)
      modifies this`total, this`idle
      ensures View() == Committed(old(View()), need, made)
    {
      total := Wrap(total - need + |made|);
      var i := 0;
      while i < |made|
        invariant i <= |made| && idle == old(idle) + made[..i] && total == Wrap(old(total) - need + |made|)
      {
        idle := idle + [made[i]];
        i := i + 1;
      }
      assert made[..i] == made;
    }

    /** The end of acquire's wait: lends the connection that was returned last. */
    method Take(now: nat) returns (conn: Ptr)
      requires idle != []
      modifies this
      ensures conn == old(idle[|idle| - 1]) && View() == Lent(old(View()), now)
    {
      conn := idle[|idle| - 1];
      returnTime := returnTime - {conn};
      idle := idle[..|idle| - 1];
      inUse := inUse + [conn];
      borrowTime := Emplace(borrowTime, conn, now);
      warn := warn - {conn};
    }

    /** The locked region of acquire behind a failed ping. */
    method Discard(conn: Ptr)
      modifies this
      ensures View() == Discarded(old(View()), conn)
    {
      total := Wrap(total - 1);
      inUse := Remove(inUse, conn);
      warn := warn - {conn};
      borrowTime := borrowTime - {conn};
    }

    method Release(conn: Ptr, now: nat)
      modifies this
      ensures View() == Released(old(View()), conn, now)
    {
      if conn in borrowTime {
        inUse := Remove(inUse, conn);
        borrowTime := borrowTime - {conn};
        idle := idle + [conn];
        returnTime := Emplace(returnTime, conn, now);
      }
    }

    function Overdue(now: nat): set<Ptr>
      reads this
    {
      set c | c in borrowTime && now > borrowTime[c] + 5
    }

    /** The first loop of the scanner: reports what has been lent for more than five seconds. */
    method WarnOverdue(now: nat)
      modifies this`warn
      ensures forall c :: c in warn <==> c in old(warn) || (c in borrowTime && now - borrowTime[c] > 5)
      ensures View() == Reported(old(View()), Overdue(now))
    {
      hide Reported;
      ghost var p, overdue := View(), Overdue(now);
      NoneReported(p);
      var todo := borrowTime.Keys;
      assert overdue - todo == {};
      while todo != {}
        invariant todo <= borrowTime.Keys
        invariant View() == Reported(p, overdue - todo)
        invariant borrowTime == p.borrowTime
      {
        var c :| c in todo;
        ReportOne(p, overdue - todo, c);
        assert overdue - (todo - {c}) == if c in overdue then overdue - todo + {c} else overdue - todo;
        if now > borrowTime[c] + 5 {
          if c !in warn || warn[c] <= 0 {
            warn := warn[c := 1];
          }
        }
        todo := todo - {c};
      }
      assert overdue - todo == overdue;
      ReportedKeys(p, overdue);
      assert warn.Keys == p.warn.Keys + overdue;
    }

    /** The rest of the scanner's locked region: while there are more connections than the lower limit, deletes those
        that have been idle for more than thirty seconds, in the order in which the table yields them. */
    method DeleteExpired(now: nat) returns (expired: seq<Ptr>)
      requires returnTime.Keys <= heap.live
      modifies this, heap
      ensures NoDup(expired)
      ensures old(total) > minConn ==>
                forall c :: c in expired <==> c in old(returnTime) && now > old(returnTime)[c] + 30
      ensures View() == ExpiredAll(old(View()), expired)
      ensures heap.live == old(heap.live) - set c | c in DeletedOf(old(View()), expired)
    {
      expired := [];
      if total > minConn {
        expired := FindExpired(now);
        DeleteWhileAbove(expired);
      }
    }

    method FindExpired(now: nat) returns (expired: seq<Ptr>)
      ensures NoDup(expired)
      ensures forall c :: c in expired <==> c in returnTime && now > returnTime[c] + 30
    {
      expired := [];
      var todo := returnTime.Keys;
      while todo != {}
        invariant todo <= returnTime.Keys && NoDup(expired)
        invariant forall c :: c in expired <==> c in returnTime && c !in todo && now > returnTime[c] + 30
      {
        var c :| c in todo;
        if now > returnTime[c] + 30 {
          expired := expired + [c];
        }
        todo := todo - {c};
      }
    }

    method DeleteWhileAbove(expired: seq<Ptr>)
      requires NoDup(expired) && forall c :: c in expired ==> c in heap.live
      modifies this, heap
      ensures View() == ExpiredAll(old(View()), expired)
      ensures heap.live == old(heap.live) - set c | c in DeletedOf(old(View()), expired)
    {
      hide Remove, Wrap;
      ghost var gone: seq<Ptr> := [];
      var i := 0;
      while i < |expired| && total > minConn
        invariant i <= |expired|
        invariant ExpiredAll(View(), expired[i..]) == ExpiredAll(old(View()), expired)
        invariant gone + DeletedOf(View(), expired[i..]) == DeletedOf(old(View()), expired)
        invariant heap.live == old(heap.live) - set c | c in gone
        invariant forall c :: c in gone ==> c in expired[..i]
      {
        var conn := expired[i];
        assert expired[i..][0] == conn && expired[i..][1..] == expired[i + 1..];
        idle := Remove(idle, conn);
        returnTime := returnTime - {conn};
        warn := warn - {conn};
        total := Wrap(total - 1);
        heap.Delete(conn);
        gone := gone + [conn];
        i := i + 1;
      }
      assert gone + [] == gone;
    }
  }

  lemma NotTried(need: nat)
    ensures Tried(need, []) == Retry([], 0, need, false)
  {
  }

  lemma GoesOnSnoc(need: nat, log: seq<Attempt>, a: Attempt)
    requires GoesOn(Tried(need, log)) && forall k :: 0 <= k < |log| ==> GoesOn(Tried(need, log[..k]))
    ensures forall k :: 0 <= k < |log + [a]| ==> GoesOn(Tried(need, (log + [a])[..k]))
    ensures var r := Tried(need, log);
            Tried(need, log + [a]) ==
            if a.Good? then Retry(r.made + [a.conn], r.i + 1, r.retries, r.over)
            else if r.retries + 1 > 5 then Retry(r.made, r.i, r.retries + 1, true)
            else Retry(r.made, r.i + 1, r.retries + 1, r.over)
  {
    TriedSnoc(need, log, a);
    forall k | 0 <= k < |log + [a]|
      ensures GoesOn(Tried(need, (log + [a])[..k]))
    {
      assert (log + [a])[..k] == log[..k];
      assert log[..|log|] == log;
    }
  }
}
