/** The owner of one lent connection: it can be moved but not copied, and it returns the connection when it dies. */
module ConnectionGuard {
  import opened ConnectionPool
  import opened PoolMachine
  import opened PoolProofs

  class ConnectionGuard {
    var conn: Option<Ptr>
    /** The pool whose release the callback runs; null when there is none. */
    var callback: ConnectionPool?

    /** What the destructor would return, and where. */
    function Owned(): Option<Ptr>
      reads this
    {
      if callback == null then None else conn
    }

    constructor (conn: Option<Ptr>, callback: ConnectionPool?)
      ensures this.conn == conn && this.callback == callback
    {
      this.conn, this.callback := conn, callback;
    }

    /** Move construction leaves the other guard with nothing. */
    constructor Move(other: ConnectionGuard)
      modifies other
      ensures conn == old(other.conn) && callback == old(other.callback)
      ensures other.conn == None && other.callback == null
    {
      conn, callback := other.conn, other.callback;
      new;
      other.conn, other.callback := None, null;
    }

    /** The destructor's body: a guard that owns a connection returns it once. */
    method Destroy(now: nat)
      modifies callback
      ensures callback != null ==>
                callback.View() ==
                match conn
                case Some(c) => Released(old(callback.View()), c, now)
                case None => old(callback.View())
    {
      if conn.Some? && callback != null {
        callback.Release(conn.value, now);
      }
    }

    /** Move assignment: what this guard owned is returned first, and then what the other one owned is taken over. A
        guard assigned to itself is left as it is. */
    method Assign(other: ConnectionGuard, now: nat)
      modifies this, other, callback
      ensures this == other ==> conn == old(conn) && callback == old(callback)
      ensures this != other ==> conn == old(other.conn) && callback == old(other.callback)
      ensures this != other ==> other.conn == None && other.callback == null
      ensures old(callback) != null ==>
                old(callback).View() ==
                if this == other || old(conn).None? then old(callback.View())
                else Released(old(callback.View()), old(conn).value, now)
    {
      if this != other {
        if conn.Some? && callback != null {
          callback.Release(conn.value, now);
        }
        conn, callback := other.conn, other.callback;
        other.conn, other.callback := None, null;
      }
    }

    method IsEmpty() returns (empty: bool)
      ensures empty == (conn == None)
    {
      empty := conn.None?;
    }
  }

  /** The guard as the step machine sees it. */
  function View(conn: Option<Ptr>): Guard {
    match conn case Some(c) => Holding(c) case None => Empty
  }

  /** What assigning guard other, which holds theirs, to guard g, which holds mine, makes of s. */
  predicate Assigned(s: State, s': State, g: nat, other: nat, now: nat, mine: Option<Ptr>, theirs: Option<Ptr>) {
    && g < |s.guards| == |s'.guards| && other < |s.guards|
    && s'.pool == (match mine case Some(c) => Released(s.pool, c, now) case None => s.pool)
    && s'.guards[g] == View(theirs) && s'.guards[other] == Empty
    && forall k :: 0 <= k < |s.guards| && k != g && k != other ==> s'.guards[k] == s.guards[k]
  }

  /** Assigning one guard to another is the machine's step: the pool and both guards end up as in the object. */
  lemma AssignAgrees(s: State, g: nat, other: nat, now: nat, mine: Option<Ptr>, theirs: Option<Ptr>)
    requires Inv(s) && g < |s.guards| && other < |s.guards| && g != other
    requires s.guards[g] == View(mine) && s.guards[other] == View(theirs)
    ensures Assigned(s, Apply(s, MoveAssign(g, other, now)), g, other, now, mine, theirs)
  {
    hide Inv, Released;
    KeepsMoveAssign(s, g, other, now);
  }

  /** Destroying a guard is the machine's step: what it held is released into the pool, and no other guard changes. */
  lemma DestroyAgrees(s: State, g: nat, now: nat, mine: Option<Ptr>)
    requires Inv(s) && g < |s.guards| && s.guards[g] == View(mine)
    ensures var s' := Apply(s, Destroy(g, now));
            && s'.pool == (match mine case Some(c) => Released(s.pool, c, now) case None => s.pool)
            && s'.guards == s.guards[g := Empty] && s'.threads == s.threads && s'.live == s.live
  {
    hide Inv, Released;
    if mine.Some? {
      InvGuardIsLent(s, g);
    }
  }

  /** Moving a guard into a new one is the machine's step: the new guard owns what the old one owned. */
  lemma MoveAgrees(s: State, g: nat, mine: Option<Ptr>)
    requires g < |s.guards| && s.guards[g] == View(mine)
    ensures Apply(s, MoveNew(g)) == s.(guards := s.guards[g := View(None)] + [View(mine)])
  {
    hide Released;
  }
}
