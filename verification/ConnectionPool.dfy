/** The pool object and the wrapper that owns a connection while it is used. */
module ConnectionPool {
  import opened Wrappers
  import opened PoolProtocol

  class ConnectionPool {
    var conPool: seq<Connection>
    var poolSize: int
    var nextConnection: Connection
    ghost var monitor: Pool          // the whole monitor, with the threads and tasks around it

    /** A negative size opens no connection. */
    function Size(): nat
      reads this
    {
      if poolSize < 0 then 0 else poolSize
    }

    ghost predicate Valid()
      reads this
    {
      monitor.idle == conPool && monitor.next == nextConnection && Inv(monitor, Size())
    }

    /** The connections idle, held, being replaced and lost always add up to the pool size; a negative one counts as 0. */
    lemma SizeConserved()
      requires Valid()
      ensures poolSize >= 0 ==> |conPool| + |monitor.held| + monitor.replenishing + monitor.lost == poolSize
      ensures poolSize < 0 ==> conPool == [] && monitor.held == map[] && monitor.replenishing == 0 && monitor.lost == 0
    {
      if poolSize < 0 {
        assert monitor.held.Keys == {};
      }
    }

    constructor ()
      ensures Valid() && poolSize == 0 && monitor == Initial(0)
    {
      conPool, poolSize, nextConnection, monitor := [], 0, 0, Initial(0);
    }

    /** Opens the connections, unless there are some already. */
    method Init(size: int)
      requires Valid() && monitor == Initial(|conPool|)
      modifies this
      ensures Valid()
      ensures old(conPool) != [] ==> conPool == old(conPool) && poolSize == old(poolSize)
      ensures old(conPool) == [] ==> poolSize == size && monitor == Initial(|conPool|)
      ensures old(conPool) == [] && size >= 0 ==> |conPool| == size
      ensures old(conPool) == [] && size < 0 ==> conPool == []
      ensures old(conPool) == [] ==> forall i, j :: 0 <= i < j < |conPool| ==> conPool[i] != conPool[j]
    {
      if conPool != [] {
        return;
      }
      poolSize := size;
      var i := 0;
      while i < poolSize
        invariant poolSize == size && 0 <= i <= Size()
        invariant conPool == Opened(i) && nextConnection == i
      {
        conPool := conPool + [nextConnection];
        nextConnection := nextConnection + 1;
        i := i + 1;
      }
      monitor := Initial(i);
      InitialInv(i);
    }

    /** The predicate test of getConnection under the mutex, at entry or after a wake-up; None means that t waits. */
    method TestAndTake(t: Thread, woken: bool) returns (c: Option<Connection>)
      requires Valid()
      requires if woken then t in monitor.awakened else t !in monitor.awakened && t !in monitor.waiting
      modifies this
      ensures Valid() && poolSize == old(poolSize)
      ensures monitor == Next(old(monitor), if woken then Recheck(t) else Get(t))
      ensures c == if old(conPool) == [] then None else Some(old(conPool)[|old(conPool)| - 1])
      ensures c.Some? ==> c.value in monitor.held && monitor.held[c.value] && conPool + [c.value] == old(conPool)
                          && t !in monitor.waiting && t !in monitor.awakened
      ensures c.None? ==> conPool == [] && t in monitor.waiting && t !in monitor.awakened
    {
      var step := if woken then Recheck(t) else Get(t);
      assert Enabled(monitor, step);
      NextKeepsInv(monitor, Size(), step);
      monitor := Next(monitor, step);
      if conPool == [] {
        return None;
      }
      var last := |conPool| - 1;
      c := Some(conPool[last]);
      conPool := conPool[..last];
    }

    /** Under the mutex; the notification follows outside it. */
    method ReturnConnection(c: Connection)
      requires Valid() && c in monitor.held && monitor.held[c]
      modifies this
      ensures Valid() && poolSize == old(poolSize)
      ensures monitor == Next(old(monitor), Release(c))
      ensures conPool == old(conPool) + [c]
    {
      NextKeepsInv(monitor, Size(), Release(c));
      monitor := Next(monitor, Release(c));
      conPool := conPool + [c];
    }

    /** The posted replacement task, with the outcome of opening a connection. */
    method RunReplenishTask(succeeds: bool)
      requires Valid() && monitor.replenishing > 0
      modifies this
      ensures Valid() && poolSize == old(poolSize)
      ensures monitor == Next(old(monitor), Replenish(succeeds))
      ensures conPool == if succeeds then old(conPool) + [old(nextConnection)] else old(conPool)
    {
      NextKeepsInv(monitor, Size(), Replenish(succeeds));
      monitor := Next(monitor, Replenish(succeeds));
      var connection := nextConnection;
      nextConnection := nextConnection + 1;
      if succeeds {
        conPool := conPool + [connection];
      }
    }
  }

  class ConnectionWrapper {
    const pool: ConnectionPool
    var connection: Option<Connection>
    var isValid: bool

    /** The wrapper owns its connection, and the pool knows whether it is marked invalid. */
    ghost predicate Owns()
      reads this, pool
    {
      connection.Some? ==> connection.value in pool.monitor.held && pool.monitor.held[connection.value] == isValid
    }

    constructor (pool: ConnectionPool, c: Connection)
      requires c in pool.monitor.held && pool.monitor.held[c]
      ensures this.pool == pool && connection == Some(c) && isValid && Owns()
    {
      this.pool, connection, isValid := pool, Some(c), true;
    }

    method MarkAsInvalid()
      requires pool.Valid() && Owns()
      modifies this`isValid, pool`monitor
      ensures pool.Valid() && Owns() && !isValid
      ensures pool.monitor == if connection.None? then old(pool.monitor)
                              else Next(old(pool.monitor), MarkInvalid(connection.value))
    {
      if connection.Some? {
        var size := pool.Size();
        NextKeepsInv(pool.monitor, size, MarkInvalid(connection.value));
        pool.monitor := Next(pool.monitor, MarkInvalid(connection.value));
      }
      isValid := false;
    }

    /** The destructor: a valid connection goes back, an invalid one is closed and replaced by a task. */
    method Destroy()
      requires pool.Valid() && Owns()
      modifies this`connection, pool
      ensures pool.Valid() && connection.None?
      ensures old(connection).None? ==> pool.monitor == old(pool.monitor)
      ensures old(connection).Some? ==> pool.monitor == Next(old(pool.monitor), Release(old(connection).value))
      ensures old(connection).Some? ==> old(connection).value !in pool.monitor.held
      ensures old(connection).Some? && isValid ==>
                pool.conPool == old(pool.conPool) + [old(connection).value]
                && pool.monitor.notifies == old(pool.monitor.notifies) + 1
      ensures old(connection).Some? && !isValid ==>
                pool.conPool == old(pool.conPool) && pool.monitor.replenishing == old(pool.monitor.replenishing) + 1
    {
      if connection.Some? {
        if isValid {
          pool.ReturnConnection(connection.value);
        } else {
          ReplenishConnectionAsync(connection.value);
        }
        connection := None;
      }
    }

    /** Posts the replacement task; the connection itself is closed with the wrapper. */
    ghost method ReplenishConnectionAsync(c: Connection)
      requires pool.Valid() && c in pool.monitor.held && !pool.monitor.held[c]
      modifies pool`monitor
      ensures pool.Valid() && pool.monitor == Next(old(pool.monitor), Release(c))
    {
      NextKeepsInv(pool.monitor, pool.Size(), Release(c));
      pool.monitor := Next(pool.monitor, Release(c));
    }
  }
}
