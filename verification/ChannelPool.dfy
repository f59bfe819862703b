/** The pool's own code (pool/connpool/connection_pool.go, pool/connpool/pool_conn.go) on objects.
    `Put` and `PoolConn.Close` call each other as they do in the source; the operations built on
    them are proved to take the steps of PoolModel. */
module ChannelPool {
  import opened Wrappers
  import opened PoolModel
  import Transport

  datatype ConnError = ConnClosed | DialError | IoError

  /** A pooled connection. `raw` is the network connection it wraps, and `rawClosed` says whether that
      was closed. */
  class PoolConn {
    const pool: ChannelPool
    const raw: Transport.Conn
    var unusable: bool
    var rawClosed: bool

    constructor (pool: ChannelPool, raw: Transport.Conn)
      ensures this.pool == pool && this.raw == raw && !unusable && !rawClosed
    {
      this.pool := pool;
      this.raw := raw;
      unusable := false;
      rawClosed := false;
    }

    method MarkUnusable()
      modifies this`unusable
      ensures unusable
    {
      unusable := true;
    }

    /** Requires exactly what PoolModel.CloseReturnsIff shows is needed to return. */
    method Close()
      requires unusable || (pool.open && |pool.conns| < pool.maxCap)
      modifies this, pool`conns
      ensures unusable == old(unusable)
      ensures unusable ==> rawClosed && pool.conns == old(pool.conns)
      ensures !unusable ==> rawClosed == old(rawClosed) && pool.conns == old(pool.conns) + [this]
      decreases if unusable then 0 else 2
    {
      if unusable {
        rawClosed := true;
        return;
      }
      pool.Put(this);
    }

    /** A `Read` or `Write`, which succeeds or not: a failure makes the connection unusable and
        closes it underneath. */
    method ReadOrWrite(ok: bool) returns (err: Option<ConnError>)
      modifies this
      ensures old(unusable) ==> err == Some(ConnClosed) && unusable && rawClosed == old(rawClosed)
      ensures !old(unusable) ==>
                && (err.None? <==> ok)
                && unusable == !ok
                && rawClosed == (old(rawClosed) || !ok)
    {
      if unusable {
        return Some(ConnClosed);
      }
      err := None;
      if !ok {
        MarkUnusable();
        rawClosed := true;
        err := Some(IoError);
      }
    }
  }

  class ChannelPool {
    const maxCap: nat
    var open: bool
    var conns: seq<PoolConn>
    ghost var model: Pool<PoolConn>

    /** The objects are in the state the model describes, and the model is in order. */
    ghost predicate Valid()
      reads this, Known(model)
    {
      && model.cap == maxCap && model.open == open && model.idle == conns
      && Owned(model)
      && forall c | c in Known(model) ::
           c.pool == this && c.unusable == (c in model.unusable) && c.rawClosed == (c in model.closed)
    }

    constructor Empty(maxCap: nat)
      ensures Valid() && model == NewPool(maxCap, []) && this.maxCap == maxCap
    {
      this.maxCap := maxCap;
      open := true;
      conns := [];
      model := NewPool(maxCap, []);
    }

    /** Returns a connection to the queue; on a pool without channel, or with a full queue, closes
        it. Required is what PoolModel.PutReturnsIff shows is needed to return. */
    method Put(conn: PoolConn)
      requires conn.pool == this
      requires !open || |conns| < maxCap || conn.unusable
      modifies this`conns, conn
      ensures !open ==> conn.unusable && conn.rawClosed && conns == old(conns)
      ensures open && |old(conns)| < maxCap ==>
                && conns == old(conns) + [conn]
                && conn.unusable == old(conn.unusable) && conn.rawClosed == old(conn.rawClosed)
      ensures open && |old(conns)| >= maxCap ==> conn.unusable && conn.rawClosed && conns == old(conns)
      decreases 1
    {
      if !open {
        conn.MarkUnusable();
        conn.Close();
      }
      if open && |conns| < maxCap {
        conns := conns + [conn];
      } else {
        conn.Close();
      }
    }

    /** A pooled connection if one is queued, else a new one around what dialling gives (null if it
        fails). In a pool kept in order a queued connection is never refused. */
    method Get(dialled: Transport.Conn?) returns (conn: PoolConn?, err: Option<ConnError>)
      requires Valid()
      modifies this
      ensures Valid()
      ensures conn != null <==> err.None?
      ensures open == old(open) && model.dialling == old(model).dialling
      ensures !open ==> err == Some(ConnClosed) && model == old(model)
      ensures open && old(conns) != [] ==>
                && conn == old(conns)[0] && model == Apply(old(model), PoolModel.Get)
                && conn in model.held && !conn.unusable
      ensures open && old(conns) == [] ==>
                var dialling := Apply(old(model), PoolModel.Get);
                if dialled != null then conn != null && fresh(conn) && conn.raw == dialled
                               && Enabled(dialling, Dialled(conn))
                               && model == Apply(dialling, Dialled(conn))
                else err == Some(DialError) && Enabled(dialling, DialFailed) && model == Apply(dialling, DialFailed)
    {
      conn := null;
      if !open {
        return null, Some(ConnClosed);
      }
      StepKeepsOwned(model, PoolModel.Get);
      if conns != [] {
        var pc := conns[0];
        assert pc in conns;
        model := Apply(model, PoolModel.Get);
        conns := conns[1..];
        if pc.unusable {
          return null, Some(ConnClosed);
        }
        return pc, None;
      }
      if dialled == null {
        return null, Some(DialError);
      }
      conn := new PoolConn(this, dialled);
      err := None;
      ghost var dialling := Apply(model, PoolModel.Get);
      StepKeepsOwned(dialling, Dialled(conn));
      model := Apply(dialling, Dialled(conn));
    }

    /** The deferred `conn.Close()` of a holder: one Close ends one hold. */
    method Return(conn: PoolConn)
      requires Valid() && Enabled(model, PoolModel.Return(conn))
      modifies this, conn
      ensures Valid() && model == Apply(old(model), PoolModel.Return(conn))
    {
      StepKeepsOwned(model, PoolModel.Return(conn));
      conn.Close();
      model := Apply(model, PoolModel.Return(conn));
    }

    /** `MarkUnusable` by a holder. */
    method Mark(conn: PoolConn)
      requires Valid() && conn in model.held
      modifies this`model, conn
      ensures Valid() && model == Apply(old(model), PoolModel.Mark(conn))
    {
      StepKeepsOwned(model, PoolModel.Mark(conn));
      conn.MarkUnusable();
      model := Apply(model, PoolModel.Mark(conn));
    }

    /** Input or output by a holder. */
    method Use(conn: PoolConn, ok: bool) returns (err: Option<ConnError>)
      requires Valid() && conn in model.held
      modifies this`model, conn
      ensures Valid()
      ensures model == if ok || conn in old(model).unusable then old(model)
                       else Apply(old(model), IoFailed(conn))
      ensures err.None? <==> ok && conn !in old(model).unusable
    {
      err := conn.ReadOrWrite(ok);
      if !ok && conn !in model.unusable {
        StepKeepsOwned(model, IoFailed(conn));
        model := Apply(model, IoFailed(conn));
      }
    }

    /** What a holder gets: a usable connection, and room in the queue to take it back. */
    method Lend(dialled: Transport.Conn?) returns (conn: PoolConn?, err: Option<ConnError>)
      requires Valid() && maxCap > 0
      modifies this
      ensures Valid() && open == old(open)
      ensures conn != null <==> err.None?
      ensures conn == null ==> conns == old(conns)
      ensures conn == null <==> !open || (old(conns) == [] && dialled == null)
      ensures conn != null ==>
                && (if old(conns) == [] then fresh(conn) && conn.raw == dialled && conns == []
                    else conn == old(conns)[0] && conns == old(conns)[1..])
                && conn in model.held && !conn.unusable && |conns| < maxCap
    {
      conn, err := Get(dialled);
    }

    /** The end of a holder's use of a connection, which failed or not. */
    method GiveBack(conn: PoolConn, failed: bool)
      requires Valid() && open && conn in model.held && !conn.unusable && |conns| < maxCap
      modifies this, conn
      ensures Valid() && open && conn !in model.held
      ensures conn.unusable == failed && conn.rawClosed == failed
      ensures conns == old(conns) + if failed then [] else [conn]
    {
      assert conn in Known(model);
      if failed {
        var _ := Use(conn, false);
      }
      Return(conn);
    }

    /** One turn of the checker's loop: pop, then close or put back. */
    method CheckOne(verdict: PoolConn -> bool)
      requires Valid() && open && conns != [] && model.checking.None?
      modifies this, conns[0]
      ensures Valid() && open
      ensures model == Apply(Apply(old(model), CheckerTake), CheckerDecide(verdict(old(conns)[0])))
    {
      StepKeepsOwned(model, CheckerTake);
      model := Apply(model, CheckerTake);
      var pc := conns[0];
      conns := conns[1..];
      StepKeepsOwned(model, CheckerDecide(verdict(pc)));
      if !verdict(pc) {
        pc.MarkUnusable();
        pc.Close();
      } else {
        Put(pc);
      }
      model := Apply(model, CheckerDecide(verdict(pc)));
    }

    /** One uninterrupted sweep leaves exactly the queued connections that pass, in their order, and
        every other one unusable and closed. */
    method Sweep(verdict: PoolConn -> bool)
      requires Valid() && model.checking.None?
      modifies this, conns
      ensures Valid() && open == old(open)
      ensures model == Swept(old(model), verdict)
    {
      assert !open ==> conns == [];
      ghost var before := model;
      WholeSweep(before, verdict);
      hide Owned, Known, Kept, Rejected, Swept, SweptTo, Apply, Enabled;
      var length := |conns|;
      for i := 0 to length
        invariant Valid() && open == old(open) && conns == SweptTo(before, verdict, i).idle
        invariant model == SweptTo(before, verdict, i)
      {
        SweepTurn(before, verdict, i);
        CheckOne(verdict);
      }
    }

    /** `Close`: take the channel away, then close whatever it holds. */
    method Close()
      requires Valid()
      modifies this, conns
      ensures Valid() && model == Apply(old(model), ClosePool)
    {
      StepKeepsOwned(model, ClosePool);
      var queue := conns;
      var wasOpen := open;
      conns := [];
      open := false;
      model := Apply(model, ClosePool);
      if !wasOpen {
        return;
      }
      for i := 0 to |queue|
        invariant !open && conns == [] && model == Apply(old(model), ClosePool)
        invariant forall j | 0 <= j < i :: queue[j].unusable && queue[j].rawClosed
        invariant forall c | c in Known(model) && c !in queue ::
                    c.unusable == old(c.unusable) && c.rawClosed == old(c.rawClosed)
      {
        queue[i].MarkUnusable();
        queue[i].Close();
      }
    }
  }

  /** `NewChannelPool`: dial the initial connections (one if the option is 0) and Put each. `dials` are
      the connections that dialling gives, null where it fails. A failing dial gives the pool up, but
      leaves the connections dialled before it open. Required is just that no Put meets a full queue,
      which by PoolModel.SurplusInitialPutHangs would never return. */
  method NewChannelPool(initialCap: nat, maxCap: nat, dials: seq<Transport.Conn?>)
    returns (pool: ChannelPool?, dialled: seq<PoolConn>)
    requires |dials| == if initialCap == 0 then 1 else initialCap
    requires |dials| <= maxCap || null in dials[..maxCap + 1]
    ensures pool != null <==> null !in dials
    ensures pool != null ==> pool.Valid() && pool.model == NewPool(maxCap, dialled) && |dialled| == |dials|
    ensures |dialled| <= |dials| && NoDuplicates(dialled)
    ensures forall i | 0 <= i < |dialled| :: dialled[i].raw == dials[i] && !dialled[i].rawClosed
    ensures pool == null ==> |dialled| < |dials| && dials[|dialled|] == null
  {
    var c := new ChannelPool.Empty(maxCap);
    dialled := [];
    for i := 0 to |dials|
      invariant fresh(c) && c.Valid() && c.maxCap == maxCap
      invariant c.model == NewPool(maxCap, dialled) && |dialled| == i <= maxCap
      invariant forall j | 0 <= j < i :: dials[j] != null && dialled[j].raw == dials[j]
    {
      assert i == maxCap ==> dials[i] == null;
      if dials[i] == null {
        return null, dialled;
      }
      var conn := new PoolConn(c, dials[i]);
      c.Put(conn);
      dialled := dialled + [conn];
      c.model := NewPool(maxCap, dialled);
    }
    pool := c;
  }
}
