/** `Put` and `Close` of one pool running concurrently in any number of goroutines, statement by
    statement, with the pool's read-write lock (pool/connpool/connection_pool.go). The lock is
    modelled without preference for waiting writers, and conditions on a connection's own state are
    chosen freely, so the model has every behaviour of the code and more. */
module PutCloseRace {
  import opened Wrappers
  import PoolModel

  /** Where a call of `Put` is. Beyond RLock it holds a read lock. `Send` remembers whether the
      channel it evaluated was there. */
  datatype PutAt = RLock | NilCheck | MarkAndClose | Select | Send(chan: bool) | CloseConn | RUnlock

  /** Where a call of `Close` is; from Load to Unlock it holds the write lock. */
  datatype CloseAt = Lock | Load | Clear | Unlock | CloseChan | Drain | Finished

  /** A goroutine. `Put` and `PoolConn.Close` nest, so a putting one has a stack of `Put` calls, the
      last one running; a closing one remembers whether the channel it loaded was there. */
  datatype Thread<C> = Putting(conn: C, stack: seq<PutAt>) | Closing(at: CloseAt, chan: bool)

  /** `field` says that `c.conns` still refers to the channel. `sent` and `received` list all that
      ever went through the channel. */
  datatype State<C> = State(
    cap: nat, field: bool, chanClosed: bool, closes: nat, queue: seq<C>,
    writer: Option<nat>, threads: map<nat, Thread<C>>,
    sent: seq<C>, received: seq<C>, panicked: bool)

  datatype Label<C> =
    | StartPut(t: nat, conn: C)
    | StartClose(t: nat)
    | Receive                      // any receiver: Get or the checker
    | Run(t: nat, usable: bool)    // the next statement; `usable` decides PoolConn.Close's branch

  predicate HoldsRead<C>(th: Thread<C>) {
    th.Putting? && exists i :: 0 <= i < |th.stack| && th.stack[i] != RLock
  }

  predicate HoldsWrite<C>(th: Thread<C>) {
    th.Closing? && th.at in {Load, Clear, Unlock}
  }

  predicate NoReaders<C>(s: State<C>) {
    forall t | t in s.threads :: !HoldsRead(s.threads[t])
  }

  predicate Enabled<C>(s: State<C>, l: Label<C>) {
    match l
    case StartPut(t, _) => t !in s.threads
    case StartClose(t) => t !in s.threads
    case Receive => s.queue != []
    case Run(t, _) =>
      && t in s.threads
      && match s.threads[t]
         case Putting(_, stack) => stack != [] && (stack[|stack| - 1] == RLock ==> s.writer == None)
         case Closing(at, _) => at != Finished && (at == Lock ==> s.writer == None && NoReaders(s))
  }

  function Pop<C>(s: State<C>): State<C>
    requires s.queue != []
  {
    s.(queue := s.queue[1..], received := s.received + [s.queue[0]])
  }

  function SetThread<C>(s: State<C>, t: nat, th: Thread<C>): State<C> {
    s.(threads := s.threads[t := th])
  }

  /** The next statement of the innermost `Put` of goroutine t. */
  function RunPut<C>(s: State<C>, t: nat, conn: C, stack: seq<PutAt>, usable: bool): State<C>
    requires stack != []
  {
    var outer := stack[..|stack| - 1];
    var go := (at: PutAt) => SetThread(s, t, Putting(conn, outer + [at]));
    match stack[|stack| - 1]
    case RLock => go(NilCheck)
    case NilCheck => go(if s.field then Select else MarkAndClose)
    case MarkAndClose => go(Select)
    case Select => go(Send(s.field))
    case Send(false) => go(CloseConn)
    case Send(true) =>
      if s.chanClosed then s.(panicked := true)
      else if |s.queue| < s.cap then go(RUnlock).(queue := s.queue + [conn], sent := s.sent + [conn])
      else go(CloseConn)
    case CloseConn =>
      if usable then SetThread(s, t, Putting(conn, outer + [RUnlock] + [RLock])) else go(RUnlock)
    case RUnlock => SetThread(s, t, Putting(conn, outer))
  }

  /** The next statement of the `Close` of goroutine t. */
  function RunClose<C>(s: State<C>, t: nat, at: CloseAt, chan: bool): State<C>
    requires at != Finished
  {
    match at
    case Lock => SetThread(s, t, Closing(Load, chan)).(writer := Some(t))
    case Load => SetThread(s, t, Closing(Clear, s.field))
    case Clear => SetThread(s, t, Closing(Unlock, chan)).(field := false)
    case Unlock => SetThread(s, t, Closing(if chan then CloseChan else Finished, chan)).(writer := None)
    case CloseChan =>
      if s.chanClosed then s.(panicked := true)
      else SetThread(s, t, Closing(Drain, chan)).(chanClosed := true, closes := s.closes + 1)
    case Drain => if s.queue != [] then Pop(s) else SetThread(s, t, Closing(Finished, chan))
  }

  function Next<C>(s: State<C>, l: Label<C>): State<C>
    requires Enabled(s, l)
  {
    match l
    case StartPut(t, conn) => SetThread(s, t, Putting(conn, [RLock]))
    case StartClose(t) => SetThread(s, t, Closing(Lock, false))
    case Receive => Pop(s)
    case Run(t, usable) =>
      match s.threads[t]
      case Putting(conn, stack) => RunPut(s, t, conn, stack, usable)
      case Closing(at, chan) => RunClose(s, t, at, chan)
  }

  // ----- The invariant -----

  /** A goroutine that loaded the channel, cleared the field and has yet to close the channel. */
  predicate WillClose<C>(th: Thread<C>) {
    th.Closing? && th.chan && th.at in {Unlock, CloseChan}
  }

  /** What holds of each goroutine by itself. */
  ghost predicate ThreadInv<C>(s: State<C>, t: nat, th: Thread<C>) {
    match th
    case Putting(_, stack) => forall i | 0 <= i < |stack| && stack[i] == Send(true) :: s.field
    case Closing(at, chan) =>
      && (at == Clear ==> chan == s.field)
      && (at in {CloseChan, Drain} ==> chan)
      && (WillClose(th) ==> !s.field && !s.chanClosed)
      && (chan && at in {Drain, Finished} ==> s.chanClosed)
      && (chan && at == Finished ==> s.queue == [])
  }

  ghost predicate Locking<C>(s: State<C>) {
    && (forall t | t in s.threads :: HoldsWrite(s.threads[t]) <==> s.writer == Some(t))
    && (s.writer.Some? ==> s.writer.value in s.threads && NoReaders(s))
  }

  ghost predicate OneCloser<C>(s: State<C>) {
    forall t, u | t in s.threads && u in s.threads && WillClose(s.threads[t]) && WillClose(s.threads[u]) :: t == u
  }

  ghost predicate Inv<C>(s: State<C>) {
    && !s.panicked
    && s.closes == (if s.chanClosed then 1 else 0)
    && (s.chanClosed ==> !s.field)
    && Locking(s)
    && (forall t | t in s.threads :: ThreadInv(s, t, s.threads[t]))
    && OneCloser(s)
    && s.sent == s.received + s.queue
  }

  function NewState<C>(cap: nat): State<C> {
    State(cap, true, false, 0, [], None, map[], [], [], false)
  }

  lemma PopKeepsInv<C>(s: State<C>)
    requires Inv(s) && s.queue != []
    ensures Inv(Pop(s))
  {
    assert s.received + s.queue == s.received + [s.queue[0]] + s.queue[1..];
    forall t | t in s.threads
      ensures ThreadInv(Pop(s), t, s.threads[t])
    {
      assert ThreadInv(s, t, s.threads[t]);
    }
  }

  /** What one statement of a `Put` does: it moves its own goroutine, and adds to the queue at most
      while the channel is open. While a `Put` is past its lock, no `Close` holds the write lock. */
  lemma PutEffect<C>(s: State<C>, t: nat, usable: bool) returns (th: Thread<C>)
    requires Inv(s) && Enabled(s, Run(t, usable)) && s.threads[t].Putting?
    ensures s.writer == None && th.Putting? && ThreadInv(s, t, th)
    ensures var s' := Next(s, Run(t, usable));
            && s' == s.(threads := s.threads[t := th], queue := s'.queue, sent := s'.sent)
            && (s.chanClosed ==> s'.queue == s.queue)
            && s'.sent == s'.received + s'.queue
  {
    var Putting(conn, stack) := s.threads[t];
    assert ThreadInv(s, t, s.threads[t]);
    assert stack[|stack| - 1] != RLock ==> HoldsRead(s.threads[t]);
    assert !s.panicked && s.sent == s.received + s.queue;
    assert s.writer == None;
    hide Inv, HoldsRead, Enabled, NoReaders;
    th := PutMoves(s, t, conn, stack, usable);
  }

  lemma PutMoves<C>(s: State<C>, t: nat, conn: C, stack: seq<PutAt>, usable: bool) returns (th: Thread<C>)
    requires stack != [] && (s.chanClosed ==> !s.field) && s.sent == s.received + s.queue
    requires ThreadInv(s, t, Putting(conn, stack))
    ensures th.Putting? && ThreadInv(s, t, th)
    ensures var s' := RunPut(s, t, conn, stack, usable);
            && s' == s.(threads := s.threads[t := th], queue := s'.queue, sent := s'.sent)
            && (s.chanClosed ==> s'.queue == s.queue)
            && s'.sent == s'.received + s'.queue
  {
    th := RunPut(s, t, conn, stack, usable).threads[t];
    PutStackInv(s, t, conn, stack, usable);
    assert stack[|stack| - 1] == Send(true) ==> s.field;
    hide ThreadInv;
    assert s.received + s.queue + [conn] == s.received + (s.queue + [conn]);
  }

  lemma PutStackInv<C>(s: State<C>, t: nat, conn: C, stack: seq<PutAt>, usable: bool)
    requires stack != [] && (s.chanClosed ==> !s.field) && ThreadInv(s, t, Putting(conn, stack))
    ensures var s' := RunPut(s, t, conn, stack, usable);
            t in s'.threads && s'.threads[t].Putting? && ThreadInv(s, t, s'.threads[t])
  {
  }

  lemma PutKeepsInv<C>(s: State<C>, t: nat, usable: bool)
    requires Inv(s) && Enabled(s, Run(t, usable)) && s.threads[t].Putting?
    ensures Inv(Next(s, Run(t, usable)))
  {
    var th := PutEffect(s, t, usable);
    var s' := Next(s, Run(t, usable));
    hide Next, HoldsRead, Enabled;
    forall u | u in s.threads && u != t
      ensures ThreadInv(s', u, s.threads[u])
    {
      assert ThreadInv(s, u, s.threads[u]);
    }
  }

  /** What one statement of a `Close` (other than receiving) does to the other goroutines'
      invariants: it takes the field away only under the write lock, when nobody reads, and closes
      the channel only if it alone is to do so. */
  lemma CloseKeepsOthers<C>(s: State<C>, t: nat, usable: bool, u: nat)
    requires Inv(s) && Enabled(s, Run(t, usable)) && s.threads[t].Closing?
    requires !(s.threads[t].at == Drain && s.queue != [])
    requires u in s.threads && u != t
    ensures ThreadInv(Next(s, Run(t, usable)), u, s.threads[u])
  {
    var Closing(at, chan) := s.threads[t];
    assert ThreadInv(s, t, s.threads[t]) && ThreadInv(s, u, s.threads[u]);
    match at
    case Clear =>
      assert HoldsWrite(s.threads[t]) && !HoldsRead(s.threads[u]);
      assert !HoldsWrite(s.threads[u]);
    case CloseChan =>
      assert chan ==> WillClose(s.threads[t]);
    case _ =>
  }

  lemma CloseKeepsLocking<C>(s: State<C>, t: nat, usable: bool)
    requires Inv(s) && Enabled(s, Run(t, usable)) && s.threads[t].Closing?
    requires !(s.threads[t].at == Drain && s.queue != [])
    ensures Locking(Next(s, Run(t, usable)))
  {
    hide ThreadInv, OneCloser, WillClose;
    assert s.threads[t].at in {Load, Clear, Unlock} ==> HoldsWrite(s.threads[t]);
  }

  lemma CloseKeepsOneCloser<C>(s: State<C>, t: nat, usable: bool)
    requires Inv(s) && Enabled(s, Run(t, usable)) && s.threads[t].Closing?
    requires !(s.threads[t].at == Drain && s.queue != [])
    ensures OneCloser(Next(s, Run(t, usable)))
  {
    hide Locking, HoldsRead;
    assert ThreadInv(s, t, s.threads[t]);
    assert forall u | u in s.threads && WillClose(s.threads[u]) :: ThreadInv(s, u, s.threads[u]);
  }

  lemma CloseKeepsItself<C>(s: State<C>, t: nat, usable: bool)
    requires Inv(s) && Enabled(s, Run(t, usable)) && s.threads[t].Closing?
    requires !(s.threads[t].at == Drain && s.queue != [])
    ensures var s' := Next(s, Run(t, usable));
            && t in s'.threads && ThreadInv(s', t, s'.threads[t]) && !s'.panicked
            && s'.closes == (if s'.chanClosed then 1 else 0) && (s'.chanClosed ==> !s'.field)
  {
    hide Locking, HoldsRead, OneCloser;
    assert ThreadInv(s, t, s.threads[t]);
    assert s.threads[t].at == CloseChan ==> WillClose(s.threads[t]);
  }

  lemma CloseKeepsInv<C>(s: State<C>, t: nat, usable: bool)
    requires Inv(s) && Enabled(s, Run(t, usable)) && s.threads[t].Closing?
    ensures Inv(Next(s, Run(t, usable)))
  {
    if s.threads[t].at == Drain && s.queue != [] {
      PopKeepsInv(s);
    } else {
      CloseKeepsLocking(s, t, usable);
      CloseKeepsItself(s, t, usable);
      CloseKeepsOneCloser(s, t, usable);
      var s' := Next(s, Run(t, usable));
      forall u | u in s.threads && u != t
        ensures ThreadInv(s', u, s.threads[u])
      {
        CloseKeepsOthers(s, t, usable, u);
      }
      hide Locking, ThreadInv, OneCloser, Enabled;
    }
  }

  lemma NextKeepsInv<C>(s: State<C>, l: Label<C>)
    requires Inv(s) && Enabled(s, l)
    ensures Inv(Next(s, l))
  {
    match l
    case Receive => PopKeepsInv(s);
    case Run(t, usable) =>
      if s.threads[t].Putting? {
        PutKeepsInv(s, t, usable);
      } else {
        CloseKeepsInv(s, t, usable);
      }
    case _ =>
      var s' := Next(s, l);
      forall u | u in s.threads
        ensures ThreadInv(s', u, s.threads[u])
      {
        assert ThreadInv(s, u, s.threads[u]);
      }
  }

  // ----- Runs -----

  predicate IsRun<C>(s: State<C>, labels: seq<Label<C>>)
    decreases |labels|
  {
    labels == [] || (Enabled(s, labels[0]) && IsRun(Next(s, labels[0]), labels[1..]))
  }

  function After<C>(s: State<C>, labels: seq<Label<C>>): State<C>
    requires IsRun(s, labels)
    decreases |labels|
  {
    if labels == [] then s else After(Next(s, labels[0]), labels[1..])
  }

  lemma {:induction false} RunKeepsInv<C>(s: State<C>, labels: seq<Label<C>>)
    requires Inv(s) && IsRun(s, labels)
    ensures Inv(After(s, labels))
    decreases |labels|
  {
    if labels == [] {
    } else {
      NextKeepsInv(s, labels[0]);
      RunKeepsInv(Next(s, labels[0]), labels[1..]);
    }
  }

  /** Under every interleaving of any number of Puts and Closes no Put sends on a closed channel and
      the channel is closed at most once (either would be a panic). */
  lemma NeverPanics<C>(cap: nat, labels: seq<Label<C>>)
    requires IsRun(NewState(cap), labels)
    ensures !After(NewState(cap), labels).panicked && After(NewState(cap), labels).closes <= 1
  {
    RunKeepsInv(NewState(cap), labels);
  }

  /** Nothing enters the queue once the channel is closed. */
  lemma {:induction false} NothingEntersAfterClose<C>(s: State<C>, labels: seq<Label<C>>)
    requires Inv(s) && IsRun(s, labels) && s.chanClosed
    ensures After(s, labels).sent == s.sent && After(s, labels).chanClosed
    decreases |labels|
  {
    if labels == [] {
    } else {
      NextKeepsInv(s, labels[0]);
      if labels[0].Run? {
        assert ThreadInv(s, labels[0].t, s.threads[labels[0].t]);
      }
      NothingEntersAfterClose(Next(s, labels[0]), labels[1..]);
    }
  }

  /** When the Close that closed the channel has finished, every connection ever put into the queue
      has been received, by a Get, by the checker or by that Close, in the order they were put. */
  lemma FinishedCloseDrained<C>(cap: nat, labels: seq<Label<C>>, t: nat)
    requires IsRun(NewState(cap), labels)
    requires t in After(NewState(cap), labels).threads
    requires After(NewState(cap), labels).threads[t] == Closing(Finished, true)
    ensures After(NewState(cap), labels).received == After(NewState(cap), labels).sent
  {
    RunKeepsInv(NewState(cap), labels);
    var s := After(NewState(cap), labels);
    assert ThreadInv(s, t, s.threads[t]);
  }

  // ----- What enters the queue -----

  /** The statement is a Put's send on the open channel, and there is room. */
  predicate SendsWithRoom<C>(s: State<C>, l: Label<C>) {
    && l.Run? && l.t in s.threads && s.threads[l.t].Putting?
    && s.threads[l.t].stack != [] && s.threads[l.t].stack[|s.threads[l.t].stack| - 1] == Send(true)
    && !s.chanClosed && |s.queue| < s.cap
  }

  /** The connections of the Puts that came so far in a run. */
  function Entered<C>(s: State<C>, labels: seq<Label<C>>): seq<C>
    requires IsRun(s, labels)
    decreases |labels|
  {
    if labels == [] then []
    else
      (if SendsWithRoom(s, labels[0]) then [s.threads[labels[0].t].conn] else [])
      + Entered(Next(s, labels[0]), labels[1..])
  }

  /** In every run what is sent are exactly the connections whose Put reached the open channel with
      room, in that order. */
  lemma {:induction false} SentIffRoom<C>(s: State<C>, labels: seq<Label<C>>)
    requires IsRun(s, labels)
    ensures After(s, labels).sent == s.sent + Entered(s, labels)
    decreases |labels|
  {
    if labels == [] {
    } else {
      var s' := Next(s, labels[0]);
      SentIffRoom(s', labels[1..]);
      OneStatementSends(s, labels[0]);
      hide Next, Enabled, SendsWithRoom;
      var first := if SendsWithRoom(s, labels[0]) then [s.threads[labels[0].t].conn] else [];
      assert s.sent + first + Entered(s', labels[1..]) == s.sent + (first + Entered(s', labels[1..]));
    }
  }

  lemma OneStatementSends<C>(s: State<C>, l: Label<C>)
    requires Enabled(s, l)
    ensures Next(s, l).sent == s.sent + if SendsWithRoom(s, l) then [s.threads[l.t].conn] else []
  {
    if l.Run? && s.threads[l.t].Closing? {
      CloseSendsNothing(s, l.t, s.threads[l.t].at, s.threads[l.t].chan);
      hide RunClose;
    } else if l.Run? {
      hide HoldsRead, NoReaders;
    }
  }

  lemma CloseSendsNothing<C>(s: State<C>, t: nat, at: CloseAt, chan: bool)
    requires at != Finished
    ensures RunClose(s, t, at, chan).sent == s.sent
  {
  }

  // ----- A goroutine running alone -----

  /** Goroutine t running n statements in a row gets from s to s'. */
  ghost predicate Alone<C>(s: State<C>, t: nat, usable: bool, n: nat, s': State<C>)
    decreases n
  {
    if n == 0 then s' == s
    else Enabled(s, Run(t, usable)) && Alone(Next(s, Run(t, usable)), t, usable, n - 1, s')
  }

  lemma AloneStep<C>(s: State<C>, t: nat, usable: bool, n: nat, next: State<C>, s': State<C>)
    requires Enabled(s, Run(t, usable)) && Next(s, Run(t, usable)) == next && Alone(next, t, usable, n, s')
    ensures Alone(s, t, usable, n + 1, s')
  {
  }

  /** Goroutine t in the middle of a Put that runs inside others. */
  function PutIn<C>(s: State<C>, t: nat, conn: C, outer: seq<PutAt>, at: PutAt): State<C> {
    SetThread(s, t, Putting(conn, outer + [at]))
  }

  /** The order of the statements of a Put. */
  lemma PutOrder<C>(s: State<C>, t: nat, conn: C, outer: seq<PutAt>, at: PutAt, usable: bool)
    requires s.writer == None
    ensures Enabled(PutIn(s, t, conn, outer, at), Run(t, usable))
    ensures Next(PutIn(s, t, conn, outer, at), Run(t, usable)) ==
            match at
            case RLock => PutIn(s, t, conn, outer, NilCheck)
            case NilCheck => PutIn(s, t, conn, outer, if s.field then Select else MarkAndClose)
            case MarkAndClose => PutIn(s, t, conn, outer, Select)
            case Select => PutIn(s, t, conn, outer, Send(s.field))
            case Send(false) => PutIn(s, t, conn, outer, CloseConn)
            case Send(true) =>
              if s.chanClosed then PutIn(s, t, conn, outer, at).(panicked := true)
              else if |s.queue| < s.cap
              then PutIn(s.(queue := s.queue + [conn], sent := s.sent + [conn]), t, conn, outer, RUnlock)
              else PutIn(s, t, conn, outer, CloseConn)
            case CloseConn =>
              if usable then PutIn(s, t, conn, outer + [RUnlock], RLock) else PutIn(s, t, conn, outer, RUnlock)
            case RUnlock => SetThread(s, t, Putting(conn, outer))
  {
    assert (outer + [at])[..|outer|] == outer;
    assert s.threads[t := Putting(conn, outer + [at])][t := Putting(conn, outer)]
        == s.threads[t := Putting(conn, outer)];
    forall next | next in [RLock, NilCheck, MarkAndClose, Select, Send(false), Send(true), CloseConn, RUnlock]
      ensures s.threads[t := Putting(conn, outer + [at])][t := Putting(conn, outer + [next])]
           == s.threads[t := Putting(conn, outer + [next])]
    {
    }
    assert s.threads[t := Putting(conn, outer + [at])][t := Putting(conn, outer + [RUnlock] + [RLock])]
        == s.threads[t := Putting(conn, outer + [RUnlock] + [RLock])];
  }

  /** A Put starts at its lock, and so does a Close. */
  lemma CallsBegin<C>(s: State<C>, t: nat, conn: C)
    requires t !in s.threads
    ensures Enabled(s, StartPut(t, conn)) && Next(s, StartPut(t, conn)) == PutIn(s, t, conn, [], RLock)
    ensures Enabled<C>(s, StartClose(t)) && Next<C>(s, StartClose(t)) == CloseIn(s, t, Lock, false)
  {
    assert [] + [RLock] == [RLock];
  }

  /** An uninterrupted Put of an open pool with room queues its connection and does nothing else. */
  lemma PutAloneQueues<C>(s: State<C>, t: nat, conn: C, usable: bool)
    requires s.writer == None && s.field && !s.chanClosed && |s.queue| < s.cap
    ensures Alone(PutIn(s, t, conn, [], RLock), t, usable, 5,
                  SetThread(s, t, Putting(conn, [])).(queue := s.queue + [conn], sent := s.sent + [conn]))
  {
    var s' := s.(queue := s.queue + [conn], sent := s.sent + [conn]);
    PutOrder(s, t, conn, [], RLock, usable);
    PutOrder(s, t, conn, [], NilCheck, usable);
    PutOrder(s, t, conn, [], Select, usable);
    PutOrder(s, t, conn, [], Send(true), usable);
    PutOrder(s', t, conn, [], RUnlock, usable);
    hide Enabled, Next, PutIn;
  }

  /** One of an unusable connection that meets a full queue, or of any connection on a pool whose
      channel is gone (which marks it), ends without queueing anything. */
  lemma PutAloneCloses<C>(s: State<C>, t: nat, conn: C)
    requires s.writer == None && (s.field ==> !s.chanClosed && |s.queue| >= s.cap)
    ensures Alone(PutIn(s, t, conn, [], RLock), t, false, if s.field then 6 else 7,
                  SetThread(s, t, Putting(conn, [])))
  {
    PutOrder(s, t, conn, [], RUnlock, false);
    var end := SetThread(s, t, Putting(conn, []));
    assert Alone(end, t, false, 0, end);
    hide Enabled, Next, PutIn, Alone;
    AloneStep(PutIn(s, t, conn, [], RUnlock), t, false, 0, end, end);
    PutOrder(s, t, conn, [], CloseConn, false);
    AloneStep(PutIn(s, t, conn, [], CloseConn), t, false, 1, PutIn(s, t, conn, [], RUnlock), end);
    PutOrder(s, t, conn, [], Send(s.field), false);
    AloneStep(PutIn(s, t, conn, [], Send(s.field)), t, false, 2, PutIn(s, t, conn, [], CloseConn), end);
    PutOrder(s, t, conn, [], Select, false);
    AloneStep(PutIn(s, t, conn, [], Select), t, false, 3, PutIn(s, t, conn, [], Send(s.field)), end);
    PutOrder(s, t, conn, [], NilCheck, false);
    if s.field {
      AloneStep(PutIn(s, t, conn, [], NilCheck), t, false, 4, PutIn(s, t, conn, [], Select), end);
    } else {
      PutOrder(s, t, conn, [], MarkAndClose, false);
      AloneStep(PutIn(s, t, conn, [], MarkAndClose), t, false, 4, PutIn(s, t, conn, [], Select), end);
      AloneStep(PutIn(s, t, conn, [], NilCheck), t, false, 5, PutIn(s, t, conn, [], MarkAndClose), end);
    }
    PutOrder(s, t, conn, [], RLock, false);
    AloneStep(PutIn(s, t, conn, [], RLock), t, false, if s.field then 5 else 6, PutIn(s, t, conn, [], NilCheck), end);
  }

  /** One of a usable connection that meets a full queue goes round for ever, and queues nothing. */
  lemma {:induction false} PutAloneGoesRound<C>(
      s: State<C>, t: nat, conn: C, outer: seq<PutAt>, at: PutAt, n: nat, s': State<C>)
    requires s.writer == None && s.field && !s.chanClosed && |s.queue| >= s.cap
    requires at in {RLock, NilCheck, Select, Send(true), CloseConn}
    requires Alone(PutIn(s, t, conn, outer, at), t, true, n, s')
    ensures exists outer', at' | at' in {RLock, NilCheck, Select, Send(true), CloseConn} ::
              s' == PutIn(s, t, conn, outer', at')
    decreases n
  {
    if n == 0 {
    } else {
      PutOrder(s, t, conn, outer, at, true);
      hide Enabled, Next, PutIn;
      match at
      case RLock => PutAloneGoesRound(s, t, conn, outer, NilCheck, n - 1, s');
      case NilCheck => PutAloneGoesRound(s, t, conn, outer, Select, n - 1, s');
      case Select => PutAloneGoesRound(s, t, conn, outer, Send(true), n - 1, s');
      case Send(_) => PutAloneGoesRound(s, t, conn, outer, CloseConn, n - 1, s');
      case CloseConn => PutAloneGoesRound(s, t, conn, outer + [RUnlock], RLock, n - 1, s');
    }
  }

  /** The pool as PoolModel sees it. */
  ghost predicate Shows<C>(s: State<C>, p: PoolModel.Pool<C>) {
    s.cap == p.cap && s.field == p.open && s.queue == p.idle
  }

  /** A Put of the pool p, running alone, ends in s'. A connection of a pool without channel does not
      stay usable, as the Put marks it. */
  ghost predicate PutEnds<C>(s: State<C>, p: PoolModel.Pool<C>, t: nat, conn: C, n: nat, s': State<C>) {
    && Alone(PutIn(s, t, conn, [], RLock), t, p.open && conn !in p.unusable, n, s')
    && s'.threads == s.threads[t := Putting(conn, [])]
  }

  /** A Put running alone ends exactly when PoolModel's Put returns, and then leaves its queue. */
  lemma PutAloneIsPut<C(!new)>(s: State<C>, p: PoolModel.Pool<C>, t: nat, conn: C)
    requires Inv(s) && s.writer == None && Shows(s, p)
    ensures (exists n, s' :: PutEnds(s, p, t, conn, n, s'))
            <==> exists fuel :: PoolModel.PutCall(p, conn, false, fuel).Done?
    ensures (exists n, s' :: PutEnds(s, p, t, conn, n, s')) ==>
              var after := PoolModel.AfterPut(p, conn);
              exists n, s' :: PutEnds(s, p, t, conn, n, s') && s'.queue == after.idle && s'.field == after.open
  {
    var usable := p.open && conn !in p.unusable;
    PoolModel.PutReturnsIff(p, conn);
    FieldMeansOpen(s);
    hide Alone, Inv, PoolModel.PutCall, PutIn;
    var end := SetThread(s, t, Putting(conn, []));
    if p.open && |p.idle| < p.cap {
      PutAloneQueues(s, t, conn, usable);
      assert PutEnds(s, p, t, conn, 5, end.(queue := s.queue + [conn], sent := s.sent + [conn]));
    } else if !usable {
      PutAloneCloses(s, t, conn);
      assert PutEnds(s, p, t, conn, if s.field then 6 else 7, end);
    } else {
      forall n, s' | PutEnds(s, p, t, conn, n, s')
        ensures false
      {
        PutAloneGoesRound(s, t, conn, [], RLock, n, s');
        NotEnded(s, t, conn, s');
        assert false;
      }
    }
  }

  lemma NotEnded<C>(s: State<C>, t: nat, conn: C, s': State<C>)
    requires exists outer, at :: s' == PutIn(s, t, conn, outer, at)
    ensures s'.threads != s.threads[t := Putting(conn, [])]
  {
    var outer, at :| s' == PutIn(s, t, conn, outer, at);
    assert s'.threads[t] == Putting(conn, outer + [at]);
    assert |outer + [at]| == |outer| + 1;
  }

  lemma FieldMeansOpen<C>(s: State<C>)
    requires Inv(s)
    ensures s.field ==> !s.chanClosed
  {
  }

  /** Goroutine t in the middle of a Close. */
  function CloseIn<C>(s: State<C>, t: nat, at: CloseAt, chan: bool): State<C> {
    SetThread(s, t, Closing(at, chan))
  }

  lemma DrainOrder<C>(s: State<C>, t: nat)
    ensures Enabled(CloseIn(s, t, Drain, true), Run(t, true))
    ensures Next(CloseIn(s, t, Drain, true), Run(t, true))
            == if s.queue == [] then CloseIn(s, t, Finished, true) else CloseIn(Pop(s), t, Drain, true)
  {
    SetTwice(s.threads, t, Closing(Drain, true), Closing(Finished, true));
  }

  lemma {:induction false} DrainAlone<C>(s: State<C>, t: nat)
    ensures Alone(CloseIn(s, t, Drain, true), t, true, |s.queue| + 1,
                  CloseIn(s, t, Finished, true).(queue := [], received := s.received + s.queue))
    decreases |s.queue|
  {
    hide Enabled, Next;
    DrainOrder(s, t);
    var end := CloseIn(s, t, Finished, true).(queue := [], received := s.received + s.queue);
    if s.queue == [] {
      assert end == CloseIn(s, t, Finished, true);
      AloneStep(CloseIn(s, t, Drain, true), t, true, 0, end, end);
    } else {
      DrainAlone(Pop(s), t);
      assert s.received + [s.queue[0]] + s.queue[1..] == s.received + s.queue;
      hide Alone;
      AloneStep(CloseIn(s, t, Drain, true), t, true, |s.queue|, CloseIn(Pop(s), t, Drain, true), end);
    }
  }

  /** An uninterrupted Close takes the channel away, closes it and receives all that is queued, if the
      channel is there; else it changes nothing. Either way the pool is then as PoolModel's closed one. */
  lemma CloseAloneIsClose<C(!new)>(s: State<C>, p: PoolModel.Pool<C>, t: nat)
    requires Inv(s) && s.writer == None && NoReaders(s) && t !in s.threads && Shows(s, p) && (!p.open ==> p.idle == [])
    ensures Alone(CloseIn(s, t, Lock, false), t, true, if s.field then 6 + |s.queue| else 4,
                  if s.field
                  then CloseIn(s, t, Finished, true).(
                         field := false, chanClosed := true, closes := s.closes + 1,
                         queue := [], received := s.received + s.queue)
                  else CloseIn(s, t, Finished, false))
    ensures var closed := PoolModel.Apply(p, PoolModel.ClosePool);
            !closed.open && closed.idle == []
  {
    FieldMeansOpen(s);
    CloseBegins(s, t);
    var locked, cleared := s.(writer := Some(t)), s.(field := false);
    var closed := cleared.(chanClosed := true, closes := s.closes + 1);
    DrainAlone(closed, t);
    var n := if s.field then |s.queue| + 2 else 0;
    var end := if s.field
               then CloseIn(closed, t, Finished, true).(queue := [], received := s.received + s.queue)
               else CloseIn(s, t, Finished, false);
    assert Alone(end, t, true, 0, end);
    hide Enabled, Next, Inv, Alone, CloseIn;
    if s.field {
      AloneStep(CloseIn(cleared, t, CloseChan, true), t, true, n - 1, CloseIn(closed, t, Drain, true), end);
    } else {
      assert cleared == s;
    }
    var after := CloseIn(cleared, t, if s.field then CloseChan else Finished, s.field);
    AloneStep(CloseIn(locked.(field := false), t, Unlock, s.field), t, true, n, after, end);
    AloneStep(CloseIn(locked, t, Clear, s.field), t, true, n + 1,
              CloseIn(locked.(field := false), t, Unlock, s.field), end);
    AloneStep(CloseIn(locked, t, Load, false), t, true, n + 2, CloseIn(locked, t, Clear, s.field), end);
    AloneStep(CloseIn(s, t, Lock, false), t, true, n + 3, CloseIn(locked, t, Load, false), end);
    CloseInFields(s, closed, t);
  }

  lemma CloseInFields<C>(s: State<C>, closed: State<C>, t: nat)
    requires closed == s.(field := false, chanClosed := true, closes := s.closes + 1)
    ensures CloseIn(closed, t, Finished, true) ==
            CloseIn(s, t, Finished, true).(field := false, chanClosed := true, closes := s.closes + 1)
  {
  }

  /** The order of the statements of a Close up to receiving. */
  lemma CloseBegins<C>(s: State<C>, t: nat)
    requires s.writer == None && NoReaders(s) && t !in s.threads && (s.field ==> !s.chanClosed)
    ensures var run := Run(t, true);
            var locked := s.(writer := Some(t));
            && Enabled(CloseIn(s, t, Lock, false), run)
            && Next(CloseIn(s, t, Lock, false), run) == CloseIn(locked, t, Load, false)
            && Enabled(CloseIn(locked, t, Load, false), run)
            && Next(CloseIn(locked, t, Load, false), run) == CloseIn(locked, t, Clear, s.field)
            && Enabled(CloseIn(locked, t, Clear, s.field), run)
            && Next(CloseIn(locked, t, Clear, s.field), run)
               == CloseIn(locked.(field := false), t, Unlock, s.field)
            && Enabled(CloseIn(locked.(field := false), t, Unlock, s.field), run)
            && Next(CloseIn(locked.(field := false), t, Unlock, s.field), run)
               == CloseIn(s.(field := false), t, if s.field then CloseChan else Finished, s.field)
            && (s.field ==>
                  && Enabled(CloseIn(s.(field := false), t, CloseChan, true), run)
                  && Next(CloseIn(s.(field := false), t, CloseChan, true), run)
                     == CloseIn(s.(field := false, chanClosed := true, closes := s.closes + 1), t, Drain, true))
  {
    SetTwice(s.threads, t, Closing(Lock, false), Closing(Load, false));
    SetTwice(s.threads, t, Closing(Load, false), Closing(Clear, s.field));
    SetTwice(s.threads, t, Closing(Clear, s.field), Closing(Unlock, s.field));
    SetTwice(s.threads, t, Closing(Unlock, s.field), Closing(if s.field then CloseChan else Finished, s.field));
    SetTwice(s.threads, t, Closing(CloseChan, true), Closing(Drain, true));
  }

  lemma SetTwice<C>(threads: map<nat, Thread<C>>, t: nat, a: Thread<C>, b: Thread<C>)
    ensures threads[t := a][t := b] == threads[t := b]
  {
  }
}
