/** The connection pool for one server (pool/connpool) as a labelled transition system over
    connections of any type: who holds which connection, which are marked unusable and which are
    closed underneath. Steps are atomic; PutCloseRace looks inside Put and Close. */
module PoolModel {
  import opened Wrappers

  /** `idle` is the buffered channel and `open` says that the pool still has it. `held` are the
      connections clients hold, `dialling` counts their dials under way, `checking` is the one in
      the checker's hand and `gone` are those dropped for good. */
  datatype Pool<C(==)> = Pool(
    cap: nat, open: bool, idle: seq<C>,
    held: set<C>, dialling: nat, checking: Option<C>, gone: set<C>,
    unusable: set<C>, closed: set<C>)

  function ToSet<C>(s: seq<C>): set<C> {
    set c | c in s
  }

  function InHand<C>(p: Pool<C>): set<C> {
    if p.checking.Some? then {p.checking.value} else {}
  }

  function Known<C>(p: Pool<C>): set<C> {
    ToSet(p.idle) + p.held + InHand(p) + p.gone
  }

  function NewPool<C>(cap: nat, initial: seq<C>): Pool<C> {
    Pool(cap, true, initial, {}, 0, None, {}, {}, {})
  }

  // ----- Put and PoolConn.Close, call by call -----

  /** How a call ends: with a new state, blocked on a lock its own caller holds, or not within the
      calls allowed. */
  datatype Outcome<C(==)> = Done(pool: Pool<C>) | SelfDeadlock | Unfinished

  /** `channelPool.Put`. `locked` says that a caller holds the connection's read lock, which
      `MarkUnusable` would wait for. On a pool without channel the code marks and closes the
      connection, then still reaches the select, whose default closes it again. */
  function PutCall<C>(p: Pool<C>, c: C, locked: bool, fuel: nat): Outcome<C>
    decreases fuel
  {
    if fuel == 0 then Unfinished
    else if !p.open then
      if locked then SelfDeadlock
      else
        var first := CloseCall(p.(unusable := p.unusable + {c}), c, fuel - 1);
        if first.Done? then CloseCall(first.pool, c, fuel - 1) else first
    else if |p.idle| < p.cap then Done(p.(idle := p.idle + [c]))
    else CloseCall(p, c, fuel - 1)
  }

  /** `PoolConn.Close`: closes an unusable connection, hands any other to `Put` under its read lock. */
  function CloseCall<C>(p: Pool<C>, c: C, fuel: nat): Outcome<C>
    decreases fuel
  {
    if fuel == 0 then Unfinished
    else if c in p.unusable then Done(p.(closed := p.closed + {c}))
    else PutCall(p, c, true, fuel - 1)
  }

  /** What a finished `PoolConn.Close` leaves. */
  function AfterClose<C>(p: Pool<C>, c: C): Pool<C> {
    if c in p.unusable then p.(closed := p.closed + {c}) else p.(idle := p.idle + [c])
  }

  /** What a finished `Put` leaves. */
  function AfterPut<C>(p: Pool<C>, c: C): Pool<C> {
    if !p.open then p.(unusable := p.unusable + {c}, closed := p.closed + {c})
    else if |p.idle| < p.cap then p.(idle := p.idle + [c])
    else p.(closed := p.closed + {c})
  }

  lemma {:induction false} FullQueueNeverFinishes<C>(p: Pool<C>, c: C, locked: bool, fuel: nat)
    requires p.open && |p.idle| >= p.cap && c !in p.unusable
    ensures PutCall(p, c, locked, fuel) == Unfinished
    ensures CloseCall(p, c, fuel) == Unfinished
    decreases fuel
  {
    if fuel == 0 {
    } else {
      FullQueueNeverFinishes(p, c, true, fuel - 1);
    }
  }

  /** Exactly when `PoolConn.Close` returns: the connection is unusable, or the pool is open with
      room. Otherwise it deadlocks on its own lock (pool closed) or recurses for ever (queue full). */
  lemma CloseReturnsIff<C>(p: Pool<C>, c: C)
    ensures (exists fuel :: CloseCall(p, c, fuel).Done?) <==> c in p.unusable || (p.open && |p.idle| < p.cap)
    ensures forall fuel :: CloseCall(p, c, fuel).Done? ==> CloseCall(p, c, fuel).pool == AfterClose(p, c)
    ensures (exists fuel :: CloseCall(p, c, fuel) == SelfDeadlock) <==> c !in p.unusable && !p.open
    ensures (forall fuel :: CloseCall(p, c, fuel) == Unfinished) <==>
            c !in p.unusable && p.open && |p.idle| >= p.cap
  {
    CloseCallValue(p, c, 2);
    forall fuel: nat
      ensures fuel >= 2 ==> CloseCall(p, c, fuel) == CloseCall(p, c, 2)
      ensures CloseCall(p, c, fuel) == Unfinished || CloseCall(p, c, fuel) == CloseCall(p, c, 2)
    {
      CloseCallValue(p, c, fuel);
    }
  }

  lemma CloseCallValue<C>(p: Pool<C>, c: C, fuel: nat)
    ensures CloseCall(p, c, fuel) ==
            if fuel == 0 then Unfinished
            else if c in p.unusable then Done(AfterClose(p, c))
            else if fuel == 1 then Unfinished
            else if !p.open then SelfDeadlock
            else if |p.idle| < p.cap then Done(AfterClose(p, c))
            else Unfinished
  {
    if p.open && |p.idle| >= p.cap && c !in p.unusable {
      FullQueueNeverFinishes(p, c, true, fuel);
    }
  }

  /** Exactly when `Put` returns if its caller does not hold the connection's lock, as the checker
      calls it: the pool is closed, or there is room, or the connection is unusable. */
  lemma PutReturnsIff<C>(p: Pool<C>, c: C)
    ensures (exists fuel :: PutCall(p, c, false, fuel).Done?) <==>
            !p.open || |p.idle| < p.cap || c in p.unusable
    ensures forall fuel :: PutCall(p, c, false, fuel).Done? ==> PutCall(p, c, false, fuel).pool == AfterPut(p, c)
    ensures forall fuel :: PutCall(p, c, false, fuel) != SelfDeadlock
  {
    var q := p.(unusable := p.unusable + {c});
    assert q.closed + {c} + {c} == q.closed + {c};
    assert forall fuel: nat | fuel > 0 :: CloseCall(q, c, fuel) == Done(q.(closed := q.closed + {c}));
    if !p.open || |p.idle| < p.cap || c in p.unusable {
      assert PutCall(p, c, false, 2).Done?;
    } else {
      forall fuel: nat
        ensures PutCall(p, c, false, fuel) == Unfinished
      {
        FullQueueNeverFinishes(p, c, false, fuel);
      }
    }
  }

  /** More initial connections than the queue holds: after a full queue of them the next Put never
      returns. */
  lemma SurplusInitialPutHangs<C>(cap: nat, queued: seq<C>, c: C)
    requires |queued| == cap
    ensures forall fuel :: PutCall(NewPool(cap, queued), c, false, fuel) == Unfinished
  {
    forall fuel: nat
      ensures PutCall(NewPool(cap, queued), c, false, fuel) == Unfinished
    {
      FullQueueNeverFinishes(NewPool(cap, queued), c, false, fuel);
    }
  }

  // ----- Steps -----

  /** One atomic step. Clients keep to one `Close` per `Get`: they return only what they hold, and
      returning ends their hold. */
  datatype Step<C> =
    | Get                       // pop an idle connection, or start a dial, or fail on a closed pool
    | Dialled(c: C)
    | DialFailed
    | Mark(c: C)                // PoolConn.MarkUnusable by its holder
    | IoFailed(c: C)            // a Read or Write of its holder fails
    | Return(c: C)              // PoolConn.Close by its holder
    | CheckerTake
    | CheckerDecide(good: bool)
    | ClosePool

  predicate Enabled<C>(p: Pool<C>, step: Step<C>) {
    match step
    case Get => true
    case Dialled(c) => p.dialling > 0 && c !in Known(p)
    case DialFailed => p.dialling > 0
    case Mark(c) => c in p.held
    case IoFailed(c) => c in p.held && c !in p.unusable
    case Return(c) => c in p.held && (c in p.unusable || (p.open && |p.idle| < p.cap))
    case CheckerTake => p.open && p.checking.None? && p.idle != []
    case CheckerDecide(good) => p.checking.Some? && (good ==> !p.open || |p.idle| < p.cap)
    case ClosePool => true
  }

  /** Where a connection belongs after it was given up: in the queue if it got there, else gone. */
  function Settled<C>(p: Pool<C>, c: C): Pool<C> {
    if c in p.idle then p else p.(gone := p.gone + {c})
  }

  function Apply<C>(p: Pool<C>, step: Step<C>): Pool<C>
    requires Enabled(p, step)
  {
    match step
    case Get =>
      if !p.open then p
      else if p.idle == [] then p.(dialling := p.dialling + 1)
      else if p.idle[0] in p.unusable then p.(idle := p.idle[1..], gone := p.gone + {p.idle[0]})
      else p.(idle := p.idle[1..], held := p.held + {p.idle[0]})
    case Dialled(c) => p.(dialling := p.dialling - 1, held := p.held + {c})
    case DialFailed => p.(dialling := p.dialling - 1)
    case Mark(c) => p.(unusable := p.unusable + {c})
    case IoFailed(c) => p.(unusable := p.unusable + {c}, closed := p.closed + {c})
    case Return(c) => Settled(AfterClose(p.(held := p.held - {c}), c), c)
    case CheckerTake => p.(idle := p.idle[1..], checking := Some(p.idle[0]))
    case CheckerDecide(good) =>
      var c, q := p.checking.value, p.(checking := None);
      if good then Settled(AfterPut(q, c), c)
      else Settled(AfterClose(q.(unusable := q.unusable + {c}), c), c)
    case ClosePool =>
      var drained := ToSet(p.idle);
      p.(open := false, idle := [], gone := p.gone + drained,
         unusable := p.unusable + drained, closed := p.closed + drained)
  }

  // ----- Ownership -----

  ghost predicate NoDuplicates<C>(s: seq<C>) {
    forall i, j | 0 <= i < j < |s| :: s[i] != s[j]
  }

  /** Each connection is in exactly one place; the queue is duplicate-free, within the capacity and
      holds only usable connections; only unusable connections are closed; everything dropped is
      closed; and a closed pool has nothing queued. */
  ghost predicate Owned<C>(p: Pool<C>) {
    && NoDuplicates(p.idle)
    && |p.idle| <= p.cap
    && ToSet(p.idle) !! p.held !! InHand(p) !! p.gone
    && (ToSet(p.idle) + InHand(p)) !! p.unusable
    && p.closed <= p.unusable <= Known(p)
    && p.gone <= p.closed
    && (!p.open ==> p.idle == [])
  }

  lemma NewPoolIsOwned<C>(cap: nat, initial: seq<C>)
    requires NoDuplicates(initial) && |initial| <= cap
    ensures Owned(NewPool(cap, initial))
  {
  }

  lemma HeadAndTail<C>(s: seq<C>)
    requires s != [] && NoDuplicates(s)
    ensures ToSet(s) == {s[0]} + ToSet(s[1..]) && s[0] !in s[1..] && NoDuplicates(s[1..])
  {
    assert s == [s[0]] + s[1..];
  }

  lemma StepKeepsOwned<C>(p: Pool<C>, step: Step<C>)
    requires Owned(p) && Enabled(p, step)
    ensures Owned(Apply(p, step))
  {
    if p.idle != [] {
      HeadAndTail(p.idle);
    }
    match step
    case Return(c) =>
      assert ToSet(p.idle + [c]) == ToSet(p.idle) + {c};
    case CheckerDecide(good) =>
      var c := p.checking.value;
      assert ToSet(p.idle + [c]) == ToSet(p.idle) + {c};
    case _ =>
  }

  // ----- Runs -----

  predicate IsRun<C>(p: Pool<C>, steps: seq<Step<C>>)
    decreases |steps|
  {
    steps == [] || (Enabled(p, steps[0]) && IsRun(Apply(p, steps[0]), steps[1..]))
  }

  function After<C>(p: Pool<C>, steps: seq<Step<C>>): Pool<C>
    requires IsRun(p, steps)
    decreases |steps|
  {
    if steps == [] then p else After(Apply(p, steps[0]), steps[1..])
  }

  lemma {:induction false} RunKeepsOwned<C>(p: Pool<C>, steps: seq<Step<C>>)
    requires Owned(p) && IsRun(p, steps)
    ensures Owned(After(p, steps)) && After(p, steps).cap == p.cap
    decreases |steps|
  {
    if steps == [] {
    } else {
      StepKeepsOwned(p, steps[0]);
      RunKeepsOwned(Apply(p, steps[0]), steps[1..]);
    }
  }

  /** In every reachable state of every pool each connection has exactly one place. */
  lemma OwnershipPartition<C>(cap: nat, initial: seq<C>, steps: seq<Step<C>>)
    requires NoDuplicates(initial) && |initial| <= cap && IsRun(NewPool(cap, initial), steps)
    ensures Owned(After(NewPool(cap, initial), steps))
  {
    NewPoolIsOwned(cap, initial);
    RunKeepsOwned(NewPool(cap, initial), steps);
  }

  /** A closed pool stays closed and empty. What was closed or dropped stays so, and no connection
      dropped ever shows up anywhere else again. */
  lemma {:induction false} RunIsMonotone<C>(p: Pool<C>, steps: seq<Step<C>>)
    requires Owned(p) && IsRun(p, steps)
    ensures !p.open ==> !After(p, steps).open && After(p, steps).idle == []
    ensures p.unusable <= After(p, steps).unusable && p.closed <= After(p, steps).closed
    ensures p.gone <= After(p, steps).gone
    decreases |steps|
  {
    if steps == [] {
    } else {
      StepKeepsOwned(p, steps[0]);
      RunIsMonotone(Apply(p, steps[0]), steps[1..]);
    }
  }

  /** After the pool is closed, whatever was queued is closed underneath for good and nothing is
      ever queued again. */
  lemma CloseIsFinal<C>(p: Pool<C>, steps: seq<Step<C>>)
    requires Owned(p) && IsRun(Apply(p, ClosePool), steps)
    ensures var q := After(Apply(p, ClosePool), steps);
            !q.open && q.idle == [] && ToSet(p.idle) <= q.closed && ToSet(p.idle) <= q.gone
  {
    StepKeepsOwned(p, ClosePool);
    RunIsMonotone(Apply(p, ClosePool), steps);
  }

  /** Returning a usable connection to a closed pool can never finish. Its holder is stuck on the
      connection's own lock, and as long as it is, nothing that anybody else does closes the
      connection, takes it over or lets the return finish. */
  lemma {:induction false} ReturnAfterCloseIsStuck<C>(p: Pool<C>, c: C, steps: seq<Step<C>>)
    requires Owned(p) && !p.open && c in p.held && c !in p.unusable
    requires IsRun(p, steps) && Mark(c) !in steps && IoFailed(c) !in steps
    ensures var q := After(p, steps);
            && c in q.held && c !in q.unusable && c !in q.closed
            && !Enabled(q, Return(c))
            && CloseCall(q, c, 2) == SelfDeadlock
            && forall fuel :: !CloseCall(q, c, fuel).Done?
    decreases |steps|
  {
    if steps == [] {
      CloseReturnsIff(p, c);
      assert PutCall(p, c, true, 1) == SelfDeadlock;
    } else {
      StepKeepsOwned(p, steps[0]);
      assert steps[0] in steps;
      OthersLeaveHolder(p, c, steps[0]);
      hide Owned, Apply, Enabled, CloseCall;
      ReturnAfterCloseIsStuck(Apply(p, steps[0]), c, steps[1..]);
    }
  }

  lemma OthersLeaveHolder<C>(p: Pool<C>, c: C, step: Step<C>)
    requires Owned(p) && !p.open && c in p.held && c !in p.unusable
    requires Enabled(p, step) && step != Mark(c) && step != IoFailed(c)
    ensures var q := Apply(p, step); !q.open && c in q.held && c !in q.unusable
  {
  }

  /** The discipline is needed: a holder that closes the same connection twice puts it into the
      queue twice, and two clients then get it. */
  lemma DoubleCloseShares<C>(p: Pool<C>, c: C)
    requires p.open && c !in p.unusable && p.idle == [] && p.cap >= 2
    ensures var twice := AfterClose(AfterClose(p, c), c);
            var first := Apply(twice, Get);
            && twice.idle == [c, c]
            && c in first.held && first.idle == [c]
            && c in Apply(first, Get).held
  {
  }

  // ----- The checker's sweep -----

  /** The connections of a queue that a verdict keeps, in order. */
  function Kept<C>(verdict: C -> bool, s: seq<C>): seq<C> {
    if s == [] then [] else Kept(verdict, s[..|s| - 1]) + (if verdict(s[|s| - 1]) then [s[|s| - 1]] else [])
  }

  function Rejected<C>(verdict: C -> bool, s: seq<C>): set<C> {
    set c | c in s && !verdict(c)
  }

  /** The state after the first n turns of a sweep: the checked connections that passed stand at the
      end of the queue in their old order, and the others are gone. */
  function SweptTo<C>(p: Pool<C>, verdict: C -> bool, n: nat): Pool<C>
    requires n <= |p.idle|
  {
    var bad := Rejected(verdict, p.idle[..n]);
    p.(idle := p.idle[n..] + Kept(verdict, p.idle[..n]),
       gone := p.gone + bad, unusable := p.unusable + bad, closed := p.closed + bad)
  }

  /** A whole sweep filters the queue. */
  function Swept<C>(p: Pool<C>, verdict: C -> bool): Pool<C> {
    var bad := Rejected(verdict, p.idle);
    p.(idle := Kept(verdict, p.idle),
       gone := p.gone + bad, unusable := p.unusable + bad, closed := p.closed + bad)
  }

  lemma {:induction false} KeptIsFilter<C>(verdict: C -> bool, s: seq<C>)
    ensures |Kept(verdict, s)| <= |s|
    ensures forall c :: c in Kept(verdict, s) <==> c in s && verdict(c)
    decreases |s|
  {
    if s == [] {
    } else {
      KeptIsFilter(verdict, s[..|s| - 1]);
      assert s == s[..|s| - 1] + [s[|s| - 1]];
    }
  }

  lemma WholeSweep<C>(p: Pool<C>, verdict: C -> bool)
    ensures SweptTo(p, verdict, 0) == p
    ensures SweptTo(p, verdict, |p.idle|) == Swept(p, verdict)
  {
    assert p.idle[..0] == [] && p.idle[0..] == p.idle && p.idle[..|p.idle|] == p.idle;
  }

  lemma NextKept<C>(verdict: C -> bool, s: seq<C>, n: nat)
    requires n < |s|
    ensures s[n..] == [s[n]] + s[n + 1..]
    ensures Kept(verdict, s[..n + 1]) == Kept(verdict, s[..n]) + (if verdict(s[n]) then [s[n]] else [])
    ensures Rejected(verdict, s[..n + 1]) == Rejected(verdict, s[..n]) + (if verdict(s[n]) then {} else {s[n]})
    ensures |s[n + 1..]| + |Kept(verdict, s[..n])| < |s|
    ensures NoDuplicates(s) ==> s[n] !in s[n + 1..] + Kept(verdict, s[..n])
  {
    assert s[..n + 1] == s[..n] + [s[n]];
    assert s[..n + 1][..n] == s[..n];
    KeptIsFilter(verdict, s[..n]);
  }

  /** Two steps of the checker, pop and verdict, make one turn of the sweep, and the Put back of a
      connection that passed always has room. */
  lemma SweepTurn<C>(p: Pool<C>, verdict: C -> bool, n: nat)
    requires Owned(p) && p.open && p.checking.None? && n < |p.idle|
    ensures var q, c := SweptTo(p, verdict, n), p.idle[n];
            && q.open && q.checking.None? && q.idle != [] && q.idle[0] == c
            && Enabled(q, CheckerTake)
            && Enabled(Apply(q, CheckerTake), CheckerDecide(verdict(c)))
            && Apply(Apply(q, CheckerTake), CheckerDecide(verdict(c))) == SweptTo(p, verdict, n + 1)
  {
    var c, kept, bad := p.idle[n], Kept(verdict, p.idle[..n]), Rejected(verdict, p.idle[..n]);
    NextKept(verdict, p.idle, n);
    assert NoDuplicates(p.idle) && |p.idle| <= p.cap;
    hide Owned, NoDuplicates, Kept, Rejected, Known, ToSet;
    var rest := p.idle[n + 1..] + kept;
    var taken := p.(idle := rest, checking := Some(c),
                    gone := p.gone + bad, unusable := p.unusable + bad, closed := p.closed + bad);
    assert p.idle[n..] + kept == [c] + rest;
    assert Apply(SweptTo(p, verdict, n), CheckerTake) == taken;
    if verdict(c) {
      assert rest + [c] == p.idle[n + 1..] + (kept + [c]);
      assert c in rest + [c];
    } else {
      assert p.idle[n + 1..] + (kept + []) == rest;
      assert p.gone + bad + {c} == p.gone + (bad + {c});
      assert p.unusable + bad + {c} == p.unusable + (bad + {c});
      assert p.closed + bad + {c} == p.closed + (bad + {c});
    }
  }

  // ----- Capacity -----

  function Busy<C>(p: Pool<C>): nat {
    |p.held| + p.dialling
  }

  /** Connections alive: queued, held or being dialled, or in the checker's hand. */
  function Alive<C>(p: Pool<C>): nat {
    |p.idle| + Busy(p) + |InHand(p)|
  }

  function Max(a: int, b: int): int {
    if a < b then b else a
  }

  /** The most connections clients ever held or dialled at once during a run. */
  function Peak<C>(p: Pool<C>, steps: seq<Step<C>>): nat
    requires IsRun(p, steps)
    decreases |steps|
  {
    if steps == [] then Busy(p) else Max(Busy(p), Peak(Apply(p, steps[0]), steps[1..]))
  }

  /** Dials that started during a run, and those that ended. */
  function DialsStarted<C>(p: Pool<C>, steps: seq<Step<C>>): nat
    requires IsRun(p, steps)
    decreases |steps|
  {
    if steps == [] then 0
    else (if steps[0].Get? && p.open && p.idle == [] then 1 else 0) + DialsStarted(Apply(p, steps[0]), steps[1..])
  }

  function DialsEnded<C>(steps: seq<Step<C>>): nat {
    if steps == [] then 0 else (if steps[0].Dialled? || steps[0].DialFailed? then 1 else 0) + DialsEnded(steps[1..])
  }

  /** Every dial is accounted for: the dials under way are those started less those that ended, whether
      with a connection or not. */
  lemma {:induction false} DialsAreAccounted<C>(p: Pool<C>, steps: seq<Step<C>>)
    requires IsRun(p, steps)
    ensures After(p, steps).dialling == p.dialling + DialsStarted(p, steps) - DialsEnded(steps)
    decreases |steps|
  {
    if steps == [] {
    } else {
      DialsAreAccounted(Apply(p, steps[0]), steps[1..]);
    }
  }

  lemma AddOne<C>(s: set<C>, c: C)
    ensures |s + {c}| <= |s| + 1
    ensures c in s ==> |s - {c}| == |s| - 1
  {
    if c in s {
      assert s + {c} == s;
      assert s == s - {c} + {c};
    }
  }

  /** Giving a connection up queues at most that one and changes nobody's hold. */
  lemma GivingUpQueuesOne<C>(p: Pool<C>, c: C)
    ensures forall q | q in {Settled(AfterClose(p, c), c), Settled(AfterPut(p, c), c)} ::
              |q.idle| <= |p.idle| + 1 && q.held == p.held && q.dialling == p.dialling && q.checking == p.checking
  {
  }

  /** Only a dial adds a connection, and a dial starts only when nothing is queued. */
  lemma StepCapacity<C>(p: Pool<C>, step: Step<C>)
    requires Enabled(p, step)
    ensures Alive(Apply(p, step)) <= Max(Alive(p), Busy(Apply(p, step)) + 1)
  {
    hide Known, ToSet, Settled, AfterClose, AfterPut;
    match step
    case Get =>
      if p.open && p.idle != [] {
        AddOne(p.held, p.idle[0]);
      }
    case Dialled(c) => AddOne(p.held, c);
    case Return(c) =>
      AddOne(p.held, c);
      GivingUpQueuesOne(p.(held := p.held - {c}), c);
    case CheckerDecide(good) =>
      var c, q := p.checking.value, p.(checking := None);
      GivingUpQueuesOne(q, c);
      GivingUpQueuesOne(q.(unusable := q.unusable + {c}), c);
    case _ =>
  }

  lemma {:induction false} RunCapacity<C>(p: Pool<C>, steps: seq<Step<C>>)
    requires IsRun(p, steps)
    ensures Alive(After(p, steps)) <= Max(Alive(p), Peak(p, steps) + 1)
    ensures Busy(After(p, steps)) <= Peak(p, steps)
    decreases |steps|
  {
    hide Alive, Busy, Apply, Enabled;
    if steps == [] {
    } else {
      StepCapacity(p, steps[0]);
      RunCapacity(Apply(p, steps[0]), steps[1..]);
    }
  }

  /** Capacity over whole runs: the connections alive never exceed the initial ones or, if that is
      more, one above the clients' peak. */
  lemma PoolCapacity<C>(cap: nat, initial: seq<C>, steps: seq<Step<C>>)
    requires IsRun(NewPool(cap, initial), steps)
    ensures Alive(After(NewPool(cap, initial), steps)) <= Max(|initial|, Peak(NewPool(cap, initial), steps) + 1)
  {
    RunCapacity(NewPool(cap, initial), steps);
  }

  /** With at most cap connections alive, one that is not queued leaves room in the queue. */
  lemma RoomForOneMore<C>(p: Pool<C>, c: C, cap: nat)
    requires Alive(p) <= cap && p.cap == cap
    ensures c in p.held || c in InHand(p) ==> |p.idle| < cap
  {
    AddOne(p.held, c);
    AddOne(InHand(p), c);
  }

  /** So if clients never hold or dial more than cap - 1 connections at once, no Put ever meets a
      full queue: in every reachable state of an open pool, closing any connection a client holds
      returns, and so does putting back the one in the checker's hand. */
  lemma NoPutMeetsFullQueue<C>(cap: nat, initial: seq<C>, steps: seq<Step<C>>, c: C)
    requires NoDuplicates(initial) && |initial| <= cap && IsRun(NewPool(cap, initial), steps)
    requires Peak(NewPool(cap, initial), steps) < cap
    ensures var p := After(NewPool(cap, initial), steps);
            && (c in p.held && p.open ==> exists fuel :: CloseCall(p, c, fuel).Done?)
            && (c in InHand(p) ==> exists fuel :: PutCall(p, c, false, fuel).Done?)
  {
    var p := After(NewPool(cap, initial), steps);
    NewPoolIsOwned(cap, initial);
    RunCapacity(NewPool(cap, initial), steps);
    RunKeepsOwned(NewPool(cap, initial), steps);
    hide Owned, InHand, Known, IsRun, After, Peak, CloseCall, PutCall;
    RoomForOneMore(p, c, cap);
    CloseReturnsIff(p, c);
    PutReturnsIff(p, c);
  }
}
