/** Calls one after the other over one pool (transport/client_transport.go on pool/connpool): which
    connection each call gets, and whose response it finds there. The server's handlers keep no state,
    so that it does not matter on which connection a request arrived first. */
module PooledCalls {
  import opened Wrappers
  import opened Streams
  import opened Sessions
  import RoundRobin

  type Stateless = Server<()>

  datatype Entry = Entry(id: nat, link: Link<()>)

  /** The queue of a pool as its calls leave it: numbered connections, and how many there ever were. */
  datatype Queue = Queue(idle: seq<Entry>, dialled: nat)

  /** A new pool of n connections. */
  function NewQueue(n: nat): Queue {
    Queue(seq(n, (i: nat) requires i < n => Entry(i, NewLink(()))), n)
  }

  /** What `Get` gives: the oldest connection, or a new one. */
  function Next(q: Queue): Entry {
    if q.idle == [] then Entry(q.dialled, NewLink(())) else q.idle[0]
  }

  /** One call. As Client.SendTcpReq shows, the connection goes to the back of the queue unless an
      error of its own made it unusable. */
  function Step(server: Stateless, q: Queue, turn: Turn, ending: Ending): (r: (Queue, Result<bytes, SendError>)) {
    var (link, result) := Call(server, Next(q).link, turn, ending);
    var others := if q.idle == [] then [] else q.idle[1..];
    var dialled := if q.idle == [] then q.dialled + 1 else q.dialled;
    (Queue(others + if link.usable then [Entry(Next(q).id, link)] else [], dialled), result)
  }

  /** The law by which the queue moves is SendTcpReq's: the connection taken is the oldest one or else
      new, and goes last unless its result makes it unusable. So all that is queued is usable. */
  lemma QueueMoves(server: Stateless, q: Queue, turn: Turn, ending: Ending)
    requires forall e | e in q.idle :: e.link.usable
    ensures var taken := if q.idle == [] then Entry(q.dialled, NewLink(())) else q.idle[0];
            var (link, result) := Call(server, taken.link, turn, ending);
            var (q', r) := Step(server, q, turn, ending);
            && r == result
            && q'.idle == (if q.idle == [] then [] else q.idle[1..])
                          + (if MarksUnusable(result) then [] else [Entry(taken.id, link)])
            && forall e | e in q'.idle :: e.link.usable
  {
    hide Frames, Leftover, Serve, Outcome, Concat;
  }

  function QueueAfter(server: Stateless, n: nat, turns: seq<Turn>, t: nat, ending: Ending): Queue
    requires t <= |turns|
  {
    if t == 0 then NewQueue(n)
    else Step(server, QueueAfter(server, n, turns, t - 1, ending), turns[t - 1], ending).0
  }

  /** The connection that call t gets, and its result. */
  function ConnOf(server: Stateless, n: nat, turns: seq<Turn>, t: nat, ending: Ending): nat
    requires t <= |turns|
  {
    Next(QueueAfter(server, n, turns, t, ending)).id
  }

  function ResultOf(server: Stateless, n: nat, turns: seq<Turn>, t: nat, ending: Ending): Result<bytes, SendError>
    requires t < |turns|
  {
    Step(server, QueueAfter(server, n, turns, t, ending), turns[t], ending).1
  }

  /** Those of the first t calls that got connection id. */
  function OwnTurns(server: Stateless, n: nat, turns: seq<Turn>, id: nat, t: nat, ending: Ending): seq<Turn>
    requires t <= |turns|
  {
    if t == 0 then []
    else
      OwnTurns(server, n, turns, id, t - 1, ending)
      + if ConnOf(server, n, turns, t - 1, ending) == id then [turns[t - 1]] else []
  }

  // ----- Each connection sees a session of its own -----

  /** Every queued connection has the link it should have, no two are the same, and those still to be
      dialled are new. */
  ghost predicate Holds(q: Queue, links: nat -> Link<()>) {
    && (forall i | 0 <= i < |q.idle| :: q.idle[i].id < q.dialled && q.idle[i].link == links(q.idle[i].id))
    && (forall i, j | 0 <= i < j < |q.idle| :: q.idle[i].id != q.idle[j].id)
    && (forall id | id >= q.dialled :: links(id) == NewLink(()))
  }

  lemma StepHolds(server: Stateless, q: Queue, turn: Turn, ending: Ending,
                  links: nat -> Link<()>, links': nat -> Link<()>)
    requires Holds(q, links)
    requires links'(Next(q).id) == Call(server, Next(q).link, turn, ending).0
    requires forall id | id != Next(q).id :: links'(id) == links(id)
    ensures Holds(Step(server, q, turn, ending).0, links')
  {
    hide Call;
  }

  /** The link of each connection is what a session leaves of the calls that got it. */
  function Links(server: Stateless, n: nat, turns: seq<Turn>, t: nat, ending: Ending): nat -> Link<()>
    requires t <= |turns|
  {
    (id: nat) => LinkAfter(server, (), OwnTurns(server, n, turns, id, t, ending), ending)
  }

  ghost predicate Consistent(server: Stateless, n: nat, turns: seq<Turn>, t: nat, ending: Ending)
    requires t <= |turns|
  {
    Holds(QueueAfter(server, n, turns, t, ending), Links(server, n, turns, t, ending))
  }

  lemma NextIsSession(server: Stateless, n: nat, turns: seq<Turn>, t: nat, ending: Ending)
    requires t <= |turns| && Consistent(server, n, turns, t, ending)
    ensures var id := ConnOf(server, n, turns, t, ending);
            Next(QueueAfter(server, n, turns, t, ending))
            == Entry(id, LinkAfter(server, (), OwnTurns(server, n, turns, id, t, ending), ending))
  {
    hide QueueAfter, OwnTurns, LinkAfter;
    var q, links := QueueAfter(server, n, turns, t, ending), Links(server, n, turns, t, ending);
    assert q.idle == [] ==> links(q.dialled) == NewLink(());
  }

  lemma OwnTurnsGrow(server: Stateless, n: nat, turns: seq<Turn>, t: nat, ending: Ending)
    requires t < |turns| && Consistent(server, n, turns, t, ending)
    ensures var id := ConnOf(server, n, turns, t, ending);
            var own := OwnTurns(server, n, turns, id, t, ending);
            && OwnTurns(server, n, turns, id, t + 1, ending) == own + [turns[t]]
            && Call(server, LinkAfter(server, (), own, ending), turns[t], ending)
               == (LinkAfter(server, (), own + [turns[t]], ending), ResultOf(server, n, turns, t, ending))
            && ResultAt(server, (), own + [turns[t]], |own|, ending) == ResultOf(server, n, turns, t, ending)
    ensures forall id | id != ConnOf(server, n, turns, t, ending) ::
              OwnTurns(server, n, turns, id, t + 1, ending) == OwnTurns(server, n, turns, id, t, ending)
  {
    NextIsSession(server, n, turns, t, ending);
    hide QueueAfter, Call, Consistent, LinkAfter;
    var id := ConnOf(server, n, turns, t, ending);
    var own := OwnTurns(server, n, turns, id, t, ending);
    OneMoreTurn(server, (), own + [turns[t]], |own|, ending);
    assert (own + [turns[t]])[..|own|] == own && (own + [turns[t]])[..|own| + 1] == own + [turns[t]];
    forall other | other != id
      ensures OwnTurns(server, n, turns, other, t + 1, ending) == OwnTurns(server, n, turns, other, t, ending)
    {
      assert OwnTurns(server, n, turns, other, t, ending) + [] == OwnTurns(server, n, turns, other, t, ending);
    }
  }

  lemma {:induction false} RunIsConsistent(server: Stateless, n: nat, turns: seq<Turn>, t: nat, ending: Ending)
    requires t <= |turns|
    ensures Consistent(server, n, turns, t, ending)
  {
    hide Call, OwnTurns, LinkAfter, Holds, Step;
    if t == 0 {
      NewQueueHolds(server, n, turns, ending);
    } else {
      RunIsConsistent(server, n, turns, t - 1, ending);
      NextIsSession(server, n, turns, t - 1, ending);
      OwnTurnsGrow(server, n, turns, t - 1, ending);
      StepHolds(server, QueueAfter(server, n, turns, t - 1, ending), turns[t - 1], ending,
                Links(server, n, turns, t - 1, ending), Links(server, n, turns, t, ending));
    }
  }

  lemma NewQueueHolds(server: Stateless, n: nat, turns: seq<Turn>, ending: Ending)
    ensures Consistent(server, n, turns, 0, ending)
  {
  }

  /** In any run of calls over one pool a call gets what the last turn of a session gets that consists
      of the calls that got the same connection. */
  lemma PooledCallIsTurn(server: Stateless, n: nat, turns: seq<Turn>, t: nat, ending: Ending)
    requires t < |turns|
    ensures var id := ConnOf(server, n, turns, t, ending);
            var own := OwnTurns(server, n, turns, id, t, ending);
            && OwnTurns(server, n, turns, id, t + 1, ending) == own + [turns[t]]
            && ResultOf(server, n, turns, t, ending) == ResultAt(server, (), own + [turns[t]], |own|, ending)
  {
    RunIsConsistent(server, n, turns, t, ending);
    OwnTurnsGrow(server, n, turns, t, ending);
  }

  // ----- Whose response a call gets -----

  /** No write fails, and all requests and responses are well-formed frames. */
  ghost predicate AllOrderly(server: Stateless, turns: seq<Turn>) {
    forall t | 0 <= t < |turns| ::
      !turns[t].fate.WriteFailed? && WellFormed(turns[t].body) && WellFormed(server((), turns[t].body).1)
  }

  lemma OrderlyIs(server: Stateless, turns: seq<Turn>)
    requires AllOrderly(server, turns)
    ensures Orderly(server, (), turns)
    ensures forall t | 0 <= t < |turns| :: OwnResponse(server, (), turns, t) == server((), turns[t].body).1
  {
    hide WellFormed, StateBefore;
    forall t | 0 <= t < |turns|
      ensures StateBefore(server, (), turns, t) == ()
    {
    }
  }

  lemma {:induction false} OwnTurnsOrderly(
      server: Stateless, n: nat, turns: seq<Turn>, id: nat, t: nat, ending: Ending)
    requires t <= |turns| && AllOrderly(server, turns)
    ensures AllOrderly(server, OwnTurns(server, n, turns, id, t, ending))
    ensures (forall i | 0 <= i < |OwnTurns(server, n, turns, id, t, ending)| ::
               OwnTurns(server, n, turns, id, t, ending)[i].fate == Awaited)
            <==> forall u | 0 <= u < t :: ConnOf(server, n, turns, u, ending) == id ==> turns[u].fate == Awaited
  {
    hide WellFormed, ConnOf;
    if t == 0 {
    } else {
      OwnTurnsOrderly(server, n, turns, id, t - 1, ending);
      var before := OwnTurns(server, n, turns, id, t - 1, ending);
      if ConnOf(server, n, turns, t - 1, ending) == id {
        var own := before + [turns[t - 1]];
        assert own[..|before|] == before && own[|before|] == turns[t - 1];
        assert forall i | 0 <= i < |before| :: own[i] == before[i];
      } else {
        assert before + [] == before;
      }
    }
  }

  /** A waiting call of an orderly run takes the response to the k-th call on its connection, if k of
      the earlier ones waited: its own exactly when no earlier call on that connection was given up. */
  lemma PooledCallTakes(server: Stateless, n: nat, turns: seq<Turn>, t: nat, ending: Ending)
    requires AllOrderly(server, turns) && t < |turns| && turns[t].fate == Awaited
    ensures var id := ConnOf(server, n, turns, t, ending);
            var own := OwnTurns(server, n, turns, id, t + 1, ending);
            var k := Waiters(own, |own| - 1);
            && own != [] && own[|own| - 1] == turns[t]
            && ResultOf(server, n, turns, t, ending) == Ok(server((), own[k].body).1)
            && (k == |own| - 1 <==>
                  forall u | 0 <= u < t :: ConnOf(server, n, turns, u, ending) == id ==> turns[u].fate == Awaited)
  {
    hide *;
    var id := ConnOf(server, n, turns, t, ending);
    var before := OwnTurns(server, n, turns, id, t, ending);
    PooledCallIsTurn(server, n, turns, t, ending);
    OwnTurnsOrderly(server, n, turns, id, t, ending);
    OwnTurnsOrderly(server, n, turns, id, t + 1, ending);
    LastTurnTakes(server, before, turns[t], ending);
  }

  lemma LastTurnTakes(server: Stateless, before: seq<Turn>, turn: Turn, ending: Ending)
    requires AllOrderly(server, before + [turn]) && turn.fate == Awaited
    ensures var own, m := before + [turn], |before|;
            var k := Waiters(own, m);
            && own != [] && |own| - 1 == m && own[m] == turn
            && ResultAt(server, (), own, m, ending) == Ok(server((), own[k].body).1)
            && (k == m <==> forall i | 0 <= i < m :: before[i].fate == Awaited)
  {
    hide AllOrderly, Orderly, ResultAt, LinkAfter, OwnResponse;
    var own := before + [turn];
    OrderlyIs(server, own);
    WaitingTurnTakes(server, (), own, |before|, ending);
    assert forall i | 0 <= i < |before| :: own[i] == before[i];
  }

  // ----- Which connection a call gets -----

  function Slot(t: nat, n: nat): nat
    requires n > 0
  {
    t % n
  }

  lemma SlotAgain(t: nat, n: nat)
    requires n > 0
    ensures Slot(t + n, n) == Slot(t, n)
  {
    RoundRobin.RemainderIs(t + n, t / n + 1, n, t % n);
  }

  lemma SlotOfSmall(t: nat, n: nat)
    requires t < n
    ensures Slot(t, n) == t
  {
  }

  /** The queue of an orderly run: all n connections, the next one first. */
  ghost predicate Rotated(q: Queue, n: nat, t: nat)
    requires n > 0
  {
    |q.idle| == n && forall i | 0 <= i < n :: q.idle[i].id == Slot(t + i, n)
  }

  lemma StepRotates(server: Stateless, q: Queue, n: nat, t: nat, turn: Turn, ending: Ending)
    requires n > 0 && Rotated(q, n, t) && Call(server, Next(q).link, turn, ending).0.usable
    ensures Rotated(Step(server, q, turn, ending).0, n, t + 1)
  {
    hide Call, Slot;
    SlotAgain(t, n);
    assert q.idle[0].id == Slot(t + 0, n);
  }

  lemma NewQueueRotated(n: nat)
    requires n > 0
    ensures Rotated(NewQueue(n), n, 0)
  {
    forall i | 0 <= i < n
      ensures NewQueue(n).idle[i].id == Slot(0 + i, n)
    {
      SlotOfSmall(i, n);
    }
  }

  lemma {:induction false} OrderlyRunRotates(server: Stateless, n: nat, turns: seq<Turn>, t: nat, ending: Ending)
    requires AllOrderly(server, turns) && t <= |turns| && n > 0
    ensures Rotated(QueueAfter(server, n, turns, t, ending), n, t)
  {
    hide Call, Step, Rotated, AllOrderly, NewQueue;
    if t == 0 {
      NewQueueRotated(n);
    } else {
      OrderlyRunRotates(server, n, turns, t - 1, ending);
      StaysUsable(server, n, turns, t - 1, ending);
      StepRotates(server, QueueAfter(server, n, turns, t - 1, ending), n, t - 1, turns[t - 1], ending);
    }
  }

  lemma StaysUsable(server: Stateless, n: nat, turns: seq<Turn>, t: nat, ending: Ending)
    requires AllOrderly(server, turns) && t < |turns|
    ensures Call(server, Next(QueueAfter(server, n, turns, t, ending)).link, turns[t], ending).0.usable
  {
    hide AllOrderly, QueueAfter, Call, OwnTurns, Consistent;
    RunIsConsistent(server, n, turns, t, ending);
    NextIsSession(server, n, turns, t, ending);
    OwnTurnsGrow(server, n, turns, t, ending);
    var id := ConnOf(server, n, turns, t, ending);
    var own := OwnTurns(server, n, turns, id, t + 1, ending);
    OwnTurnsOrderly(server, n, turns, id, t + 1, ending);
    OrderlyIs(server, own);
    SessionInOrder(server, (), own, |own|, ending);
    assert own[..|own|] == own;
  }

  /** Calls over a pool of n connections use them in turn. So a waiting call gets its own response
      exactly when none of the calls n, 2n, ... before it was given up; else it gets that of an earlier
      one of these. */
  lemma CallGetsOwnIff(server: Stateless, n: nat, turns: seq<Turn>, t: nat, ending: Ending)
    requires AllOrderly(server, turns) && n > 0 && t < |turns| && turns[t].fate == Awaited
    ensures ConnOf(server, n, turns, t, ending) == t % n
    ensures var own := OwnTurns(server, n, turns, t % n, t + 1, ending);
            var k := Waiters(own, |own| - 1);
            && own != [] && own[|own| - 1] == turns[t]
            && ResultOf(server, n, turns, t, ending) == Ok(server((), own[k].body).1)
            && (k == |own| - 1 <==> forall u | 0 <= u < t :: u % n == t % n ==> turns[u].fate == Awaited)
  {
    hide QueueAfter, AllOrderly, OwnTurns, ResultOf;
    forall u | 0 <= u <= t
      ensures ConnOf(server, n, turns, u, ending) == u % n
    {
      OrderlyRunRotates(server, n, turns, u, ending);
      assert QueueAfter(server, n, turns, u, ending).idle[0].id == Slot(u + 0, n);
    }
    hide ConnOf;
    PooledCallTakes(server, n, turns, t, ending);
  }
}
