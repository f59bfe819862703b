/** The round robin picker and balancer of selector/round_robin_balancer.go. */
module RoundRobin {
  import opened Wrappers
  import opened Balancing
  import KeyedRuns

  // ----- Specification -----

  /** `turn` counts the picks since the last reset; the code keeps only its remainder. */
  datatype Memory = Memory(length: nat, turn: nat, lastUpdate: int, duration: int)
  {
    predicate NeedsReset(call: Call) {
      call.now - lastUpdate > duration || |call.nodes| != length
    }
  }

  function ResetIfNeeded(m: Memory, call: Call): Memory {
    if m.NeedsReset(call) then Memory(|call.nodes|, 0, call.stamp, m.duration) else m
  }

  /** The pick numbered t (from 1) since a reset returns the node at t mod n. */
  function PickStep(m: Memory, call: Call): (r: (Memory, Option<Node>)) {
    if call.nodes == [] then (m, None)
    else
      var m' := ResetIfNeeded(m, call);
      var turn := m'.turn + 1;
      (m'.(turn := turn), Some(call.nodes[turn % |call.nodes|]))
  }

  function NewMemory(duration: int): Call -> Memory {
    (call: Call) => Memory(|call.nodes|, 0, call.created, duration)
  }

  lemma NextRemainder(turn: nat, n: nat)
    requires n > 0
    ensures (turn + 1) % n == if turn % n == n - 1 then 0 else turn % n + 1
  {
    var q, r := turn / n, turn % n;
    assert turn == q * n + r;
    if r == n - 1 {
      assert turn + 1 == (q + 1) * n;
      RemainderIs(turn + 1, q + 1, n, 0);
    } else {
      RemainderIs(turn + 1, q, n, r + 1);
    }
  }

  lemma RemainderIs(x: nat, q: nat, n: nat, r: nat)
    requires 0 <= r < n && x == q * n + r
    ensures x % n == r
  {
    var d := x / n - q;
    assert d * n == r - x % n by {
      assert x == x / n * n + x % n;
      assert d * n == x / n * n - q * n;
    }
    NonZeroMultiple(d, n);
  }

  lemma NonZeroMultiple(d: int, n: nat)
    ensures d > 0 ==> d * n >= n
    ensures d < 0 ==> d * n <= -(n as int)
  {
  }

  // ----- Objects -----

  class Picker {
    var length: nat
    var lastUpdateTime: int
    const duration: int
    var lastIndex: nat
    ghost var memory: Memory

    /** The stored index is the remainder of the turn, so it is always within the last list. */
    ghost predicate Valid()
      reads this
    {
      && length == memory.length
      && lastUpdateTime == memory.lastUpdate
      && duration == memory.duration
      && (if length == 0 then lastIndex == 0 else lastIndex == memory.turn % length)
    }

    constructor (length: nat, lastUpdateTime: int, duration: int)
      ensures Valid() && memory == Memory(length, 0, lastUpdateTime, duration)
    {
      this.length := length;
      this.lastUpdateTime := lastUpdateTime;
      this.duration := duration;
      lastIndex := 0;
      memory := Memory(length, 0, lastUpdateTime, duration);
    }

    method Pick(call: Call) returns (result: Option<Node>)
      requires Valid()
      modifies this
      ensures Valid()
      ensures (memory, result) == PickStep(old(memory), call)
    {
      if |call.nodes| == 0 {
        return None;
      }
      if call.now - lastUpdateTime > duration || |call.nodes| != length {
        length := |call.nodes|;
        lastUpdateTime := call.stamp;
        lastIndex := 0;
      }
      memory := ResetIfNeeded(memory, call);
      NextRemainder(memory.turn, |call.nodes|);
      memory := memory.(turn := memory.turn + 1);
      if lastIndex == |call.nodes| - 1 {
        lastIndex := 0;
        return Some(call.nodes[0]);
      }
      lastIndex := lastIndex + 1;
      return Some(call.nodes[lastIndex]);
    }
  }

  class Balancer {
    var pickers: map<string, Picker>
    const duration: int
    ghost var repr: set<object>

    ghost predicate Valid()
      reads this, repr
      ensures Valid() ==> this in repr
    {
      && this in repr
      && (forall k | k in pickers :: pickers[k] in repr && pickers[k].Valid())
      && (forall k, l | k in pickers && l in pickers && k != l :: pickers[k] != pickers[l])
    }

    ghost function Table(): map<string, Memory>
      reads this, repr
      requires Valid()
    {
      map k | k in pickers :: pickers[k].memory
    }

    constructor (duration: int)
      ensures Valid() && fresh(repr) && Table() == map[]
      ensures this.duration == duration
    {
      pickers := map[];
      this.duration := duration;
      repr := {this};
    }

    /** The first half of `Balance`: the service's picker, made on its first call. */
    method Load(service: string, call: Call) returns (picker: Picker)
      requires Valid()
      modifies this
      ensures Valid() && fresh(repr - old(repr))
      ensures service in pickers && pickers[service] == picker
      ensures Table() == if service in old(Table()) then old(Table())
                         else old(Table())[service := NewMemory(duration)(call)]
    {
      hide PickStep, Picker.Valid;
      if service !in pickers {
        picker := new Picker(|call.nodes|, call.created, duration);
        pickers := pickers[service := picker];
        repr := repr + {picker};
      } else {
        picker := pickers[service];
      }
    }

    /** The second half of `Balance`: the pick, and the picker stored back. */
    method PickAndStore(service: string, picker: Picker, call: Call) returns (result: Option<Node>)
      requires Valid() && service in pickers && pickers[service] == picker
      modifies repr
      ensures Valid() && repr == old(repr)
      ensures (picker.memory, result) == PickStep(old(picker.memory), call)
      ensures Table() == old(Table())[service := picker.memory]
    {
      hide Picker.Valid, PickStep;
      assert pickers[service := picker] == pickers;
      result := picker.Pick(call);
      pickers := pickers[service := picker];
    }

    method Balance(service: string, call: Call) returns (result: Option<Node>)
      requires Valid()
      modifies repr
      ensures Valid() && fresh(repr - old(repr))
      ensures (Table(), result) ==
              KeyedRuns.TableStep(NewMemory(duration), PickStep, old(Table()), service, call)
    {
      hide Valid, PickStep;
      var picker := Load(service, call);
      ghost var before := Table();
      result := PickAndStore(service, picker, call);
      assert before[service := picker.memory] == old(Table())[service := picker.memory];
      assert (picker.memory, result) == PickStep(before[service], call);
    }
  }

  // ----- Runs -----

  /** Every call of the run passes as many nodes as the last one before it (not none), within the period
      since the last reset. */
  ghost predicate ResetFree(m: Memory, calls: seq<Call>) {
    Within(calls, m.length, m.lastUpdate, m.duration)
  }

  /** A call past the period, or with another number of nodes, starts the turns afresh: it gets position
      1 (modulo n) of its list, and all later calls are answered as by a picker made for lists of that
      length at the clock reading `stamp`. */
  lemma {:induction false} ResetRestarts(m: Memory, call: Call, later: seq<Call>)
    requires call.nodes != []
    requires call.now - m.lastUpdate > m.duration || |call.nodes| != m.length
    ensures var answers := KeyedRuns.RunOne(PickStep, m, [call] + later);
            && answers[0] == Some(call.nodes[1 % |call.nodes|])
            && answers == KeyedRuns.RunOne(PickStep, Memory(|call.nodes|, 0, call.stamp, m.duration), [call] + later)
  {
    assert PickStep(m, call) == PickStep(Memory(|call.nodes|, 0, call.stamp, m.duration), call);
  }

  /** A call without nodes gets none, and every later call the answer it would get without that call. */
  lemma {:induction false} EmptyCallIsIgnored(m: Memory, call: Call, later: seq<Call>)
    requires call.nodes == []
    ensures KeyedRuns.RunOne(PickStep, m, [call] + later) == [None] + KeyedRuns.RunOne(PickStep, m, later)
  {
    assert ([call] + later)[1..] == later;
  }

  /** The position answered t calls (from 0) into a run without resets. */
  function Position(m: Memory, t: nat): nat
    requires m.length > 0
  {
    (m.turn + t + 1) % m.length
  }

  /** Between resets the call numbered t (from 0) gets the node its own list holds at
      (turn + t + 1) mod n. */
  lemma {:induction false} ResetFreeRun(m: Memory, calls: seq<Call>, t: nat)
    requires ResetFree(m, calls) && t < |calls|
    ensures m.length == |calls[t].nodes| > 0
    ensures KeyedRuns.RunOne(PickStep, m, calls)[t] == Some(calls[t].nodes[Position(m, t)])
    decreases t
  {
    assert calls[0] in calls;
    if t == 0 {
    } else {
      var m' := PickStep(m, calls[0]).0;
      assert forall c | c in calls[1..] :: c in calls;
      ResetFreeRun(m', calls[1..], t - 1);
      assert calls[1..][t - 1] == calls[t];
      assert Position(m', t - 1) == Position(m, t);
    }
  }

  /** Any n consecutive picks between resets return every position of the list exactly once. */
  lemma EveryNodeOncePerRound(m: Memory, calls: seq<Call>, a: nat, i: nat)
    requires ResetFree(m, calls) && i < m.length && a + m.length <= |calls|
    ensures forall t | a <= t < a + m.length ::
              KeyedRuns.RunOne(PickStep, m, calls)[t] == Some(calls[t].nodes[Position(m, t)])
    ensures exists t | a <= t < a + m.length ::
              && Position(m, t) == i
              && forall u | a <= u < a + m.length && Position(m, u) == i :: u == t
  {
    forall t | a <= t < a + m.length
      ensures KeyedRuns.RunOne(PickStep, m, calls)[t] == Some(calls[t].nodes[Position(m, t)])
    {
      ResetFreeRun(m, calls, t);
    }
    var t := TurnOf(m, a, i);
  }

  lemma TurnOf(m: Memory, a: nat, i: nat) returns (t: nat)
    requires i < m.length
    ensures a <= t < a + m.length && Position(m, t) == i
    ensures forall u | a <= u < a + m.length && Position(m, u) == i :: u == t
  {
    var n, base := m.length, m.turn + a + 1;
    var r := base % n;
    var ahead := if i >= r then i - r else n - r + i;
    t := a + ahead;
    AheadRemainder(base, n, ahead);
    assert Position(m, t) == (base + ahead) % n;
    forall u | a <= u < a + n && Position(m, u) == i
      ensures u == t
    {
      AheadRemainder(base, n, u - a);
      assert m.turn + u + 1 == base + (u - a);
    }
  }

  /** The remainder d < n steps further. */
  lemma AheadRemainder(x: nat, n: nat, d: nat)
    requires d < n
    ensures (x + d) % n == if x % n + d < n then x % n + d else x % n + d - n
  {
    var q, r := x / n, x % n;
    assert x == q * n + r;
    if r + d < n {
      RemainderIs(x + d, q, n, r + d);
    } else {
      assert (q + 1) * n == q * n + n;
      RemainderIs(x + d, q + 1, n, r + d - n);
    }
  }

  /** Through any changes of the list and any timeouts, an answer is a node of the list passed in
      that very call, and only an empty list gets none. */
  lemma {:induction false} AnswersAreListed(m: Memory, calls: seq<Call>, t: nat)
    requires t < |calls|
    ensures calls[t].nodes == [] <==> KeyedRuns.RunOne(PickStep, m, calls)[t] == None
    ensures calls[t].nodes != [] ==> KeyedRuns.RunOne(PickStep, m, calls)[t].value in calls[t].nodes
    decreases t
  {
    if t == 0 {
    } else {
      AnswersAreListed(PickStep(m, calls[0]).0, calls[1..], t - 1);
    }
  }

  /** From a new balancer, in any interleaving of Balance calls over any services: as long as one
      service's own calls pass as many nodes as the first of them did, within the period since its
      picker was made, its t-th answer (from 0) is position t + 1 modulo n of the list it passes. */
  lemma BalancesInTurn(duration: int, calls: seq<(string, Call)>, service: string, t: nat)
    requires var own := KeyedRuns.OwnCalls(calls, service);
             own != [] && Within(own, |own[0].nodes|, own[0].created, duration) && t < |own|
    ensures var own := KeyedRuns.OwnCalls(calls, service);
            var answers := KeyedRuns.OwnResults(
                             calls, KeyedRuns.RunTable(NewMemory(duration), PickStep, map[], calls), service);
            && |answers| == |own| && |own[t].nodes| > 0
            && answers[t] == Some(own[t].nodes[(t + 1) % |own[t].nodes|])
  {
    var own := KeyedRuns.OwnCalls(calls, service);
    var empty: map<string, Memory> := map[];
    KeyedRuns.Isolation(NewMemory(duration), PickStep, empty, calls, service);
    ResetFreeRun(NewMemory(duration)(own[0]), own, t);
  }
}
