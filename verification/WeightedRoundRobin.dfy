/** The weighted round robin picker and balancer of selector/weighted_round_robin_balancer.go, with
    their objects and their clock. */
module WeightedRoundRobin {
  import opened Wrappers
  import opened Balancing
  import opened SmoothWeighted
  import KeyedRuns

  // ----- Specification -----

  /** What a picker remembers: the nodes of the last refresh, when it was, and how many picks were
      made since. The `currentWeight`s the code updates in place are a function of these. */
  datatype Memory = Memory(snapshot: seq<Node>, picks: nat, lastUpdate: int, duration: int)
  {
    function Weights(): (w: seq<int>)
      ensures |w| == |snapshot|
    {
      WeightsOf(snapshot)
    }

    predicate NeedsRefresh(call: Call) {
      call.now - lastUpdate > duration || |call.nodes| != |snapshot|
    }
  }

  function Refreshed(m: Memory, call: Call): (m': Memory)
    ensures |call.nodes| > 0 ==> |m'.snapshot| > 0
  {
    if m.NeedsRefresh(call) then Memory(call.nodes, 0, call.stamp, m.duration) else m
  }

  function PickStep(m: Memory, call: Call): (r: (Memory, Option<Node>)) {
    if call.nodes == [] then (m, None)
    else
      var m' := Refreshed(m, call);
      (m'.(picks := m'.picks + 1), Some(m'.snapshot[Picked(m'.Weights(), m'.picks)]))
  }

  function NewMemory(duration: int): Call -> Memory {
    (call: Call) => Memory(call.nodes, 0, call.created, duration)
  }

  // ----- Objects -----

  class WeightedNode {
    const node: Node
    const weight: int
    const effectiveWeight: int
    var currentWeight: int

    constructor (node: Node)
      ensures this.node == node && weight == node.weight && currentWeight == node.weight
    {
      this.node := node;
      weight := node.weight;
      effectiveWeight := node.weight;
      currentWeight := node.weight;
    }
  }

  ghost predicate Distinct(nodes: seq<WeightedNode>) {
    forall i, j | 0 <= i < j < |nodes| :: nodes[i] != nodes[j]
  }

  ghost predicate Wraps(nodes: seq<WeightedNode>, list: seq<Node>) {
    |nodes| == |list| && forall i | 0 <= i < |list| :: nodes[i].node == list[i] && nodes[i].weight == list[i].weight
  }

  ghost predicate Holds(nodes: seq<WeightedNode>, cw: seq<int>)
    reads nodes
  {
    |nodes| == |cw| && forall i | 0 <= i < |cw| :: nodes[i].currentWeight == cw[i]
  }

  method GetWeightedNodes(list: seq<Node>) returns (nodes: seq<WeightedNode>)
    ensures Distinct(nodes) && Wraps(nodes, list) && Holds(nodes, WeightsOf(list))
    ensures fresh(nodes)
  {
    nodes := [];
    for i := 0 to |list|
      invariant |nodes| == i && Distinct(nodes) && fresh(nodes)
      invariant Wraps(nodes, list[..i])
      invariant forall j | 0 <= j < i :: nodes[j].currentWeight == list[j].weight
    {
      var n := new WeightedNode(list[i]);
      nodes := nodes + [n];
    }
    assert list[..|list|] == list;
  }

  class Picker {
    var nodes: seq<WeightedNode>
    var lastUpdateTime: int
    const duration: int
    ghost var memory: Memory
    ghost var repr: set<object>

    /** The in-place weights are exactly those of a run of `picks` picks from the snapshot. */
    ghost predicate Valid()
      reads this, repr
      ensures Valid() ==> this in repr
    {
      && this in repr
      && (forall n | n in nodes :: n in repr)
      && Distinct(nodes)
      && Wraps(nodes, memory.snapshot)
      && (nodes != [] ==> Holds(nodes, State(memory.Weights(), memory.picks)))
      && lastUpdateTime == memory.lastUpdate
      && duration == memory.duration
    }

    constructor (list: seq<Node>, lastUpdateTime: int, duration: int)
      ensures Valid() && fresh(repr)
      ensures memory == Memory(list, 0, lastUpdateTime, duration)
    {
      this.lastUpdateTime := lastUpdateTime;
      this.duration := duration;
      memory := Memory(list, 0, lastUpdateTime, duration);
      var wrapped := GetWeightedNodes(list);
      nodes := wrapped;
      repr := {this} + set n: object | n in wrapped;
    }

    /** The refresh at the top of `pick`. */
    method Refresh(call: Call)
      requires Valid() && call.nodes != []
      modifies this
      ensures Valid() && fresh(repr - old(repr)) && nodes != []
      ensures memory == Refreshed(old(memory), call)
      ensures call.now - old(lastUpdateTime) > duration || |call.nodes| != |old(nodes)| ==>
                fresh(nodes) && Wraps(nodes, call.nodes) && lastUpdateTime == call.stamp
      ensures call.now - old(lastUpdateTime) <= duration && |call.nodes| == |old(nodes)| ==>
                nodes == old(nodes) && lastUpdateTime == old(lastUpdateTime)
    {
      if call.now - lastUpdateTime > duration || |call.nodes| != |nodes| {
        nodes := GetWeightedNodes(call.nodes);
        lastUpdateTime := call.stamp;
        repr := repr + set n: object | n in nodes;
      }
      memory := Refreshed(memory, call);
    }

    method Pick(call: Call) returns (result: Option<Node>)
      requires Valid()
      modifies repr
      ensures Valid() && fresh(repr - old(repr))
      ensures (memory, result) == PickStep(old(memory), call)
    {
      if |call.nodes| == 0 {
        return None;
      }
      hide Valid, Picked, Refreshed;
      Refresh(call);
      result := Advance();
    }

    /** The rest of `pick`, from the snapshot as it is. */
    method Advance() returns (result: Option<Node>)
      requires Valid() && nodes != []
      modifies repr
      ensures Valid() && repr == old(repr)
      ensures |old(memory).snapshot| > 0
      ensures memory == old(memory).(picks := old(memory).picks + 1)
      ensures result == Some(memory.snapshot[Picked(memory.Weights(), old(memory).picks)])
    {
      hide State, Picked, Step, Refreshed;
      ghost var w, picks := memory.Weights(), memory.picks;
      var index := BumpAndPick(nodes, w, State(w, picks));
      Unfold(w, 0, picks);
      memory := memory.(picks := picks + 1);
      result := Some(nodes[index].node);
    }
  }

  /** The loop of `pick` and the subtraction after it: raises every node by its weight, chooses the
      scan's winner and takes the total weight off it. */
  method BumpAndPick(nodes: seq<WeightedNode>, ghost w: seq<int>, ghost cw: seq<int>) returns (index: nat)
    requires |nodes| == |w| == |cw| > 0 && Distinct(nodes) && Holds(nodes, cw)
    requires forall i | 0 <= i < |w| :: nodes[i].weight == w[i]
    modifies nodes
    ensures Holds(nodes, Step(cw, w))
    ensures index == Winner(Bumped(cw, w))
  {
    var totalWeight, maxWeight := 0, 0;
    index := 0;
    ghost var b := Bumped(cw, w);
    for i := 0 to |nodes|
      invariant totalWeight == PrefixSum(w, i)
      invariant (index, maxWeight) == Scan(b, i)
      invariant forall j | 0 <= j < i :: nodes[j].currentWeight == b[j]
      invariant forall j | i <= j < |nodes| :: nodes[j].currentWeight == cw[j]
    {
      nodes[i].currentWeight := nodes[i].currentWeight + nodes[i].weight;
      totalWeight := totalWeight + nodes[i].weight;
      if nodes[i].currentWeight > maxWeight {
        maxWeight := nodes[i].currentWeight;
        index := i;
      }
    }
    nodes[index].currentWeight := nodes[index].currentWeight - totalWeight;
  }

  class Balancer {
    var pickers: map<string, Picker>
    const duration: int
    ghost var repr: set<object>

    /** Every picker is in order, and no two share an object. */
    ghost predicate Valid()
      reads this, repr
      ensures Valid() ==> this in repr
    {
      && this in repr
      && (forall k | k in pickers ::
            && pickers[k] in repr
            && pickers[k].repr <= repr
            && this !in pickers[k].repr
            && pickers[k].Valid())
      && (forall k, l | k in pickers && l in pickers && k != l :: pickers[k].repr !! pickers[l].repr)
    }

    /** The memory of every known service. */
    ghost function Table(): map<string, Memory>
      reads this, repr
      requires Valid()
    {
      map k | k in pickers :: pickers[k].memory
    }

    constructor (duration: int)
      ensures Valid() && fresh(repr) && Table() == map[]
      ensures this.duration == duration
    {
      pickers := map[];
      this.duration := duration;
      repr := {this};
    }

    /** The first half of `Balance`: the service's picker, made on its first call. */
    method Load(service: string, call: Call) returns (picker: Picker)
      requires Valid()
      modifies this
      ensures Valid() && fresh(repr - old(repr))
      ensures service in pickers && pickers[service] == picker
      ensures Table() == if service in old(Table()) then old(Table())
                         else old(Table())[service := NewMemory(duration)(call)]
    {
      hide Picker.Valid, PickStep;
      if service !in pickers {
        picker := new Picker(call.nodes, call.created, duration);
        pickers := pickers[service := picker];
        repr := repr + {picker} + picker.repr;
      } else {
        picker := pickers[service];
      }
    }

    /** The second half of `Balance`: the pick, and the picker stored back. */
    method PickAndStore(service: string, picker: Picker, call: Call) returns (result: Option<Node>)
      requires Valid() && service in pickers && pickers[service] == picker
      modifies repr
      ensures Valid() && fresh(repr - old(repr))
      ensures (picker.memory, result) == PickStep(old(picker.memory), call)
      ensures Table() == old(Table())[service := picker.memory]
    {
      hide Picker.Valid, PickStep;
      assert pickers[service := picker] == pickers;
      result := picker.Pick(call);
      pickers := pickers[service := picker];
      repr := repr + picker.repr;
      assert forall k | k in pickers && k != service :: pickers[k].repr == old(pickers[k].repr);
    }

    method Balance(service: string, call: Call) returns (result: Option<Node>)
      requires Valid()
      modifies repr
      ensures Valid() && fresh(repr - old(repr))
      ensures (Table(), result) ==
              KeyedRuns.TableStep(NewMemory(duration), PickStep, old(Table()), service, call)
    {
      hide Valid, PickStep;
      var picker := Load(service, call);
      ghost var before := Table();
      result := PickAndStore(service, picker, call);
      assert before[service := picker.memory] == old(Table())[service := picker.memory];
      assert (picker.memory, result) == PickStep(before[service], call);
    }
  }

  // ----- Runs of a picker between refreshes -----

  /** Every call of the run passes as many nodes as the snapshot has (not none), within the period
      since the last refresh. */
  ghost predicate RefreshFree(m: Memory, calls: seq<Call>) {
    Within(calls, |m.snapshot|, m.lastUpdate, m.duration)
  }

  /** In a refresh-free run the t-th call is answered from the snapshot by the t-th pick, whatever
      list the call itself passes. */
  lemma {:induction false} RefreshFreeRun(m: Memory, calls: seq<Call>, t: nat)
    requires RefreshFree(m, calls) && t < |calls|
    ensures m.snapshot != []
    ensures KeyedRuns.RunOne(PickStep, m, calls)[t] == Some(m.snapshot[Picked(m.Weights(), m.picks + t)])
    decreases t
  {
    hide State, Picked;
    assert calls[0] in calls;
    if t == 0 {
    } else {
      var m' := PickStep(m, calls[0]).0;
      assert forall c | c in calls[1..] :: c in calls;
      RefreshFreeRun(m', calls[1..], t - 1);
    }
  }

  /** In any W consecutive answers of a refresh-free run the picker's snapshot node i was chosen
      exactly weight_i times: the answers are the snapshot read through indices that hit i that
      often. */
  lemma RefreshFreeRunIsFair(m: Memory, calls: seq<Call>, a: nat, i: nat)
    requires RefreshFree(m, calls) && NonNegative(m.Weights()) && i < |m.snapshot|
    requires a + Total(m.Weights()) <= |calls|
    ensures Total(m.Weights()) >= 0
    ensures forall t | a <= t < a + Total(m.Weights()) ::
              KeyedRuns.RunOne(PickStep, m, calls)[t] == Some(m.snapshot[Picked(m.Weights(), m.picks + t)])
    ensures Count(m.Weights(), i, m.picks + a + Total(m.Weights())) - Count(m.Weights(), i, m.picks + a)
            == m.snapshot[i].weight
  {
    hide State, Picked, Count, PickStep;
    var W := Total(m.Weights());
    forall t | a <= t < a + W
      ensures KeyedRuns.RunOne(PickStep, m, calls)[t] == Some(m.snapshot[Picked(m.Weights(), m.picks + t)])
    {
      RefreshFreeRun(m, calls, t);
    }
    PrefixSumNonNegative(m.Weights(), |m.snapshot|);
    WindowIsFair(m.Weights(), W, m.picks + a, i);
  }

  /** From a new balancer, in any interleaving of Balance calls over any services: as long as one
      service's own calls pass as many nodes as the first of them did, within the period since its
      picker was made, any W consecutive answers it gets are chosen from the list of that first call,
      node i exactly weight_i times. */
  lemma BalancesFairly(duration: int, calls: seq<(string, Call)>, service: string, a: nat, i: nat)
    requires var own := KeyedRuns.OwnCalls(calls, service);
             && own != [] && Within(own, |own[0].nodes|, own[0].created, duration)
             && NonNegative(WeightsOf(own[0].nodes)) && i < |own[0].nodes|
             && a + Total(WeightsOf(own[0].nodes)) <= |own|
    ensures var own, w := KeyedRuns.OwnCalls(calls, service), WeightsOf(KeyedRuns.OwnCalls(calls, service)[0].nodes);
            var answers := KeyedRuns.OwnResults(
                             calls, KeyedRuns.RunTable(NewMemory(duration), PickStep, map[], calls), service);
            && |answers| == |own| && Total(w) >= 0
            && (forall t | a <= t < a + Total(w) :: answers[t] == Some(own[0].nodes[Picked(w, t)]))
            && Count(w, i, a + Total(w)) - Count(w, i, a) == own[0].nodes[i].weight
  {
    hide State, Picked, Count, PickStep, Total, NonNegative, Within;
    var own := KeyedRuns.OwnCalls(calls, service);
    var empty: map<string, Memory> := map[];
    KeyedRuns.Isolation(NewMemory(duration), PickStep, empty, calls, service);
    RefreshFreeRunIsFair(NewMemory(duration)(own[0]), own, a, i);
  }

  // ----- Runs with refreshes -----

  /** A call past the period, or with another number of nodes, starts the picker afresh: it is answered
      from its own list by the first pick of a new snapshot, and all later calls are answered as by a
      picker made from that list at the clock reading `stamp`. */
  lemma {:induction false} RefreshRestarts(m: Memory, call: Call, later: seq<Call>)
    requires call.nodes != []
    requires call.now - m.lastUpdate > m.duration || |call.nodes| != |m.snapshot|
    ensures var answers := KeyedRuns.RunOne(PickStep, m, [call] + later);
            && answers[0] == Some(call.nodes[Picked(WeightsOf(call.nodes), 0)])
            && answers == KeyedRuns.RunOne(PickStep, Memory(call.nodes, 0, call.stamp, m.duration), [call] + later)
  {
    hide Picked;
    assert PickStep(m, call) == PickStep(Memory(call.nodes, 0, call.stamp, m.duration), call);
  }

  /** A call without nodes gets none, and every later call the answer it would get without that call. */
  lemma {:induction false} EmptyCallIsIgnored(m: Memory, call: Call, later: seq<Call>)
    requires call.nodes == []
    ensures KeyedRuns.RunOne(PickStep, m, [call] + later) == [None] + KeyedRuns.RunOne(PickStep, m, later)
  {
    assert ([call] + later)[1..] == later;
  }

  /** In any run of a new picker, what it remembers comes from one of the calls so far: its list, and
      the clock as read at its refresh (or, for the first call, when the picker was made). */
  lemma {:induction false} SnapshotOrigin(duration: int, calls: seq<Call>, t: nat) returns (u: nat)
    requires calls != [] && t <= |calls|
    ensures u < |calls| && (u < t || u == 0)
    ensures var m := KeyedRuns.StateAt(PickStep, NewMemory(duration)(calls[0]), calls, t);
            && m.snapshot == calls[u].nodes && m.duration == duration
            && (m.lastUpdate == calls[u].stamp || (u == 0 && m.lastUpdate == calls[0].created))
  {
    hide Picked;
    if t == 0 {
      u := 0;
    } else {
      u := SnapshotOrigin(duration, calls, t - 1);
      var m := KeyedRuns.StateAt(PickStep, NewMemory(duration)(calls[0]), calls, t - 1);
      if calls[t - 1].nodes != [] && m.NeedsRefresh(calls[t - 1]) {
        u := t - 1;
      }
    }
  }

  /** How stale an answer can be: it is a node of the list passed by the call itself, or by an earlier
      one that passed as many nodes and whose clock reading lies at most the period back. */
  ghost predicate IsFresh(duration: int, calls: seq<Call>, t: nat, answer: Option<Node>)
    requires t < |calls|
  {
    && answer.Some?
    && exists u: nat | u <= t ::
         && answer.value in calls[u].nodes
         && (u == t ||
             (&& |calls[u].nodes| == |calls[t].nodes|
              && (calls[t].now - calls[u].stamp <= duration
                  || (u == 0 && calls[t].now - calls[0].created <= duration))))
  }

  lemma {:induction false} AnswersAreFresh(duration: int, calls: seq<Call>, t: nat)
    requires t < |calls| && calls[t].nodes != []
    ensures IsFresh(duration, calls, t, KeyedRuns.RunOne(PickStep, NewMemory(duration)(calls[0]), calls)[t])
  {
    hide Picked;
    var m0 := NewMemory(duration)(calls[0]);
    var m := KeyedRuns.StateAt(PickStep, m0, calls, t);
    KeyedRuns.ResultFromState(PickStep, m0, calls, t);
    var u := SnapshotOrigin(duration, calls, t);
    var answer := PickStep(m, calls[t]).1;
    assert answer.value in if m.NeedsRefresh(calls[t]) then calls[t].nodes else calls[u].nodes;
  }

  /** From a new balancer, in any interleaving of services and through any refreshes, no service is ever
      answered with a node older than that. */
  lemma {:induction false} BalancesFresh(duration: int, calls: seq<(string, Call)>, service: string, t: nat)
    requires var own := KeyedRuns.OwnCalls(calls, service); t < |own| && own[t].nodes != []
    ensures var own := KeyedRuns.OwnCalls(calls, service);
            var answers := KeyedRuns.OwnResults(
                             calls, KeyedRuns.RunTable(NewMemory(duration), PickStep, map[], calls), service);
            |answers| == |own| && IsFresh(duration, own, t, answers[t])
  {
    hide PickStep, IsFresh;
    var empty: map<string, Memory> := map[];
    KeyedRuns.Isolation(NewMemory(duration), PickStep, empty, calls, service);
    AnswersAreFresh(duration, KeyedRuns.OwnCalls(calls, service), t);
  }

  // ----- Whether answers are listed -----

  /** An answer need not belong to the list passed by that call: a list of unchanged length within
      the refresh period is ignored. */
  lemma AnswerMayBeStale()
    ensures exists m: Memory, call: Call ::
              && call.nodes != []
              && PickStep(m, call).1.Some?
              && PickStep(m, call).1.value !in call.nodes
  {
    var gone, added := Node("gone", [], 1), Node("added", [], 1);
    var m, call := Memory([gone], 0, 0, 180), Call([added], 0, 1, 1);
    assert PickStep(m, call).1 == Some(gone);
  }

  /** The nodes a snapshot can answer with: those of positive weight, or the first if none has any. */
  ghost predicate Pickable(w: seq<int>, i: nat)
    requires i < |w|
  {
    w[i] > 0 || (i == 0 && Total(w) == 0)
  }

  lemma PickedIsPickable(w: seq<int>, t: nat)
    requires |w| > 0 && NonNegative(w)
    ensures Pickable(w, Picked(w, t))
  {
    PrefixSumNonNegative(w, |w|);
    hide State, Picked;
    if Total(w) > 0 {
      ZeroWeightNeverPicked(w, t);
    } else {
      NoWeights(w);
      UnweightedAlwaysFirst(w, t);
    }
  }

  lemma NoWeights(w: seq<int>)
    requires NonNegative(w) && Total(w) <= 0
    ensures forall i | 0 <= i < |w| :: w[i] == 0
  {
    forall i | 0 <= i < |w|
      ensures w[i] == 0
    {
      PrefixSumBounds(w, |w|, i);
    }
  }

  /** A cycle: W picks, or one if there are no weights. */
  function Cycle(w: seq<int>): nat {
    if Total(w) > 0 then Total(w) else 1
  }

  lemma PickableIsPicked(w: seq<int>, t: nat, i: nat) returns (s: nat)
    requires i < |w| && NonNegative(w) && Pickable(w, i)
    ensures t <= s < t + Cycle(w) && Picked(w, s) == i
  {
    PrefixSumBounds(w, |w|, i);
    hide State, Picked;
    if w[i] > 0 {
      PickedWithinWindowIff(w, t, i);
      s :| t <= s < t + Total(w) && Picked(w, s) == i;
    } else {
      NoWeights(w);
      UnweightedAlwaysFirst(w, t);
      s := t;
    }
  }

  /** Exactly when the answers of a refresh-free run stay within some list, such as one that has lost
      nodes in the meantime: over any cycle all of them do if and only if every node of positive weight
      in the snapshot is listed (or, without weights, its first node). */
  lemma AnswersAreListedIff(m: Memory, calls: seq<Call>, a: nat, list: seq<Node>)
    requires RefreshFree(m, calls) && NonNegative(m.Weights()) && a + Cycle(m.Weights()) <= |calls|
    ensures (forall t | a <= t < a + Cycle(m.Weights()) ::
               KeyedRuns.RunOne(PickStep, m, calls)[t].Some? && KeyedRuns.RunOne(PickStep, m, calls)[t].value in list)
            <==> forall i | 0 <= i < |m.snapshot| && Pickable(m.Weights(), i) :: m.snapshot[i] in list
  {
    var w, results := m.Weights(), KeyedRuns.RunOne(PickStep, m, calls);
    RefreshFreeRun(m, calls, a);
    hide State, Picked, PickStep, Total, Pickable, RefreshFree, NonNegative, KeyedRuns.RunOne;
    forall t | a <= t < a + Cycle(w)
      ensures results[t] == Some(m.snapshot[Picked(w, m.picks + t)]) && Pickable(w, Picked(w, m.picks + t))
    {
      RefreshFreeRun(m, calls, t);
      PickedIsPickable(w, m.picks + t);
    }
    forall i | 0 <= i < |m.snapshot| && Pickable(w, i)
      ensures exists t :: a <= t < a + Cycle(w) && results[t] == Some(m.snapshot[i])
    {
      var s := PickableIsPicked(w, m.picks + a, i);
      assert results[s - m.picks] == Some(m.snapshot[i]);
    }
  }
}
