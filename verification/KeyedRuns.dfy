/** Both balancers keep one picker per service name in a map, create it on the first call for that
    name, and let a call touch no other entry. This module runs any such table of independent
    state machines and shows that the entries do not influence each other. */
module KeyedRuns {

  /** The results of a sequence of calls to one machine. */
  function RunOne<S, C, R>(step: (S, C) -> (S, R), s: S, calls: seq<C>): (results: seq<R>)
    ensures |results| == |calls|
    decreases |calls|
  {
    if calls == [] then []
    else
      var (s', r) := step(s, calls[0]);
      [r] + RunOne(step, s', calls[1..])
  }

  /** The machine's state after the first t calls. */
  function StateAt<S, C, R>(step: (S, C) -> (S, R), s: S, calls: seq<C>, t: nat): S
    requires t <= |calls|
  {
    if t == 0 then s else step(StateAt(step, s, calls, t - 1), calls[t - 1]).0
  }

  lemma {:induction false} ResultFromState<S, C, R>(step: (S, C) -> (S, R), s: S, calls: seq<C>, t: nat)
    requires t < |calls|
    ensures RunOne(step, s, calls)[t] == step(StateAt(step, s, calls, t), calls[t]).1
    decreases t
  {
    if t == 0 {
    } else {
      ResultFromState(step, step(s, calls[0]).0, calls[1..], t - 1);
      StateShifts(step, s, calls, t);
    }
  }

  lemma {:induction false} StateShifts<S, C, R>(step: (S, C) -> (S, R), s: S, calls: seq<C>, t: nat)
    requires 0 < t <= |calls|
    ensures StateAt(step, s, calls, t) == StateAt(step, step(s, calls[0]).0, calls[1..], t - 1)
    decreases t
  {
    if t == 1 {
      assert StateAt(step, s, calls, 0) == s;
    } else {
      StateShifts(step, s, calls, t - 1);
    }
  }

  /** One call for key k: load the entry or create it, step it, store it back. */
  function TableStep<K, S, C, R>(
      init: C -> S, step: (S, C) -> (S, R), table: map<K, S>, k: K, call: C): (r: (map<K, S>, R))
  {
    var s := if k in table then table[k] else init(call);
    var (s', result) := step(s, call);
    (table[k := s'], result)
  }

  /** The results of a sequence of keyed calls, in order. */
  function RunTable<K, S, C, R>(
      init: C -> S, step: (S, C) -> (S, R), table: map<K, S>, calls: seq<(K, C)>): (results: seq<R>)
    ensures |results| == |calls|
    decreases |calls|
  {
    if calls == [] then []
    else
      var (table', r) := TableStep(init, step, table, calls[0].0, calls[0].1);
      [r] + RunTable(init, step, table', calls[1..])
  }

  /** The calls for one key, and the results of these calls among all results. */
  function OwnCalls<K(==), C>(calls: seq<(K, C)>, k: K): seq<C> {
    if calls == [] then []
    else (if calls[0].0 == k then [calls[0].1] else []) + OwnCalls(calls[1..], k)
  }

  function OwnResults<K(==), C, R>(calls: seq<(K, C)>, results: seq<R>, k: K): seq<R>
    requires |calls| == |results|
  {
    if calls == [] then []
    else (if calls[0].0 == k then [results[0]] else []) + OwnResults(calls[1..], results[1..], k)
  }

  /** They are picked out in order, and no others. */
  lemma {:induction false} OwnCallsInOrder<K, C, R>(
      calls: seq<(K, C)>, results: seq<R>, key: K, call: C, result: R, k: K)
    requires |calls| == |results|
    ensures OwnCalls(calls + [(key, call)], k) == OwnCalls(calls, k) + if key == k then [call] else []
    ensures OwnResults(calls + [(key, call)], results + [result], k)
            == OwnResults(calls, results, k) + if key == k then [result] else []
    decreases |calls|
  {
    var more, moreResults := calls + [(key, call)], results + [result];
    if calls == [] {
      assert more[1..] == [] && moreResults[1..] == [];
    } else {
      OwnCallsInOrder(calls[1..], results[1..], key, call, result, k);
      assert more[1..] == calls[1..] + [(key, call)] && moreResults[1..] == results[1..] + [result];
    }
  }

  /** Isolation: in any interleaving of calls over any keys, the results one key sees are those of a
      machine of its own, started by its entry or else by its first call, that gets only its calls. */
  lemma {:induction false} Isolation<K, S, C, R>(
      init: C -> S, step: (S, C) -> (S, R), table: map<K, S>, calls: seq<(K, C)>, k: K)
    ensures OwnCalls(calls, k) == [] ==> OwnResults(calls, RunTable(init, step, table, calls), k) == []
    ensures OwnCalls(calls, k) != [] ==>
              OwnResults(calls, RunTable(init, step, table, calls), k)
              == RunOne(step, if k in table then table[k] else init(OwnCalls(calls, k)[0]), OwnCalls(calls, k))
    decreases |calls|
  {
    if calls == [] {
    } else {
      var (key, call) := calls[0];
      var (table', r) := TableStep(init, step, table, key, call);
      assert RunTable(init, step, table, calls)[1..] == RunTable(init, step, table', calls[1..]);
      Isolation(init, step, table', calls[1..], k);
      if key == k {
        assert OwnCalls(calls, k)[1..] == OwnCalls(calls[1..], k);
      } else {
        assert OwnCalls(calls, k) == OwnCalls(calls[1..], k);
      }
    }
  }
}
