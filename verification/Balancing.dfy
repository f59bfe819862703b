/** What the balancers have in common: nodes, and one call to a balancer. */
module Balancing {
  import opened Wrappers

  /** A service node as service discovery reports it (selector/kv.go). */
  datatype Node = Node(key: string, value: bytes, weight: int)

  /** One call: the current node list and the readings of the clock, in the order taken. `created`
      is read only when the service is seen for the first time, `stamp` only on a refresh. */
  datatype Call = Call(nodes: seq<Node>, created: int, now: int, stamp: int)

  /** Non-empty lists of one length, passed within the refresh period since a reading of the clock. */
  ghost predicate Within(calls: seq<Call>, length: nat, since: int, duration: int) {
    forall c | c in calls :: c.nodes != [] && |c.nodes| == length && c.now - since <= duration
  }

  function WeightsOf(nodes: seq<Node>): (w: seq<int>)
    ensures |w| == |nodes|
  {
    seq(|nodes|, i requires 0 <= i < |nodes| => nodes[i].weight)
  }
}
