/** The weight arithmetic of the smooth weighted round robin picker
    (selector/weighted_round_robin_balancer.go), without objects or clocks.

    A snapshot of n nodes is the sequence w of their weights. `State(w, t)` holds the nodes'
    `currentWeight`s after t picks from a fresh snapshot, and `Picked(w, t)` is the index that
    the pick numbered t (from 0) returns. Unlike the textbook algorithm a fresh snapshot starts
    every `currentWeight` at the node's weight and not at 0. */
module SmoothWeighted {

  // ----- Sums -----

  function PrefixSum(v: seq<int>, n: nat): int
    requires n <= |v|
  {
    if n == 0 then 0 else PrefixSum(v, n - 1) + v[n - 1]
  }

  function Total(v: seq<int>): int {
    PrefixSum(v, |v|)
  }

  ghost predicate NonNegative(w: seq<int>) {
    forall i | 0 <= i < |w| :: 0 <= w[i]
  }

  lemma {:induction false} PrefixSumOfUpdate(v: seq<int>, k: nat, x: int, n: nat)
    requires k < |v| && n <= |v|
    ensures PrefixSum(v[k := x], n) == PrefixSum(v, n) + (if k < n then x - v[k] else 0)
  {
    if n == 0 {
    } else {
      PrefixSumOfUpdate(v, k, x, n - 1);
    }
  }

  lemma {:induction false} PrefixSumOfBumped(cw: seq<int>, w: seq<int>, n: nat)
    requires |cw| == |w| && n <= |w|
    ensures PrefixSum(Bumped(cw, w), n) == PrefixSum(cw, n) + PrefixSum(w, n)
  {
    if n == 0 {
    } else {
      PrefixSumOfBumped(cw, w, n - 1);
    }
  }

  lemma {:induction false} PrefixSumBounds(v: seq<int>, n: nat, i: nat)
    requires i < n <= |v| && NonNegative(v)
    ensures 0 <= v[i] <= PrefixSum(v, n)
    decreases n
  {
    PrefixSumNonNegative(v, n - 1);
    if i == n - 1 {
    } else {
      PrefixSumBounds(v, n - 1, i);
    }
  }

  lemma {:induction false} PrefixSumNonNegative(v: seq<int>, n: nat)
    requires n <= |v| && NonNegative(v)
    ensures 0 <= PrefixSum(v, n)
  {
    if n == 0 {
    } else {
      PrefixSumNonNegative(v, n - 1);
    }
  }

  /** A sum is at most the number of its terms times any bound on them. */
  lemma {:induction false} PrefixSumAtMost(v: seq<int>, n: nat, x: int)
    requires n <= |v|
    requires forall i | 0 <= i < |v| :: v[i] <= x
    ensures PrefixSum(v, n) <= n * x
  {
    if n == 0 {
    } else {
      PrefixSumAtMost(v, n - 1, x);
    }
  }

  /** Two sequences ordered pointwise whose sums agree are equal pointwise. */
  lemma {:induction false} SqueezeSums(u: seq<int>, v: seq<int>, n: nat)
    requires |u| == |v| && n <= |u|
    requires forall i | 0 <= i < |u| :: u[i] <= v[i]
    ensures PrefixSum(u, n) <= PrefixSum(v, n)
    ensures PrefixSum(u, n) == PrefixSum(v, n) ==> forall i | 0 <= i < n :: u[i] == v[i]
  {
    if n == 0 {
    } else {
      SqueezeSums(u, v, n - 1);
    }
  }

  // ----- One pick -----

  /** Every node's `currentWeight` raised by its weight, as the loop of `pick` leaves it. */
  function Bumped(cw: seq<int>, w: seq<int>): (b: seq<int>)
    requires |cw| == |w|
    ensures |b| == |w|
  {
    seq(|w|, i requires 0 <= i < |w| => cw[i] + w[i])
  }

  /** The scan of `pick` over the first n bumped values: index and value of the best so far,
      starting from index 0 and value 0 and replaced only by a strictly larger value. */
  function Scan(b: seq<int>, n: nat): (best: (nat, int))
    requires n <= |b|
    ensures best.0 < n || best == (0, 0)
  {
    if n == 0 then (0, 0)
    else
      var best := Scan(b, n - 1);
      if b[n - 1] > best.1 then (n - 1, b[n - 1]) else best
  }

  function Winner(b: seq<int>): nat {
    Scan(b, |b|).0
  }

  function Step(cw: seq<int>, w: seq<int>): seq<int>
    requires |cw| == |w| > 0
  {
    var b := Bumped(cw, w);
    b[Winner(b) := b[Winner(b)] - Total(w)]
  }

  /** What the scan is meant to find: the first of the largest values. */
  ghost predicate IsFirstMax(b: seq<int>, k: nat) {
    && k < |b|
    && (forall j | 0 <= j < |b| :: b[j] <= b[k])
    && (forall j | 0 <= j < k :: b[j] < b[k])
  }

  lemma {:induction false} ScanInvariant(b: seq<int>, n: nat)
    requires n <= |b|
    ensures 0 <= Scan(b, n).1
    ensures forall j | 0 <= j < n :: b[j] <= Scan(b, n).1
    ensures Scan(b, n).1 > 0 ==> Scan(b, n).0 < n && b[Scan(b, n).0] == Scan(b, n).1
    ensures Scan(b, n).1 > 0 ==> forall j | 0 <= j < Scan(b, n).0 :: b[j] < Scan(b, n).1
    ensures Scan(b, n).1 == 0 ==> Scan(b, n).0 == 0
  {
    if n == 0 {
    } else {
      ScanInvariant(b, n - 1);
    }
  }

  /** Starting the scan at 0 finds the first maximum exactly when some value is positive or
      index 0 holds the first maximum anyway; otherwise it answers index 0. */
  lemma WinnerIsFirstMaxIff(b: seq<int>)
    requires |b| > 0
    ensures IsFirstMax(b, Winner(b)) <==> (exists j :: 0 <= j < |b| && b[j] > 0) || IsFirstMax(b, 0)
    ensures (forall j | 0 <= j < |b| :: b[j] <= 0) ==> Winner(b) == 0
  {
    ScanInvariant(b, |b|);
  }

  // ----- Runs from a fresh snapshot -----

  function State(w: seq<int>, t: nat): (cw: seq<int>)
    requires |w| > 0
    ensures |cw| == |w|
  {
    if t == 0 then w else Step(State(w, t - 1), w)
  }

  /** The index returned by the pick numbered t. */
  function Picked(w: seq<int>, t: nat): (k: nat)
    requires |w| > 0
    ensures k < |w|
  {
    Winner(Bumped(State(w, t), w))
  }

  /** How many of the first t picks chose node i. */
  function Count(w: seq<int>, i: nat, t: nat): nat
    requires |w| > 0
  {
    if t == 0 then 0 else Count(w, i, t - 1) + (if Picked(w, t - 1) == i then 1 else 0)
  }

  /** One pick moves node i by its weight, and the chosen node also by -W. */
  lemma StateStep(w: seq<int>, t: nat, i: nat)
    requires i < |w|
    ensures State(w, t + 1)[i] == State(w, t)[i] + w[i] - (if Picked(w, t) == i then Total(w) else 0)
    ensures Bumped(State(w, t), w)[i] == State(w, t)[i] + w[i]
  {
    assert State(w, t + 1) == Step(State(w, t), w);
  }

  /** The definitions of a run at t, for proofs that hide them elsewhere. */
  lemma Unfold(w: seq<int>, i: nat, t: nat)
    requires |w| > 0
    ensures State(w, 0) == w && State(w, t + 1) == Step(State(w, t), w)
    ensures Picked(w, t) == Winner(Bumped(State(w, t), w))
    ensures Count(w, i, 0) == 0
    ensures Count(w, i, t + 1) == Count(w, i, t) + (if Picked(w, t) == i then 1 else 0)
  {
  }

  /** Closed form of the state: the weight gathered so far less the full turns paid for. */
  lemma {:induction false} ClosedForm(w: seq<int>, t: nat, i: nat)
    requires i < |w|
    ensures State(w, t)[i] == (t + 1) * w[i] - Total(w) * Count(w, i, t)
  {
    hide *;
    if t == 0 {
      Unfold(w, i, 0);
    } else {
      ClosedForm(w, t - 1, i);
      StateStep(w, t - 1, i);
      Unfold(w, i, t - 1);
      Distribute(Total(w), Count(w, i, t - 1));
      Distribute(w[i], t);
    }
  }

  lemma Distribute(x: int, y: int)
    ensures x * (y + 1) == x * y + x
  {
  }

  /** The sum never moves: it starts at W and each pick adds and removes W. */
  lemma {:induction false} SumIsTotal(w: seq<int>, t: nat)
    requires |w| > 0
    ensures Total(State(w, t)) == Total(w)
    ensures Total(Bumped(State(w, t), w)) == 2 * Total(w)
  {
    if t == 0 {
    } else {
      SumIsTotal(w, t - 1);
      var b := Bumped(State(w, t - 1), w);
      PrefixSumOfUpdate(b, Winner(b), b[Winner(b)] - Total(w), |w|);
    }
    PrefixSumOfBumped(State(w, t), w, |w|);
  }

  /** Every pick chooses a true first maximum, and the chosen value is at least the average 2W/n. */
  lemma {:induction false} PickIsFirstMax(w: seq<int>, t: nat)
    requires |w| > 0 && Total(w) > 0
    ensures IsFirstMax(Bumped(State(w, t), w), Picked(w, t))
    ensures |w| * Bumped(State(w, t), w)[Picked(w, t)] >= 2 * Total(w)
  {
    var b := Bumped(State(w, t), w);
    SumIsTotal(w, t);
    ScanInvariant(b, |b|);
    PrefixSumAtMost(b, |b|, Scan(b, |b|).1);
  }

  /** Two-sided deviation, lower half: no `currentWeight` falls below 2W/n - W. */
  lemma {:induction false} LowerBound(w: seq<int>, t: nat, i: nat)
    requires i < |w| && NonNegative(w) && Total(w) > 0
    ensures |w| * (State(w, t)[i] + Total(w)) >= 2 * Total(w)
  {
    hide State, Picked, Count;
    var n, W := |w|, Total(w);
    if t == 0 {
      Unfold(w, i, 0);
      LowerBoundAtStart(w, i);
    } else {
      StateStep(w, t - 1, i);
      if Picked(w, t - 1) == i {
        PickIsFirstMax(w, t - 1);
      } else {
        LowerBound(w, t - 1, i);
        MulMonotone(n, n, State(w, t)[i] + W, State(w, t - 1)[i] + W);
      }
    }
  }

  lemma LowerBoundAtStart(w: seq<int>, i: nat)
    requires i < |w| && NonNegative(w) && Total(w) > 0
    ensures |w| * (w[i] + Total(w)) >= 2 * Total(w)
  {
    PrefixSumBounds(w, |w|, i);
    if |w| == 1 {
      assert PrefixSum(w, 1) == PrefixSum(w, 0) + w[0];
    } else {
      hide *;
      MulMonotone(|w|, 2, w[i] + Total(w), Total(w));
    }
  }

  lemma MulMonotone(a: int, b: int, x: int, y: int)
    requires (0 <= b <= a && 0 <= y <= x) || (0 <= a && a == b && y <= x)
    ensures a * x >= b * y
  {
    assert a * x - b * y == a * (x - y) + (a - b) * y;
  }

  // ----- Fairness -----

  function Counts(w: seq<int>, t: nat): seq<int>
    requires |w| > 0
  {
    seq(|w|, i requires 0 <= i < |w| => Count(w, i, t))
  }

  /** Every pick is counted for exactly one node. */
  lemma {:induction false} CountsSum(w: seq<int>, t: nat)
    requires |w| > 0
    ensures Total(Counts(w, t)) == t
  {
    if t == 0 {
      PrefixSumAtMost(Counts(w, 0), |w|, 0);
      PrefixSumNonNegative(Counts(w, 0), |w|);
    } else {
      CountsSum(w, t - 1);
      var c, k := Counts(w, t - 1), Picked(w, t - 1);
      assert Counts(w, t) == c[k := c[k] + 1];
      PrefixSumOfUpdate(c, k, c[k] + 1, |w|);
    }
  }

  /** Inside the first cycle a node that already had its w_i picks is not picked again. Before
      the last pick of the cycle it would win with a value that is not positive; at the last one
      some node that is still owed a pick outweighs it. */
  lemma NotPickedBeyondShare(w: seq<int>, t: nat)
    requires |w| > 0 && NonNegative(w) && t < Total(w)
    requires forall i | 0 <= i < |w| :: Count(w, i, t) <= w[i]
    ensures Count(w, Picked(w, t), t) < w[Picked(w, t)]
  {
    var W, i := Total(w), Picked(w, t);
    if Count(w, i, t) == w[i] {
      ServedNodeValue(w, t, i);
      PrefixSumBounds(w, |w|, i);
      PickIsFirstMax(w, t);
      var b := Bumped(State(w, t), w);
      if t <= W - 2 {
        PositiveTimesNegative(|w|, b[i]);
      } else {
        var j := OwedNode(w, t);
        OwedNodeValue(w, t, j);
      }
      assert false;
    }
  }

  lemma PositiveTimesNegative(n: int, x: int)
    requires 0 <= n
    ensures x <= 0 ==> n * x <= 0
  {
  }

  /** The bumped value of a node that has had all its picks of the first cycle. */
  lemma ServedNodeValue(w: seq<int>, t: nat, i: nat)
    requires i < |w| && NonNegative(w) && t < Total(w) && Count(w, i, t) == w[i]
    ensures t <= Total(w) - 2 ==> Bumped(State(w, t), w)[i] <= 0
    ensures t == Total(w) - 1 ==> Bumped(State(w, t), w)[i] == w[i]
  {
    var W := Total(w);
    ClosedForm(w, t, i);
    StateStep(w, t, i);
    Factor(t, w[i], W);
    PositiveTimesNegative(w[i], t + 2 - W);
  }

  lemma Factor(t: int, x: int, W: int)
    ensures (t + 1) * x - W * x + x == x * (t + 2 - W)
  {
  }

  /** The bumped value, at the last pick of the first cycle, of a node still owed a pick. */
  lemma OwedNodeValue(w: seq<int>, t: nat, j: nat)
    requires j < |w| && t == Total(w) - 1 && Count(w, j, t) < w[j]
    ensures Bumped(State(w, t), w)[j] >= w[j] + Total(w)
  {
    var W := Total(w);
    ClosedForm(w, t, j);
    StateStep(w, t, j);
    MulMonotone(W, W, w[j] - 1, Count(w, j, t));
    Distribute(W, w[j] - 1);
  }

  lemma OwedNode(w: seq<int>, t: nat) returns (j: nat)
    requires |w| > 0 && t < Total(w)
    requires forall i | 0 <= i < |w| :: Count(w, i, t) <= w[i]
    ensures j < |w| && Count(w, j, t) < w[j]
  {
    CountsSum(w, t);
    SqueezeSums(Counts(w, t), w, |w|);
    assert Counts(w, t) != w;
    j :| 0 <= j < |w| && Counts(w, t)[j] != w[j];
  }

  lemma {:induction false} WithinShare(w: seq<int>, t: nat)
    requires |w| > 0 && NonNegative(w) && t <= Total(w)
    ensures forall i | 0 <= i < |w| :: Count(w, i, t) <= w[i]
  {
    if t == 0 {
    } else {
      WithinShare(w, t - 1);
      NotPickedBeyondShare(w, t - 1);
    }
  }

  /** The first cycle chooses node i exactly w_i times. */
  lemma FirstCycleCounts(w: seq<int>, W: nat, i: nat)
    requires i < |w| && NonNegative(w) && W == Total(w)
    ensures Count(w, i, W) == w[i]
  {
    WithinShare(w, W);
    CountsSum(w, W);
    SqueezeSums(Counts(w, W), w, |w|);
    assert Counts(w, W)[i] == w[i];
  }

  /** Exact fairness: W picks from a fresh snapshot choose node i exactly w_i times and restore
      the initial state. */
  lemma CycleIsFair(w: seq<int>, W: nat)
    requires |w| > 0 && NonNegative(w) && W == Total(w)
    ensures forall i | 0 <= i < |w| :: Count(w, i, W) == w[i]
    ensures State(w, W) == w
  {
    forall i | 0 <= i < |w|
      ensures Count(w, i, W) == w[i] && State(w, W)[i] == w[i]
    {
      FirstCycleCounts(w, W, i);
      ClosedForm(w, W, i);
      Distribute(w[i], W);
    }
  }

  lemma {:induction false} Periodic(w: seq<int>, W: nat, t: nat)
    requires |w| > 0 && NonNegative(w) && W == Total(w)
    ensures State(w, t + W) == State(w, t)
    ensures Picked(w, t + W) == Picked(w, t)
    decreases t
  {
    hide *;
    if t == 0 {
      CycleIsFair(w, W);
    } else {
      Periodic(w, W, t - 1);
      Unfold(w, 0, t - 1 + W);
      assert t - 1 + W + 1 == t + W;
    }
    Unfold(w, 0, t);
    Unfold(w, 0, t + W);
    if t > 0 {
      Unfold(w, 0, t - 1);
    }
  }

  /** Every window of W consecutive picks of a run contains node i exactly w_i times. */
  lemma {:induction false} WindowIsFair(w: seq<int>, W: nat, t: nat, i: nat)
    requires i < |w| && NonNegative(w) && W == Total(w)
    ensures Count(w, i, t + W) - Count(w, i, t) == w[i]
    decreases t
  {
    hide *;
    Unfold(w, i, 0);
    if t == 0 {
      CycleIsFair(w, W);
    } else {
      WindowIsFair(w, W, t - 1, i);
      Periodic(w, W, t - 1);
      Unfold(w, i, t - 1);
      Unfold(w, i, t - 1 + W);
      assert t - 1 + W + 1 == t + W;
    }
  }

  lemma {:induction false} CountGrowsByPick(w: seq<int>, i: nat, t: nat, u: nat)
    requires i < |w| && t <= u
    ensures Count(w, i, t) <= Count(w, i, u)
    ensures Count(w, i, t) < Count(w, i, u) <==> exists s :: t <= s < u && Picked(w, s) == i
    decreases u
  {
    hide State, Picked;
    if t == u {
    } else {
      CountGrowsByPick(w, i, t, u - 1);
      assert Picked(w, u - 1) == i ==> exists s :: t <= s < u && Picked(w, s) == i;
    }
  }

  /** In any window of W picks a node is picked if and only if its weight is positive. */
  lemma PickedWithinWindowIff(w: seq<int>, t: nat, i: nat)
    requires i < |w| && NonNegative(w)
    ensures w[i] > 0 <==> exists s :: t <= s < t + Total(w) && Picked(w, s) == i
  {
    PrefixSumNonNegative(w, |w|);
    hide State, Picked, Count;
    WindowIsFair(w, Total(w), t, i);
    CountGrowsByPick(w, i, t, t + Total(w));
  }

  /** With W > 0 a zero-weight node is never picked, at any time of any run. */
  lemma ZeroWeightNeverPicked(w: seq<int>, t: nat)
    requires |w| > 0 && NonNegative(w) && Total(w) > 0
    ensures w[Picked(w, t)] > 0
  {
    PickedWithinWindowIff(w, t, Picked(w, t));
  }

  /** When no node has a weight (as the consul resolver leaves them) every pick returns node 0. */
  lemma {:induction false} UnweightedAlwaysFirst(w: seq<int>, t: nat)
    requires |w| > 0 && forall i | 0 <= i < |w| :: w[i] == 0
    ensures State(w, t) == w && Picked(w, t) == 0
  {
    hide State, Picked, Winner, Total;
    Unfold(w, 0, t);
    if t == 0 {
    } else {
      UnweightedAlwaysFirst(w, t - 1);
      Unfold(w, 0, t - 1);
    }
    UnweightedStep(w);
  }

  lemma UnweightedStep(w: seq<int>)
    requires |w| > 0 && forall i | 0 <= i < |w| :: w[i] == 0
    ensures Step(w, w) == w && Winner(Bumped(w, w)) == 0
  {
    PrefixSumAtMost(w, |w|, 0);
    PrefixSumNonNegative(w, |w|);
    WinnerIsFirstMaxIff(Bumped(w, w));
    hide Winner, PrefixSum;
    assert Bumped(w, w) == w;
  }
}
