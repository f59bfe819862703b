/** A harmonic bound on how far any group of nodes can fall behind its share of the picks.

    The argument is the one of the greedy cup game, by induction on the run and over all groups
    of nodes at once: a group that contains the chosen node only loses weight, and a group that
    does not is bounded by the group that adds the chosen node, since the chosen value is at
    least the average of the group. */
module HarmonicBacklog {
  import opened SmoothWeighted

  /** The `currentWeight`s of the nodes below n that belong to the group, summed. */
  function GroupSum(v: seq<int>, group: set<int>, n: nat): int
    requires n <= |v|
  {
    if n == 0 then 0 else GroupSum(v, group, n - 1) + (if n - 1 in group then v[n - 1] else 0)
  }

  function GroupSize(group: set<int>, n: nat): nat {
    if n == 0 then 0 else GroupSize(group, n - 1) + (if n - 1 in group then 1 else 0)
  }

  ghost predicate IsGroup(group: set<int>, n: nat) {
    forall i | i in group :: 0 <= i < n
  }

  /** 1/(k+1) + ... + 1/n */
  function HarmonicTail(k: nat, n: nat): real
    decreases n - k
  {
    if k >= n then 0.0 else 1.0 / (k + 1) as real + HarmonicTail(k + 1, n)
  }

  /** The bound per node of a group of k nodes out of n, in units of the total weight. */
  function Share(k: nat, n: nat): real
    requires n > 0
  {
    1.0 / n as real + HarmonicTail(k, n)
  }

  function Backlog(k: nat, n: nat, W: nat): real
    requires n > 0
  {
    k as real * (W as real * Share(k, n))
  }

  // ----- Group arithmetic -----

  lemma {:induction false} GroupSizeIsCardinality(group: set<int>, n: nat)
    requires IsGroup(group, n)
    ensures GroupSize(group, n) == |group|
  {
    if n == 0 {
      assert forall i | i in group :: 0 <= i < 0;
      assert group == {} by {
        if i :| i in group {
          assert false;
        }
      }
    } else {
      var rest := group - {n - 1};
      GroupSizeIsCardinality(rest, n - 1);
      SameBelow(group, rest, n - 1);
    }
  }

  lemma {:induction false} SameBelow(group: set<int>, other: set<int>, n: nat)
    requires forall i | 0 <= i < n :: i in group <==> i in other
    ensures GroupSize(group, n) == GroupSize(other, n)
  {
    if n == 0 {
    } else {
      SameBelow(group, other, n - 1);
    }
  }

  /** Adding node p to a group it is not in. */
  lemma {:induction false} GroupSumOfExtended(v: seq<int>, group: set<int>, p: nat, n: nat)
    requires n <= |v| && p < |v| && p !in group
    ensures GroupSum(v, group + {p}, n) == GroupSum(v, group, n) + (if p < n then v[p] else 0)
  {
    if n == 0 {
    } else {
      GroupSumOfExtended(v, group, p, n - 1);
    }
  }

  lemma {:induction false} GroupSumOfBumped(cw: seq<int>, w: seq<int>, group: set<int>, n: nat)
    requires |cw| == |w| && n <= |w|
    ensures GroupSum(Bumped(cw, w), group, n) == GroupSum(cw, group, n) + GroupSum(w, group, n)
  {
    if n == 0 {
    } else {
      GroupSumOfBumped(cw, w, group, n - 1);
    }
  }

  lemma {:induction false} GroupSumOfUpdate(v: seq<int>, p: nat, x: int, group: set<int>, n: nat)
    requires n <= |v| && p < |v|
    ensures GroupSum(v[p := x], group, n) ==
            GroupSum(v, group, n) + (if p < n && p in group then x - v[p] else 0)
  {
    if n == 0 {
    } else {
      GroupSumOfUpdate(v, p, x, group, n - 1);
    }
  }

  lemma {:induction false} GroupWithinTotal(w: seq<int>, group: set<int>, n: nat)
    requires n <= |w| && NonNegative(w)
    ensures 0 <= GroupSum(w, group, n) <= PrefixSum(w, n)
  {
    if n == 0 {
    } else {
      GroupWithinTotal(w, group, n - 1);
    }
  }

  /** The average of a group is at most any bound on its values. */
  lemma {:induction false} GroupAtMost(v: seq<int>, group: set<int>, n: nat, x: int)
    requires n <= |v|
    requires forall i | 0 <= i < n :: v[i] <= x
    ensures GroupSum(v, group, n) <= GroupSize(group, n) * x
  {
    if n == 0 {
    } else {
      GroupAtMost(v, group, n - 1, x);
      if n - 1 in group {
        Distribute(x, GroupSize(group, n - 1));
      }
    }
  }

  // ----- Harmonic arithmetic -----

  lemma {:induction false} HarmonicTailBelow(k: nat, n: nat)
    requires k <= n && n > 0
    ensures HarmonicTail(k, n) >= (n - k) as real / n as real
    decreases n - k
  {
    if k == n {
    } else {
      HarmonicTailBelow(k + 1, n);
      assert 1.0 / (k + 1) as real >= 1.0 / n as real by { ReciprocalOrder(k + 1, n); }
      AddFractions(1.0, (n - k - 1) as real, n as real);
    }
  }

  lemma ReciprocalOrder(a: nat, b: nat)
    requires 0 < a <= b
    ensures 1.0 / a as real >= 1.0 / b as real
  {
  }

  lemma AddFractions(a: real, b: real, d: real)
    requires d > 0.0
    ensures a / d + b / d == (a + b) / d
  {
  }

  /** At the start of a run any non-empty group holds at most W, which the bound allows. */
  lemma BacklogCoversTotal(k: nat, n: nat, W: nat)
    requires 0 < k <= n
    ensures Backlog(k, n, W) >= W as real
  {
    HarmonicTailBelow(k, n);
    AddFractions(1.0, (n - k) as real, n as real);
    var m := (1 + n - k) as real / n as real;
    assert (1 + n - k) as real == 1.0 + (n - k) as real;
    assert Share(k, n) >= m;
    BacklogIs(k, n, W);
    hide *;
    LongWayRound(k, n);
    ProductOverDenominator(k, 1 + n - k, n);
    ScaleUp(k as real, W as real, Share(k, n), m);
  }

  lemma BacklogIs(k: nat, n: nat, W: nat)
    requires n > 0
    ensures Backlog(k, n, W) == k as real * (W as real * Share(k, n))
  {
  }

  lemma LongWayRound(k: nat, n: nat)
    requires 0 < k <= n
    ensures k * (1 + n - k) >= n
  {
    Distribute(k, n - k);
    Distribute(n - k, k - 1);
    MulMonotone(n - k, 0, k - 1, 0);
  }

  lemma ProductOverDenominator(a: nat, b: nat, d: nat)
    requires d > 0 && a * b >= d
    ensures a as real * (b as real / d as real) >= 1.0
  {
    var x := b as real / d as real;
    assert x * d as real == b as real;
    assert (a as real * x) * d as real == a as real * b as real;
    assert a as real * b as real == (a * b) as real;
  }

  lemma ScaleUp(k: real, W: real, share: real, m: real)
    requires k >= 0.0 && W >= 0.0 && share >= m && k * m >= 1.0
    ensures k * (W * share) >= W
  {
    MulRight(k, m, share);
    MulRight(W, 1.0, k * share);
    assert k * (W * share) == W * (k * share);
  }

  /** The exchange at the heart of the induction: if a group of k nodes and a further node whose
      value is at least the group's average together stay W below the bound for k + 1, then the
      group alone is within the bound for k. */
  lemma BacklogExchange(k: nat, n: nat, W: nat, sum: int, top: int)
    requires 0 < k < n
    requires k * top >= sum
    requires (sum + top - W) as real <= Backlog(k + 1, n, W)
    ensures sum as real <= Backlog(k, n, W)
  {
    BacklogIs(k, n, W);
    BacklogIs(k + 1, n, W);
    assert Share(k, n) == Share(k + 1, n) + 1.0 / (k + 1) as real;
    assert k as real * top as real == (k * top) as real;
    hide *;
    ExchangeReals(k as real, W as real, sum as real, top as real, Share(k + 1, n));
  }

  lemma ExchangeReals(k: real, w: real, s: real, t: real, next: real)
    requires k > 0.0 && k * t >= s
    requires s + t - w <= (k + 1.0) * (w * next)
    ensures s <= k * (w * (next + 1.0 / (k + 1.0)))
  {
    var x := (k + 1.0) * (w * next) + w;
    ExchangeRatio(k, w, next);
    MulRight(k, s + t, x);
    assert s * (k + 1.0) <= k * x by {
      assert k * (s + t) == s * k + k * t;
      assert s * (k + 1.0) == s * k + s;
    }
    DivideBoth(s, k, x);
  }

  lemma MulRight(k: real, a: real, b: real)
    requires k >= 0.0 && a <= b
    ensures k * a <= k * b
  {
  }

  lemma ExchangeRatio(k: real, w: real, next: real)
    requires k > 0.0
    ensures k * (w * (next + 1.0 / (k + 1.0))) == k / (k + 1.0) * ((k + 1.0) * (w * next) + w)
  {
    var r := 1.0 / (k + 1.0);
    assert r * (k + 1.0) == 1.0;
    assert k / (k + 1.0) == k * r;
    assert k * r * ((k + 1.0) * (w * next)) == k * (w * next) * (r * (k + 1.0));
  }

  lemma DivideBoth(s: real, k: real, x: real)
    requires k > 0.0 && s * (k + 1.0) <= k * x
    ensures s <= k / (k + 1.0) * x
  {
    var r := 1.0 / (k + 1.0);
    assert r * (k + 1.0) == 1.0;
    assert s == (s * (k + 1.0)) * r;
    assert k / (k + 1.0) == k * r;
  }

  // ----- The bound over whole runs -----

  /** One pick, for a group that contains the chosen node or the group extended by it. */
  lemma PickLowersGroup(w: seq<int>, t: nat, group: set<int>)
    requires |w| > 0 && NonNegative(w) && Picked(w, t) in group
    ensures GroupSum(State(w, t + 1), group, |w|) <= GroupSum(State(w, t), group, |w|)
  {
    var b, p := Bumped(State(w, t), w), Picked(w, t);
    assert State(w, t + 1) == b[p := b[p] - Total(w)];
    GroupSumOfUpdate(b, p, b[p] - Total(w), group, |w|);
    GroupSumOfBumped(State(w, t), w, group, |w|);
    GroupWithinTotal(w, group, |w|);
  }

  /** One pick, for a group that does not contain the chosen node p. */
  lemma PickOutsideGroup(w: seq<int>, t: nat, group: set<int>)
    requires |w| > 0 && NonNegative(w) && Total(w) > 0 && Picked(w, t) !in group
    ensures var p := Picked(w, t);
            var top := Bumped(State(w, t), w)[p];
            var sum := GroupSum(State(w, t + 1), group, |w|);
            && GroupSize(group, |w|) * top >= sum
            && sum + top - Total(w) == GroupSum(State(w, t + 1), group + {p}, |w|)
  {
    var b, p := Bumped(State(w, t), w), Picked(w, t);
    PickIsFirstMax(w, t);
    assert State(w, t + 1) == b[p := b[p] - Total(w)];
    GroupSumOfUpdate(b, p, b[p] - Total(w), group, |w|);
    GroupAtMost(b, group, |w|, b[p]);
    GroupSumOfExtended(State(w, t + 1), group, p, |w|);
  }

  /** After every pick of every run, the `currentWeight`s of any k of the n nodes sum to at most
      k * W * (1/n + 1/(k+1) + ... + 1/n). */
  lemma {:induction false} GroupBacklog(w: seq<int>, t: nat, group: set<int>)
    requires |w| > 0 && NonNegative(w) && Total(w) > 0
    requires IsGroup(group, |w|) && group != {}
    ensures GroupSum(State(w, t), group, |w|) as real <= Backlog(|group|, |w|, Total(w))
    decreases t
  {
    hide *;
    if t == 0 {
      BacklogAtStart(w, group);
    } else if Picked(w, t - 1) in group {
      GroupBacklog(w, t - 1, group);
      PickLowersGroup(w, t - 1, group);
    } else {
      var wider := group + {Picked(w, t - 1)};
      PickedNodeJoins(w, t - 1, group);
      GroupBacklog(w, t - 1, wider);
      PickLowersGroup(w, t - 1, wider);
      BacklogFromWider(w, t - 1, group);
    }
  }

  lemma PickedNodeJoins(w: seq<int>, t: nat, group: set<int>)
    requires |w| > 0 && IsGroup(group, |w|) && Picked(w, t) !in group
    ensures IsGroup(group + {Picked(w, t)}, |w|) && |group + {Picked(w, t)}| == |group| + 1
  {
    hide Picked;
  }

  lemma BacklogAtStart(w: seq<int>, group: set<int>)
    requires |w| > 0 && NonNegative(w) && Total(w) > 0
    requires IsGroup(group, |w|) && group != {}
    ensures GroupSum(State(w, 0), group, |w|) as real <= Backlog(|group|, |w|, Total(w))
  {
    hide GroupSum, Backlog, NonNegative;
    GroupSizeIsCardinality(group, |w|);
    GroupSizeAtMost(group, |w|);
    GroupWithinTotal(w, group, |w|);
    BacklogCoversTotal(|group|, |w|, Total(w));
  }

  /** A group without the chosen node, bounded by the group that adds it. */
  lemma BacklogFromWider(w: seq<int>, t: nat, group: set<int>)
    requires |w| > 0 && NonNegative(w) && Total(w) > 0
    requires IsGroup(group, |w|) && group != {} && Picked(w, t) !in group
    requires GroupSum(State(w, t + 1), group + {Picked(w, t)}, |w|) as real <= Backlog(|group| + 1, |w|, Total(w))
    ensures GroupSum(State(w, t + 1), group, |w|) as real <= Backlog(|group|, |w|, Total(w))
  {
    hide *;
    var n, p := |w|, Picked(w, t);
    var sum, top := GroupSum(State(w, t + 1), group, n), Bumped(State(w, t), w)[p];
    OutsideGroup(w, t, group);
    BacklogExchange(|group|, n, Total(w), sum, top);
  }

  /** PickOutsideGroup in terms of the group's cardinality. */
  lemma OutsideGroup(w: seq<int>, t: nat, group: set<int>)
    requires |w| > 0 && NonNegative(w) && Total(w) > 0
    requires IsGroup(group, |w|) && group != {} && Picked(w, t) !in group
    ensures var p := Picked(w, t);
            var top := Bumped(State(w, t), w)[p];
            var sum := GroupSum(State(w, t + 1), group, |w|);
            && 0 < |group| < |w|
            && |group| * top >= sum
            && sum + top - Total(w) == GroupSum(State(w, t + 1), group + {p}, |w|)
  {
    PickOutsideGroup(w, t, group);
    PickedNodeJoins(w, t, group);
    hide *;
    GroupSizeIsCardinality(group, |w|);
    GroupSizeIsCardinality(group + {Picked(w, t)}, |w|);
    GroupSizeAtMost(group + {Picked(w, t)}, |w|);
  }

  lemma {:induction false} GroupSizeAtMost(group: set<int>, n: nat)
    ensures GroupSize(group, n) <= n
  {
    if n == 0 {
    } else {
      GroupSizeAtMost(group, n - 1);
    }
  }

  lemma {:induction false} GroupSumOfSingleton(v: seq<int>, i: nat, n: nat)
    requires n <= |v| && i < |v|
    ensures GroupSum(v, {i}, n) == if i < n then v[i] else 0
  {
    if n == 0 {
    } else {
      GroupSumOfSingleton(v, i, n - 1);
    }
  }

  /** No single node lags its share of the first t picks by more than W * (1/n + 1/2 + ... + 1/n),
      and none is ahead of it by more than W - 2W/n: with picks_i = Count(w, i, t),
      2W/n - W <= (t+1) * w_i - W * picks_i <= W * (1/n + H_n - 1). */
  lemma TwoSidedDeviation(w: seq<int>, t: nat, i: nat)
    requires i < |w| && NonNegative(w) && Total(w) > 0
    ensures var owed := (t + 1) * w[i] - Total(w) * Count(w, i, t);
            && |w| * (owed + Total(w)) >= 2 * Total(w)
            && owed as real <= Total(w) as real * Share(1, |w|)
  {
    ClosedForm(w, t, i);
    LowerBound(w, t, i);
    NodeBacklog(w, t, i);
  }

  lemma NodeBacklog(w: seq<int>, t: nat, i: nat)
    requires i < |w| && NonNegative(w) && Total(w) > 0
    ensures State(w, t)[i] as real <= Total(w) as real * Share(1, |w|)
  {
    hide State, Picked, Count, Step, Bumped, GroupSum, Backlog;
    assert |{i}| == 1;
    GroupBacklog(w, t, {i});
    GroupSumOfSingleton(State(w, t), i, |w|);
    BacklogIs(1, |w|, Total(w));
  }

  lemma {:induction false} HarmonicTailAbove(k: nat, n: nat)
    requires k <= n
    ensures HarmonicTail(k, n) <= (n - k) as real
    decreases n - k
  {
    if k == n {
    } else {
      HarmonicTailAbove(k + 1, n);
      ReciprocalOrder(1, k + 1);
    }
  }

  /** No value a run computes leaves (-W, (n + 1) * W], so 64-bit arithmetic does not wrap as long
      as (n + 1) * W fits. */
  lemma ValuesStayInRange(w: seq<int>, t: nat, i: nat)
    requires i < |w| && NonNegative(w) && Total(w) > 0
    ensures -Total(w) < State(w, t)[i] <= |w| * Total(w)
    ensures -Total(w) < Bumped(State(w, t), w)[i] <= (|w| + 1) * Total(w)
  {
    hide State, Picked, Count, Step, Bumped, HarmonicTail, NonNegative;
    LowerBound(w, t, i);
    PositiveTimesNegative(|w|, State(w, t)[i] + Total(w));
    NodeBacklog(w, t, i);
    ShareAtMostAll(|w|, Total(w));
    StateStep(w, t, i);
    PrefixSumBounds(w, |w|, i);
    Distribute(Total(w), |w|);
  }

  lemma ShareAtMostAll(n: nat, W: nat)
    requires n > 0
    ensures W as real * Share(1, n) <= (n * W) as real
  {
    HarmonicTailAbove(1, n);
    ReciprocalOrder(1, n);
    MulRight(W as real, Share(1, n), n as real);
    assert W as real * n as real == (n * W) as real;
  }
}
