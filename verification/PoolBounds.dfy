/** The clients' bound of cap - 1 in PoolModel.NoPutMeetsFullQueue cannot be raised: for every
    capacity there is a run in which they hold exactly cap connections, and the checker then puts
    its connection back into a full queue, which never returns. */
module PoolBounds {
  import opened Wrappers
  import opened PoolModel

  lemma {:induction false} RunsCompose<C>(p: Pool<C>, a: seq<Step<C>>, b: seq<Step<C>>)
    requires IsRun(p, a) && IsRun(After(p, a), b)
    ensures IsRun(p, a + b) && After(p, a + b) == After(After(p, a), b)
    ensures Peak(p, a + b) == Max(Peak(p, a), Peak(After(p, a), b))
    decreases |a|
  {
    hide Busy, Apply, Enabled;
    if a == [] {
      assert a + b == b;
      PeakIncludesStart(p, b);
    } else {
      assert (a + b)[1..] == a[1..] + b;
      RunsCompose(Apply(p, a[0]), a[1..], b);
    }
  }

  lemma PeakIncludesStart<C>(p: Pool<C>, steps: seq<Step<C>>)
    requires IsRun(p, steps)
    ensures Busy(p) <= Peak(p, steps)
  {
  }

  function Between(a: nat, b: nat): (s: set<nat>)
    ensures forall i :: i in s <==> a <= i <= b
    decreases b + 1 - a
  {
    if a > b then {} else {a} + Between(a + 1, b)
  }

  lemma {:induction false} BetweenSize(a: nat, b: nat)
    requires a <= b + 1
    ensures |Between(a, b)| == b + 1 - a
    decreases b + 1 - a
  {
    if a == b + 1 {
    } else {
      BetweenSize(a + 1, b);
      assert a !in Between(a + 1, b);
    }
  }

  // ----- Phase one: while the checker holds connection 0, clients dial 1 to k -----

  function Dialling(k: nat): seq<Step<nat>> {
    if k == 0 then [] else Dialling(k - 1) + [Get, Dialled(k)]
  }

  function Checked(cap: nat): Pool<nat> {
    Pool(cap, true, [], {}, 0, Some(0), {}, {}, {})
  }

  function AllDialled(cap: nat, k: nat): Pool<nat> {
    Checked(cap).(held := Between(1, k))
  }

  lemma {:induction false} DiallingReaches(cap: nat, k: nat)
    requires k <= cap
    ensures IsRun(Checked(cap), Dialling(k)) && After(Checked(cap), Dialling(k)) == AllDialled(cap, k)
    ensures Peak(Checked(cap), Dialling(k)) <= k
  {
    hide AllDialled, IsRun, After, Peak, Checked;
    if k == 0 {
      NobodyDialled(cap);
      RunOfNone(Checked(cap));
    } else {
      DiallingReaches(cap, k - 1);
      DialOne(cap, k);
      RunsCompose(Checked(cap), Dialling(k - 1), [Get, Dialled(k)]);
    }
  }

  lemma NobodyDialled(cap: nat)
    ensures AllDialled(cap, 0) == Checked(cap) && Busy(Checked(cap)) == 0
  {
    assert Between(1, 0) == {};
  }

  lemma RunOfNone<C>(p: Pool<C>)
    ensures IsRun(p, []) && After(p, []) == p && Peak(p, []) == Busy(p)
  {
  }

  lemma DialOne(cap: nat, k: nat)
    requires 0 < k
    ensures IsRun(AllDialled(cap, k - 1), [Get, Dialled(k)])
    ensures After(AllDialled(cap, k - 1), [Get, Dialled(k)]) == AllDialled(cap, k)
    ensures Peak(AllDialled(cap, k - 1), [Get, Dialled(k)]) <= k
  {
    var p := AllDialled(cap, k - 1);
    var q := Apply(p, Get);
    assert q == p.(dialling := 1);
    assert Between(1, k - 1) + {k} == Between(1, k);
    assert Apply(q, Dialled(k)) == AllDialled(cap, k);
    BetweenSize(1, k - 1);
    BetweenSize(1, k);
    RunOfTwo(p, Get, Dialled(k));
  }

  lemma RunOfTwo<C>(p: Pool<C>, a: Step<C>, b: Step<C>)
    requires Enabled(p, a) && Enabled(Apply(p, a), b)
    ensures IsRun(p, [a, b]) && After(p, [a, b]) == Apply(Apply(p, a), b)
    ensures Peak(p, [a, b]) == Max(Busy(p), Max(Busy(Apply(p, a)), Busy(Apply(Apply(p, a), b))))
  {
    assert [a, b][1..] == [b];
    RunOfOne(Apply(p, a), b);
  }

  lemma RunOfOne<C>(p: Pool<C>, a: Step<C>)
    requires Enabled(p, a)
    ensures IsRun(p, [a]) && After(p, [a]) == Apply(p, a) && Peak(p, [a]) == Max(Busy(p), Busy(Apply(p, a)))
  {
    assert [a][1..] == [];
  }

  // ----- Phase two: the clients return 1 to k -----

  function Returning(k: nat): seq<Step<nat>> {
    if k == 0 then [] else Returning(k - 1) + [Return(k)]
  }

  function Returned(cap: nat, k: nat): Pool<nat> {
    Checked(cap).(idle := seq(k, i => i + 1), held := Between(k + 1, cap))
  }

  lemma {:induction false} ReturningReaches(cap: nat, k: nat)
    requires k <= cap
    ensures IsRun(Returned(cap, 0), Returning(k)) && After(Returned(cap, 0), Returning(k)) == Returned(cap, k)
    ensures Peak(Returned(cap, 0), Returning(k)) <= cap
  {
    hide Returned, IsRun, After, Peak;
    if k == 0 {
      NobodyReturned(cap);
      RunOfNone(Returned(cap, 0));
    } else {
      ReturningReaches(cap, k - 1);
      ReturnOne(cap, k);
      RunsCompose(Returned(cap, 0), Returning(k - 1), [Return(k)]);
    }
  }

  lemma NobodyReturned(cap: nat)
    ensures Busy(Returned(cap, 0)) == cap
  {
    BetweenSize(1, cap);
  }

  lemma ReturnOne(cap: nat, k: nat)
    requires 0 < k <= cap
    ensures IsRun(Returned(cap, k - 1), [Return(k)])
    ensures After(Returned(cap, k - 1), [Return(k)]) == Returned(cap, k)
    ensures Peak(Returned(cap, k - 1), [Return(k)]) <= cap
  {
    var p := Returned(cap, k - 1);
    BetweenSize(k, cap);
    BetweenSize(k + 1, cap);
    assert Between(k, cap) - {k} == Between(k + 1, cap);
    assert seq(k - 1, i => i + 1) + [k] == seq(k, i => i + 1);
    assert Returned(cap, k).idle[k - 1] == k;
    RunOfOne(p, Return(k));
  }

  // ----- The whole run -----

  /** For every capacity there is a run from the default pool of one initial connection in which the
      clients hold at most cap connections at once and at whose end the checker's Put of a usable
      connection cannot finish, however far it is followed. */
  lemma ClientBoundIsTight(cap: nat) returns (steps: seq<Step<nat>>)
    requires cap > 0
    ensures IsRun(NewPool(cap, [0]), steps) && Peak(NewPool(cap, [0]), steps) <= cap
    ensures var p := After(NewPool(cap, [0]), steps);
            && p.open && p.checking == Some(0) && 0 !in p.unusable
            && forall fuel :: PutCall(p, 0, false, fuel) == Unfinished
  {
    var p := NewPool(cap, [0]);
    RunOfOne(p, CheckerTake);
    assert Apply(p, CheckerTake) == Checked(cap);
    DiallingReaches(cap, cap);
    RunsCompose(p, [CheckerTake], Dialling(cap));
    assert AllDialled(cap, cap) == Returned(cap, 0);
    ReturningReaches(cap, cap);
    RunsCompose(p, [CheckerTake] + Dialling(cap), Returning(cap));
    steps := [CheckerTake] + Dialling(cap) + Returning(cap);
    PutReturnsIff(Returned(cap, cap), 0);
    forall fuel: nat
      ensures PutCall(Returned(cap, cap), 0, false, fuel) == Unfinished
    {
      FullQueueNeverFinishes(Returned(cap, cap), 0, false, fuel);
    }
  }

  // ----- A stuck holder -----

  /** The smallest run to a return that never finishes: a client gets the one connection, and the pool
      is closed. */
  lemma StuckHolderInput()
    ensures var p, steps := NewPool(1, [0]), [Get, ClosePool];
            && IsRun(p, steps)
            && var q := After(p, steps);
               Owned(q) && !q.open && q.held == {0} && q.unusable == {} && CloseCall(q, 0, 2) == SelfDeadlock
  {
    var p := NewPool(1, [0]);
    RunOfTwo(p, Get, ClosePool);
    assert [0][1..] == [];
    RunKeepsOwned(p, [Get, ClosePool]);
    ReturnAfterCloseIsStuck(After(p, [Get, ClosePool]), 0, []);
  }
}
