/** Interceptor chains (interceptor/Interceptor.go). The client and the server chain are built by the
    same recursion over the same shape of function, so one definition stands for both: A is all the
    arguments of a call and B its outcome. */
module Interceptors {

  type Interceptor<!A, !B> = (A, A -> B) -> B

  /** `getHandler` and `getInvoker`: what the interceptor at `cur` gets to call. */
  function Continuation<A, B>(cur: nat, ceps: seq<Interceptor<A, B>>, handler: A -> B): A -> B
    requires cur < |ceps|
    decreases |ceps| - cur
  {
    if cur == |ceps| - 1 then handler
    else (a: A) => ceps[cur + 1](a, Continuation(cur + 1, ceps, handler))
  }

  /** `ServerIntercept` and `ClientIntercept`. */
  function Intercept<A, B>(ceps: seq<Interceptor<A, B>>, handler: A -> B, a: A): B {
    if |ceps| == 0 then handler(a) else ceps[0](a, Continuation(0, ceps, handler))
  }

  /** The reference meaning of a chain: each interceptor wrapped around the rest of the list. */
  function Fold<A, B>(ceps: seq<Interceptor<A, B>>, handler: A -> B): A -> B
    decreases |ceps|
  {
    if ceps == [] then handler else (a: A) => ceps[0](a, Fold(ceps[1..], handler))
  }

  ghost predicate SameFunction<A(!new), B>(f: A -> B, g: A -> B) {
    forall a :: f(a) == g(a)
  }

  /** An interceptor can only call its continuation, not inspect it. */
  ghost predicate OnlyCalls<A(!new), B(!new)>(c: Interceptor<A, B>) {
    forall a: A, f: A -> B, g: A -> B :: SameFunction(f, g) ==> c(a, f) == c(a, g)
  }

  lemma {:induction false} ContinuationIsFold<A(!new), B(!new)>(cur: nat, ceps: seq<Interceptor<A, B>>, handler: A -> B)
    requires cur < |ceps| && forall c | c in ceps :: OnlyCalls(c)
    ensures SameFunction(Continuation(cur, ceps, handler), Fold(ceps[cur + 1..], handler))
    decreases |ceps| - cur
  {
    if cur == |ceps| - 1 {
    } else {
      ContinuationIsFold(cur + 1, ceps, handler);
      var next := ceps[cur + 1];
      assert next in ceps && ceps[cur + 1..][0] == next && ceps[cur + 1..][1..] == ceps[cur + 2..];
    }
  }

  /** The chain built by index recursion is the right fold of the interceptors over the handler. */
  lemma ChainIsFold<A(!new), B(!new)>(ceps: seq<Interceptor<A, B>>, handler: A -> B, a: A)
    requires forall c | c in ceps :: OnlyCalls(c)
    ensures Intercept(ceps, handler, a) == Fold(ceps, handler)(a)
  {
    if ceps != [] {
      ContinuationIsFold(0, ceps, handler);
      assert ceps[0] in ceps;
    }
  }

  lemma {:induction false} FoldOfSame<A(!new), B(!new)>(ceps: seq<Interceptor<A, B>>, f: A -> B, g: A -> B)
    requires SameFunction(f, g) && forall c | c in ceps :: OnlyCalls(c)
    ensures SameFunction(Fold(ceps, f), Fold(ceps, g))
    decreases |ceps|
  {
    if ceps == [] {
    } else {
      FoldOfSame(ceps[1..], f, g);
      assert ceps[0] in ceps;
    }
  }

  lemma {:induction false} FoldOfConcat<A(!new), B(!new)>(
      a: seq<Interceptor<A, B>>, b: seq<Interceptor<A, B>>, handler: A -> B)
    requires forall c | c in a :: OnlyCalls(c)
    ensures SameFunction(Fold(a + b, handler), Fold(a, Fold(b, handler)))
    decreases |a|
  {
    if a == [] {
      assert a + b == b;
    } else {
      FoldOfConcat(a[1..], b, handler);
      assert (a + b)[1..] == a[1..] + b;
      assert a[0] in a;
    }
  }

  /** Chaining a ++ b is chaining a around the chain of b. */
  lemma ChainOfConcat<A(!new), B(!new)>(a: seq<Interceptor<A, B>>, b: seq<Interceptor<A, B>>, handler: A -> B, x: A)
    requires forall c | c in a + b :: OnlyCalls(c)
    ensures Intercept(a + b, handler, x) == Intercept(a, y => Intercept(b, handler, y), x)
  {
    var inner := (y: A) => Intercept(b, handler, y);
    assert forall c | c in a :: c in a + b;
    assert forall c | c in b :: c in a + b;
    forall y
      ensures Fold(b, handler)(y) == inner(y)
    {
      ChainIsFold(b, handler, y);
    }
    ChainIsFold(a + b, handler, x);
    ChainIsFold(a, inner, x);
    FoldOfConcat(a, b, handler);
    FoldOfSame(a, Fold(b, handler), inner);
  }

  // ----- Chains over handlers that agree on the calls made -----

  ghost predicate AgreeWithin<A(!new), B>(p: A -> bool, f: A -> B, g: A -> B) {
    forall a | p(a) :: f(a) == g(a)
  }

  /** An interceptor that, called with arguments in p, calls its continuation only with such. */
  ghost predicate StaysWithin<A(!new), B(!new)>(p: A -> bool, c: Interceptor<A, B>) {
    forall a: A, f: A -> B, g: A -> B :: p(a) && AgreeWithin(p, f, g) ==> c(a, f) == c(a, g)
  }

  lemma {:induction false} ContinuationsAgree<A(!new), B(!new)>(
      p: A -> bool, cur: nat, ceps: seq<Interceptor<A, B>>, f: A -> B, g: A -> B)
    requires cur < |ceps| && AgreeWithin(p, f, g)
    requires forall c | c in ceps :: StaysWithin(p, c)
    ensures AgreeWithin(p, Continuation(cur, ceps, f), Continuation(cur, ceps, g))
    decreases |ceps| - cur
  {
    if cur == |ceps| - 1 {
    } else {
      ContinuationsAgree(p, cur + 1, ceps, f, g);
      assert ceps[cur + 1] in ceps;
    }
  }

  /** Two handlers that agree on the calls a chain can make are interchangeable under it. */
  lemma ChainsAgree<A(!new), B(!new)>(p: A -> bool, ceps: seq<Interceptor<A, B>>, f: A -> B, g: A -> B, a: A)
    requires p(a) && AgreeWithin(p, f, g)
    requires forall c | c in ceps :: StaysWithin(p, c)
    ensures Intercept(ceps, f, a) == Intercept(ceps, g, a)
  {
    if ceps != [] {
      ContinuationsAgree(p, 0, ceps, f, g);
      assert ceps[0] in ceps;
    }
  }

  // ----- Chains that only change the call -----

  /** An interceptor that passes its call on, changed or not, and the outcome back as it is. */
  function Passing<A, B>(change: A -> A): Interceptor<A, B> {
    (a: A, next: A -> B) => next(change(a))
  }

  function PassingAll<A, B>(changes: seq<A -> A>): seq<Interceptor<A, B>> {
    if changes == [] then [] else [Passing(changes[0])] + PassingAll(changes[1..])
  }

  function Through<A>(changes: seq<A -> A>, a: A): A {
    if changes == [] then a else Through(changes[1..], changes[0](a))
  }

  lemma {:induction false} PassingOnlyCalls<A(!new), B(!new)>(changes: seq<A -> A>)
    ensures forall c | c in PassingAll<A, B>(changes) :: OnlyCalls(c)
    decreases |changes|
  {
    if changes == [] {
    } else {
      PassingOnlyCalls<A, B>(changes[1..]);
      assert OnlyCalls(Passing<A, B>(changes[0]));
    }
  }

  lemma {:induction false} FoldOfPassing<A(!new), B(!new)>(changes: seq<A -> A>, handler: A -> B, a: A)
    ensures Fold(PassingAll(changes), handler)(a) == handler(Through(changes, a))
    decreases |changes|
  {
    if changes == [] {
    } else {
      FoldOfPassing(changes[1..], handler, changes[0](a));
      assert PassingAll<A, B>(changes)[1..] == PassingAll(changes[1..]);
    }
  }

  /** A chain of these runs the handler once, on what all the changes make of the call. */
  lemma PassingChain<A(!new), B(!new)>(changes: seq<A -> A>, handler: A -> B, a: A)
    ensures Intercept(PassingAll(changes), handler, a) == handler(Through(changes, a))
  {
    PassingOnlyCalls<A, B>(changes);
    ChainIsFold(PassingAll(changes), handler, a);
    FoldOfPassing(changes, handler, a);
  }

  // ----- Order of execution -----

  datatype Event = Enter(i: nat) | Handle | Leave(i: nat)

  /** An interceptor that calls its continuation exactly once: what it makes of its arguments before,
      and of these and the outcome after. */
  datatype Layer<!A, !B> = Layer(before: A -> A, after: (A, B) -> B)

  type Trace = seq<Event>

  /** A value and what ran so far. */
  datatype Traced<+T> = Traced(value: T, trace: Trace)

  /** A layer as an interceptor that also logs when it runs. */
  function Logged<A, B>(layer: Layer<A, B>, i: nat): Interceptor<Traced<A>, Traced<B>> {
    (call: Traced<A>, next: Traced<A> -> Traced<B>) =>
      var out := next(Traced(layer.before(call.value), call.trace + [Enter(i)]));
      Traced(layer.after(call.value, out.value), out.trace + [Leave(i)])
  }

  /** The layers numbered from i on. */
  function LoggedFrom<A, B>(layers: seq<Layer<A, B>>, i: nat): (ceps: seq<Interceptor<Traced<A>, Traced<B>>>)
    ensures |ceps| == |layers|
  {
    if layers == [] then [] else [Logged(layers[0], i)] + LoggedFrom(layers[1..], i + 1)
  }

  function LoggedHandler<A, B>(handler: A -> B): Traced<A> -> Traced<B> {
    (call: Traced<A>) => Traced(handler(call.value), call.trace + [Handle])
  }

  /** The layers' value without any chain: all the befores, the handler, all the afters. */
  function Onion<A, B>(layers: seq<Layer<A, B>>, handler: A -> B, a: A): B {
    if layers == [] then handler(a) else layers[0].after(a, Onion(layers[1..], handler, layers[0].before(a)))
  }

  /** Enter i, ..., Enter i+n-1, Handle, Leave i+n-1, ..., Leave i. */
  function InOrder(i: nat, n: nat): Trace
    decreases n
  {
    if n == 0 then [Handle] else [Enter(i)] + InOrder(i + 1, n - 1) + [Leave(i)]
  }

  lemma LoggedOnlyCalls<A(!new), B(!new)>(layer: Layer<A, B>, i: nat)
    ensures OnlyCalls(Logged(layer, i))
  {
    var c := Logged(layer, i);
    forall call: Traced<A>, f: Traced<A> -> Traced<B>, g: Traced<A> -> Traced<B> | SameFunction(f, g)
      ensures c(call, f) == c(call, g)
    {
      var inner := Traced(layer.before(call.value), call.trace + [Enter(i)]);
      assert f(inner) == g(inner);
    }
  }

  lemma {:induction false} AllLoggedOnlyCall<A(!new), B(!new)>(layers: seq<Layer<A, B>>, i: nat)
    ensures forall c | c in LoggedFrom(layers, i) :: OnlyCalls(c)
    decreases |layers|
  {
    if layers == [] {
    } else {
      LoggedOnlyCalls(layers[0], i);
      AllLoggedOnlyCall(layers[1..], i + 1);
    }
  }

  /** One layer around the fold of the others. */
  lemma FoldOneLayer<A(!new), B(!new)>(layers: seq<Layer<A, B>>, i: nat, handler: A -> B, call: Traced<A>)
    requires layers != []
    ensures var inner := Traced(layers[0].before(call.value), call.trace + [Enter(i)]);
            var out := Fold(LoggedFrom(layers[1..], i + 1), LoggedHandler(handler))(inner);
            Fold(LoggedFrom(layers, i), LoggedHandler(handler))(call)
            == Traced(layers[0].after(call.value, out.value), out.trace + [Leave(i)])
  {
    var ceps := LoggedFrom(layers, i);
    assert ceps[0] == Logged(layers[0], i) && ceps[1..] == LoggedFrom(layers[1..], i + 1);
  }

  lemma {:induction false} FoldTrace<A(!new), B(!new)>(
      layers: seq<Layer<A, B>>, i: nat, handler: A -> B, a: A, log: Trace)
    ensures Fold(LoggedFrom(layers, i), LoggedHandler(handler))(Traced(a, log))
         == Traced(Onion(layers, handler, a), log + InOrder(i, |layers|))
    decreases |layers|
  {
    if layers == [] {
    } else {
      var a', log' := layers[0].before(a), log + [Enter(i)];
      FoldOneLayer(layers, i, handler, Traced(a, log));
      FoldTrace(layers[1..], i + 1, handler, a', log');
      assert log' + InOrder(i + 1, |layers| - 1) + [Leave(i)] == log + InOrder(i, |layers|);
    }
  }

  /** When every interceptor calls its continuation exactly once, all of them run in list order, then
      the handler once, then their second halves in reverse order. */
  lemma ChainRunsInOrder<A(!new), B(!new)>(layers: seq<Layer<A, B>>, handler: A -> B, a: A)
    ensures Intercept(LoggedFrom(layers, 0), LoggedHandler(handler), Traced(a, []))
         == Traced(Onion(layers, handler, a), InOrder(0, |layers|))
  {
    AllLoggedOnlyCall(layers, 0);
    ChainIsFold(LoggedFrom(layers, 0), LoggedHandler(handler), Traced(a, []));
    FoldTrace(layers, 0, handler, a, []);
    assert [] + InOrder(0, |layers|) == InOrder(0, |layers|);
  }
}
