/**
 * `BindingManager`: the per-element owner of output and input subscriptions.
 * Each `Bind` overload appends one (optional output, optional input) pair;
 * `Unbind` walks the list and unsubscribes everything it holds, without
 * clearing the list.
 */
module BindingManagers {
  import opened Wrappers
  import opened Subscriptions

  /** One entry of the manager's list; `None` is a null field of the C# struct. */
  datatype SubscriptionPair = SubscriptionPair(output: Option<SubId>, input: Option<SubId>)

  /** True when `p` holds the subscription `s`. */
  predicate Holds(p: SubscriptionPair, s: Sub)
  {
    match s
    case Output(id) => p.output == Some(id)
    case Input(id) => p.input == Some(id)
  }

  /** The calls one iteration of the `Unbind` loop makes for `p`: output first, then input. */
  function PairUnsubscribes(p: SubscriptionPair): seq<Call>
  {
    (if p.output.Some? then [Unsubscribe(Output(p.output.value))] else [])
    + (if p.input.Some? then [Unsubscribe(Input(p.input.value))] else [])
  }

  /** The calls a whole `Unbind` makes over the list `ps`, in list order. */
  function UnbindCalls(ps: seq<SubscriptionPair>): seq<Call>
  {
    if ps == [] then [] else UnbindCalls(ps[..|ps| - 1]) + PairUnsubscribes(ps[|ps| - 1])
  }

  /** The number of entries of `ps` that hold `s`. */
  function HoldCount(ps: seq<SubscriptionPair>, s: Sub): nat
  {
    if ps == [] then 0
    else HoldCount(ps[..|ps| - 1], s) + (if Holds(ps[|ps| - 1], s) then 1 else 0)
  }

  /** Within one pair, the output is unsubscribed before the input. */
  lemma PairOrder(o: SubId, i: SubId)
    ensures PairUnsubscribes(SubscriptionPair(Some(o), Some(i)))
         == [Unsubscribe(Output(o)), Unsubscribe(Input(i))]
    ensures PairUnsubscribes(SubscriptionPair(None, None)) == []
  {
  }

  /** Unbinding a list is unbinding its prefix and then its suffix: calls follow list order. */
  lemma {:induction false} UnbindCallsAppend(a: seq<SubscriptionPair>, b: seq<SubscriptionPair>)
    ensures UnbindCalls(a + b) == UnbindCalls(a) + UnbindCalls(b)
    decreases |b|
  {
    if b == [] {
      assert a + b == a;
    } else {
      var b' := b[..|b| - 1];
      var last := b[|b| - 1];
      assert a + b == (a + b') + [last];
      UnbindCallsSnoc(a + b', last);
      UnbindCallsSnoc(b', last);
      assert b == b' + [last];
      UnbindCallsAppend(a, b');
    }
  }

  /** Unbinding one more pair at the end makes that pair's calls last. */
  lemma UnbindCallsSnoc(ps: seq<SubscriptionPair>, p: SubscriptionPair)
    ensures UnbindCalls(ps + [p]) == UnbindCalls(ps) + PairUnsubscribes(p)
  {
    assert (ps + [p])[..|ps|] == ps;
  }

  /** `Unbind` makes only `Unsubscribe` calls. */
  lemma {:induction false} UnbindCallsOnlyUnsubscribe(ps: seq<SubscriptionPair>)
    ensures forall c :: c in UnbindCalls(ps) ==> c.Unsubscribe?
  {
    if ps != [] {
      UnbindCallsOnlyUnsubscribe(ps[..|ps| - 1]);
    }
  }

  /** `Unbind` unsubscribes `s` exactly as many times as there are entries
      holding it: exactly once when subscriptions are not shared. */
  lemma {:induction false} UnbindCallsCount(ps: seq<SubscriptionPair>, s: Sub)
    ensures multiset(UnbindCalls(ps))[Unsubscribe(s)] == HoldCount(ps, s)
  {
    if ps != [] {
      var init := ps[..|ps| - 1];
      var p := ps[|ps| - 1];
      UnbindCallsCount(init, s);
      assert multiset(UnbindCalls(ps)) == multiset(UnbindCalls(init)) + multiset(PairUnsubscribes(p));
      assert multiset(PairUnsubscribes(p))[Unsubscribe(s)] == if Holds(p, s) then 1 else 0;
    }
  }

  /** `Unbind` unsubscribes `s` if and only if some entry holds it. */
  lemma {:induction false} UnbindCallsCover(ps: seq<SubscriptionPair>, s: Sub)
    ensures Unsubscribe(s) in UnbindCalls(ps) <==> exists i :: 0 <= i < |ps| && Holds(ps[i], s)
  {
    if ps != [] {
      var init := ps[..|ps| - 1];
      UnbindCallsCover(init, s);
      assert UnbindCalls(ps) == UnbindCalls(init) + PairUnsubscribes(ps[|ps| - 1]);
      if exists i :: 0 <= i < |ps| && Holds(ps[i], s) {
        var i :| 0 <= i < |ps| && Holds(ps[i], s);
        if i < |ps| - 1 {
          assert init[i] == ps[i];
        }
      }
      if exists i :: 0 <= i < |init| && Holds(init[i], s) {
        var i :| 0 <= i < |init| && Holds(init[i], s);
        assert ps[i] == init[i];
      }
    }
  }

  class BindingManager {
    /** `_subscriptions`: the pairs appended so far, oldest first. */
    var subscriptions: seq<SubscriptionPair>
    /** The calls this manager has made on subscription objects, oldest first. */
    ghost var calls: seq<Call>

    /** A new manager holds nothing and has called nothing. */
    constructor ()
      ensures subscriptions == [] && calls == []
    {
      subscriptions := [];
      calls := [];
    }

    /** `Bind(function, action)`: `output` is the subscription the runtime returns
        from `new Computed<T>(function).Subscribe(action)`; only an output is stored. */
    method Bind(output: SubId)
      modifies this
      ensures subscriptions == old(subscriptions) + [SubscriptionPair(Some(output), None)]
      ensures calls == old(calls) + [Subscribe(Output(output))]
    {
      calls := calls + [Subscribe(Output(output))];
      subscriptions := subscriptions + [SubscriptionPair(Some(output), None)];
    }

    /** `Bind(input)`: subscribes `input` once, then stores it with no output. */
    method BindInput(input: SubId)
      modifies this
      ensures subscriptions == old(subscriptions) + [SubscriptionPair(None, Some(input))]
      ensures calls == old(calls) + [Subscribe(Input(input))]
    {
      calls := calls + [Subscribe(Input(input))];
      subscriptions := subscriptions + [SubscriptionPair(None, Some(input))];
    }

    /** `Bind(function, action, input)`: subscribes `input` first, then creates the
        output subscription, then stores both in one pair. */
    method BindBoth(output: SubId, input: SubId)
      modifies this
      ensures subscriptions == old(subscriptions) + [SubscriptionPair(Some(output), Some(input))]
      ensures calls == old(calls) + [Subscribe(Input(input)), Subscribe(Output(output))]
    {
      calls := calls + [Subscribe(Input(input))];
      calls := calls + [Subscribe(Output(output))];
      subscriptions := subscriptions + [SubscriptionPair(Some(output), Some(input))];
    }

    /** `Unbind`: unsubscribes every held subscription in list order and keeps the
        list, so a later `Unbind` makes the same calls again. */
    method Unbind()
      modifies this`calls
      ensures subscriptions == old(subscriptions)
      ensures calls == old(calls) + UnbindCalls(subscriptions)
    {
      var k := 0;
      while k < |subscriptions|
        invariant 0 <= k <= |subscriptions|
        invariant calls == old(calls) + UnbindCalls(subscriptions[..k])
      {
        var p := subscriptions[k];
        assert subscriptions[..k + 1][..k] == subscriptions[..k];
        if p.output.Some? {
          calls := calls + [Unsubscribe(Output(p.output.value))];
        }
        if p.input.Some? {
          calls := calls + [Unsubscribe(Input(p.input.value))];
        }
        k := k + 1;
      }
      assert subscriptions[..k] == subscriptions;
    }
  }
}
