/**
 * `BindingSubscriptions`: an append-only list of output subscriptions that
 * `Unsubscribe` tears down in insertion order, keeping the list.
 */
module BindingSubscriptionLists {
  import opened Subscriptions

  /** The calls one `Unsubscribe` makes over the list `ss`, in list order. */
  function UnsubscribeCalls(ss: seq<SubId>): seq<Call>
  {
    if ss == [] then [] else UnsubscribeCalls(ss[..|ss| - 1]) + [Unsubscribe(Output(ss[|ss| - 1]))]
  }

  /** The k-th call unsubscribes the k-th held subscription, and there is one call per entry. */
  lemma {:induction false} UnsubscribeCallsAt(ss: seq<SubId>, k: nat)
    requires k < |ss|
    ensures |UnsubscribeCalls(ss)| == |ss|
    ensures UnsubscribeCalls(ss)[k] == Unsubscribe(Output(ss[k]))
  {
    var init := ss[..|ss| - 1];
    if k < |ss| - 1 {
      UnsubscribeCallsAt(init, k);
    } else if init != [] {
      UnsubscribeCallsAt(init, 0);
    }
  }

  /** A subscription held once is unsubscribed exactly once, and one never held is not unsubscribed. */
  lemma {:induction false} UnsubscribeCallsCount(ss: seq<SubId>, id: SubId)
    ensures multiset(UnsubscribeCalls(ss))[Unsubscribe(Output(id))] == multiset(ss)[id]
    ensures multiset(UnsubscribeCalls(ss))[Subscribe(Output(id))] == 0
  {
    if ss != [] {
      var init := ss[..|ss| - 1];
      UnsubscribeCallsCount(init, id);
      assert ss == init + [ss[|ss| - 1]];
      assert multiset(ss) == multiset(init) + multiset{ss[|ss| - 1]};
    }
  }

  class BindingSubscriptions {
    /** `_subscriptions`, oldest first. */
    var subscriptions: seq<SubId>
    /** The calls made on subscription objects, oldest first. */
    ghost var calls: seq<Call>

    /** The list starts empty. */
    constructor ()
      ensures subscriptions == [] && calls == []
    {
      subscriptions := [];
      calls := [];
    }

    /** `Bind(function, action)`: `output` is what `new Computed<T>(function).Subscribe(action)`
        returns; it is appended at the end. */
    method Bind(output: SubId)
      modifies this
      ensures subscriptions == old(subscriptions) + [output]
      ensures calls == old(calls) + [Subscribe(Output(output))]
    {
      calls := calls + [Subscribe(Output(output))];
      subscriptions := subscriptions + [output];
    }

    /** `Unsubscribe`: unsubscribes each held subscription in insertion order; the list stays. */
    method Unsubscribe()
      modifies this`calls
      ensures subscriptions == old(subscriptions)
      ensures calls == old(calls) + UnsubscribeCalls(subscriptions)
    {
      for k := 0 to |subscriptions|
        invariant calls == old(calls) + UnsubscribeCalls(subscriptions[..k])
      {
        assert subscriptions[..k + 1][..k] == subscriptions[..k];
        calls := calls + [Subscriptions.Unsubscribe(Output(subscriptions[k]))];
      }
      assert subscriptions[..|subscriptions|] == subscriptions;
    }
  }
}
