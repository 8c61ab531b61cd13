/**
 * The runtime objects the binding layer hands around but does not implement:
 * a `ComputedSubscription` (the live link between a `Computed<T>` and its
 * delivery action) and an `IInputSubscription` (a view-to-model event hook).
 * Both are opaque here; the model only records which of their
 * `Subscribe`/`Unsubscribe` operations are called, and in what order.
 */
module Subscriptions {
  /** Identity of one subscription object. */
  type SubId = nat

  /** An output (`ComputedSubscription`) or an input (`IInputSubscription`) subscription. */
  datatype Sub = Output(id: SubId) | Input(id: SubId)

  /** One call made on a subscription object. For an output subscription,
      `Subscribe` is the `new Computed<T>(function).Subscribe(action)` that creates it. */
  datatype Call = Subscribe(target: Sub) | Unsubscribe(target: Sub)
}
