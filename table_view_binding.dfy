/**
 * The iOS `UITableView` binding. Unlike the collection view binding it does no
 * reconciliation: a refresh unbinds every old container and replaces the list
 * with new containers, one per item, each with a manager of its own from the
 * start. The table view asks for rows itself; every `GetCell` unbinds the
 * row's manager and then runs the user's `bind` delegate on it again.
 *
 * Here the delegate's effect on the manager is part of the model: what it does
 * is a sequence of `Bind` overload calls (`BindRequest`), so that the order
 * "unbind, then bind" shows in the manager's own call log.
 */
module TableViewBinding {
  import opened Wrappers
  import opened Sequences
  import opened Subscriptions
  import opened BindingManagers

  /** One call the user's `bind` delegate makes on the row's manager, naming
      the subscriptions the runtime hands to the overload. */
  datatype BindRequest =
    | BindOutput(output: SubId)
    | BindInput(input: SubId)
    | BindOutputInput(output: SubId, input: SubId)

  /** The pair the overload appends to the manager's list. */
  function Stored(r: BindRequest): (p: SubscriptionPair)
    ensures p.output.Some? <==> !r.BindInput?
    ensures p.input.Some? <==> !r.BindOutput?
  {
    match r
    case BindOutput(o) => SubscriptionPair(Some(o), None)
    case BindInput(i) => SubscriptionPair(None, Some(i))
    case BindOutputInput(o, i) => SubscriptionPair(Some(o), Some(i))
  }

  /** The calls the overload makes: the input is subscribed before the output
      subscription is created. */
  function Subscribes(r: BindRequest): seq<Call>
  {
    match r
    case BindOutput(o) => [Subscribe(Output(o))]
    case BindInput(i) => [Subscribe(Input(i))]
    case BindOutputInput(o, i) => [Subscribe(Input(i)), Subscribe(Output(o))]
  }

  /** The pairs a sequence of requests appends, in order. */
  function StoredAll(rs: seq<BindRequest>): (ps: seq<SubscriptionPair>)
    ensures |ps| == |rs| && forall k :: 0 <= k < |rs| ==> ps[k] == Stored(rs[k])
  {
    seq(|rs|, k requires 0 <= k < |rs| => Stored(rs[k]))
  }

  /** The calls a sequence of requests makes, in order. */
  function SubscribeCalls(rs: seq<BindRequest>): seq<Call>
  {
    if rs == [] then [] else SubscribeCalls(rs[..|rs| - 1]) + Subscribes(rs[|rs| - 1])
  }

  /** A request subscribes exactly what it stores. */
  lemma SubscribesStored(r: BindRequest, s: Sub)
    ensures Subscribe(s) in Subscribes(r) <==> Holds(Stored(r), s)
    ensures Unsubscribe(s) !in Subscribes(r)
  {
  }

  /** The delegate subscribes `s` if and only if it stores a pair holding `s`:
      together with `UnbindCallsCover`, every subscription made is one a later
      `Unbind` reaches. */
  lemma {:induction false} SubscribeCallsCover(rs: seq<BindRequest>, s: Sub)
    ensures Subscribe(s) in SubscribeCalls(rs) <==> exists i :: 0 <= i < |rs| && Holds(StoredAll(rs)[i], s)
  {
    if rs != [] {
      var init := rs[..|rs| - 1];
      var last := rs[|rs| - 1];
      SubscribeCallsCover(init, s);
      SubscribesStored(last, s);
      assert SubscribeCalls(rs) == SubscribeCalls(init) + Subscribes(last);
      assert StoredAll(rs)[|init|] == Stored(last);
      if exists i :: 0 <= i < |rs| && Holds(StoredAll(rs)[i], s) {
        var i :| 0 <= i < |rs| && Holds(StoredAll(rs)[i], s);
        if i < |init| {
          assert StoredAll(init)[i] == StoredAll(rs)[i];
        }
      }
      if exists i :: 0 <= i < |init| && Holds(StoredAll(init)[i], s) {
        var i :| 0 <= i < |init| && Holds(StoredAll(init)[i], s);
        assert StoredAll(rs)[i] == StoredAll(init)[i];
      }
    }
  }

  /** `Unbind` keeps the list, so the `Unbind` of the next `GetCell` of a row
      unsubscribes again everything the earlier ones bound, and every
      subscription the latest `bind` made. */
  lemma RebindUnsubscribes(before: seq<SubscriptionPair>, rs: seq<BindRequest>, s: Sub)
    requires Subscribe(s) in SubscribeCalls(rs)
    ensures Unsubscribe(s) in UnbindCalls(before + StoredAll(rs))
  {
    SubscribeCallsCover(rs, s);
    var i :| 0 <= i < |rs| && Holds(StoredAll(rs)[i], s);
    assert (before + StoredAll(rs))[|before| + i] == StoredAll(rs)[i];
    UnbindCallsCover(before + StoredAll(rs), s);
  }

  /** One more request appends its pair and its calls last. */
  lemma RequestsSnoc(rs: seq<BindRequest>, i: nat)
    requires i < |rs|
    ensures StoredAll(rs[..i + 1]) == StoredAll(rs[..i]) + [Stored(rs[i])]
    ensures SubscribeCalls(rs[..i + 1]) == SubscribeCalls(rs[..i]) + Subscribes(rs[i])
  {
    assert rs[..i + 1][..i] == rs[..i];
  }

  /** One request: the overload it names, called on `m`. */
  method Apply(m: BindingManager, r: BindRequest)
    modifies m
    ensures m.subscriptions == old(m.subscriptions) + [Stored(r)]
    ensures m.calls == old(m.calls) + Subscribes(r)
  {
    match r
    case BindOutput(o) => m.Bind(o);
    case BindInput(i) => m.BindInput(i);
    case BindOutputInput(o, i) => m.BindBoth(o, i);
  }

  /** The user's `bind` delegate making the calls `rs` on the manager `m`. */
  method RunBind(m: BindingManager, rs: seq<BindRequest>)
    modifies m
    ensures m.subscriptions == old(m.subscriptions) + StoredAll(rs)
    ensures m.calls == old(m.calls) + SubscribeCalls(rs)
  {
    for i := 0 to |rs|
      invariant m.subscriptions == old(m.subscriptions) + StoredAll(rs[..i])
      invariant m.calls == old(m.calls) + SubscribeCalls(rs[..i])
    {
      RequestsSnoc(rs, i);
      Apply(m, rs[i]);
    }
    assert rs[..|rs|] == rs;
  }

  /** Unbinds the managers `ms`, one after the other. */
  method UnbindEach(ms: seq<BindingManager>)
    requires Distinct(ms)
    modifies ms
    ensures forall k :: 0 <= k < |ms| ==>
      ms[k].subscriptions == old(ms[k].subscriptions)
      && ms[k].calls == old(ms[k].calls) + UnbindCalls(ms[k].subscriptions)
  {
    for i := 0 to |ms|
      invariant forall k :: 0 <= k < |ms| ==> ms[k].subscriptions == old(ms[k].subscriptions)
      invariant forall k :: 0 <= k < |ms| ==>
        ms[k].calls == old(ms[k].calls) + if k < i then UnbindCalls(ms[k].subscriptions) else []
    {
      ms[i].Unbind();
    }
  }

  /** A `UITableViewCell` of style `Default`. */
  class Cell {
    const reuseIdentifier: string

    constructor (reuseIdentifier: string)
      ensures this.reuseIdentifier == reuseIdentifier
    {
      this.reuseIdentifier := reuseIdentifier;
    }
  }

  /** The reuse identifier every cell of the binding is created and dequeued with. */
  const TableCell: string := "TableCell"

  /** One invocation of the user's `bind(cell, item, bindings)` delegate. */
  datatype RowBind<T> = RowBind(cell: Cell, item: T, bindings: BindingManager)

  /** `ItemContainer<T>`: an item and the manager it owns from construction. */
  class ItemContainer<T> {
    const item: T
    const bindings: BindingManager

    constructor (item: T)
      ensures this.item == item
      ensures fresh(bindings) && bindings.subscriptions == [] && bindings.calls == []
    {
      this.item := item;
      bindings := new BindingManager();
    }
  }

  /** The items of a list of containers. */
  function ItemsOf<T>(cs: seq<ItemContainer<T>>): (r: seq<T>)
    ensures |r| == |cs| && forall k :: 0 <= k < |cs| ==> r[k] == cs[k].item
  {
    seq(|cs|, k requires 0 <= k < |cs| => cs[k].item)
  }

  /** The managers of a list of containers, position by position. */
  function BindingsOf<T>(cs: seq<ItemContainer<T>>): (r: seq<BindingManager>)
    ensures |r| == |cs| && forall k :: 0 <= k < |cs| ==> r[k] == cs[k].bindings
  {
    seq(|cs|, k requires 0 <= k < |cs| => cs[k].bindings)
  }

  /** `items.Select(item => new ItemContainer<T>(item))`, enumerated by `AddRange`:
      one new container per item, in order, each with a new empty manager. */
  method NewContainers<T>(items: seq<T>) returns (cs: seq<ItemContainer<T>>)
    ensures ItemsOf(cs) == items && Distinct(BindingsOf(cs))
    ensures forall k :: 0 <= k < |cs| ==>
      && fresh(cs[k]) && fresh(cs[k].bindings)
      && cs[k].bindings.subscriptions == [] && cs[k].bindings.calls == []
  {
    cs := [];
    for i := 0 to |items|
      invariant |cs| == i && ItemsOf(cs) == items[..i] && Distinct(BindingsOf(cs))
      invariant forall k :: 0 <= k < i ==>
        && fresh(cs[k]) && fresh(cs[k].bindings)
        && cs[k].bindings.subscriptions == [] && cs[k].bindings.calls == []
    {
      var c := new ItemContainer(items[i]);
      assert forall k :: 0 <= k < i ==> cs[k].bindings != c.bindings;
      cs := cs + [c];
      assert BindingsOf(cs) == BindingsOf(cs[..i]) + [c.bindings];
    }
    assert items[..|items|] == items;
  }

  /** `CollectionBinding<T>`, the table view's source. */
  class CollectionBinding<T> {
    /** `_itemContainers`: one container per item of the last refresh, in order. */
    var containers: seq<ItemContainer<T>>
    /** How many times `ReloadData` has been called on the table view. */
    ghost var reloads: nat
    /** The calls made to the user's `bind` delegate so far. */
    ghost var binds: seq<RowBind<T>>

    /** No two containers share a manager (each made its own). */
    ghost predicate Valid()
      reads this
    {
      Distinct(BindingsOf(containers))
    }

    constructor ()
      ensures Valid() && containers == [] && reloads == 0 && binds == []
    {
      containers := [];
      reloads := 0;
      binds := [];
    }

    /** `UpdateItems(items)`: unbinds every old container, then holds new
        containers for exactly `items`, nothing reused, and reloads the table. */
    method UpdateItems(items: seq<T>)
      requires Valid()
      modifies this, set k | 0 <= k < |containers| :: containers[k].bindings
      ensures Valid() && ItemsOf(containers) == items
      ensures forall k :: 0 <= k < |containers| ==>
        && fresh(containers[k]) && fresh(containers[k].bindings)
        && containers[k].bindings.subscriptions == [] && containers[k].bindings.calls == []
      ensures forall k :: 0 <= k < |old(containers)| ==>
        var b := old(containers)[k].bindings;
        b.subscriptions == old(b.subscriptions) && b.calls == old(b.calls) + UnbindCalls(b.subscriptions)
      ensures reloads == old(reloads) + 1 && binds == old(binds)
    {
      Unsubscribe();
      var cs := NewContainers(items);
      containers := cs;
      reloads := reloads + 1;
    }

    /** `RowsInSection`: one row per container, for any section. */
    method RowsInSection(section: int) returns (n: int)
      ensures n == |containers|
    {
      n := |containers|;
    }

    /** `GetCell(row)`: unbinds the row's manager, takes the cell the table view
        dequeues (`dequeued`) or else a new one, and then calls `bind` with the
        cell, the item and the manager; `rs` is what `bind` does with the manager.
        A row past the end throws, which the table view never asks for. */
    method GetCell(row: nat, dequeued: Cell?, rs: seq<BindRequest>) returns (cell: Cell)
      requires Valid() && row < |containers|
      modifies containers[row].bindings, this`binds
      ensures Valid()
      ensures dequeued != null ==> cell == dequeued
      ensures dequeued == null ==> fresh(cell) && cell.reuseIdentifier == TableCell
      ensures var b := containers[row].bindings;
        && b.subscriptions == old(b.subscriptions) + StoredAll(rs)
        && b.calls == old(b.calls) + UnbindCalls(old(b.subscriptions)) + SubscribeCalls(rs)
      ensures binds == old(binds) + [RowBind(cell, containers[row].item, containers[row].bindings)]
    {
      var c := containers[row];
      c.bindings.Unbind();
      if dequeued == null {
        cell := new Cell(TableCell);
      } else {
        cell := dequeued;
      }
      binds := binds + [RowBind(cell, c.item, c.bindings)];
      RunBind(c.bindings, rs);
    }

    /** `CellDisplayingEnded(row)`: unbinds the row's manager. */
    method CellDisplayingEnded(row: nat)
      requires row < |containers|
      modifies containers[row].bindings
      ensures var b := containers[row].bindings;
        b.subscriptions == old(b.subscriptions) && b.calls == old(b.calls) + UnbindCalls(b.subscriptions)
    {
      containers[row].bindings.Unbind();
    }

    /** `Subscribe`: does nothing. */
    method Subscribe()
    {
    }

    /** `Unsubscribe`: unbinds the manager of every container, in list order. */
    method Unsubscribe()
      requires Valid()
      modifies set k | 0 <= k < |containers| :: containers[k].bindings
      ensures forall k :: 0 <= k < |containers| ==>
        var b := containers[k].bindings;
        b.subscriptions == old(b.subscriptions) && b.calls == old(b.calls) + UnbindCalls(b.subscriptions)
    {
      UnbindEach(BindingsOf(containers));
    }
  }
}
