/**
 * The Android `ListView` binding: a `BindingArrayAdapter` keeps one
 * `ItemContainer` per item of the bound collection. On every refresh it
 * reconciles the new items against the old containers by item equality
 * (reusing a container keeps its `BindingManager` and its cached row view),
 * disposes the containers nobody reused, and then puts every container at
 * its index in the `ArrayAdapter`'s own list (`host` below).
 */
module ListViewBinding {
  import opened Wrappers
  import opened Sequences
  import opened RecycleBins
  import opened BindingManagers

  /** An inflated row `View`; inflation itself is not modelled. */
  type ViewId = nat

  /** One invocation of the user's `bind(row, item, bindings)` delegate. */
  datatype RowBind<T> = RowBind(row: ViewId, item: T, bindings: BindingManager?)

  /** The items of a list of containers. */
  function ItemsOf<T>(cs: seq<ItemContainer<T>>): (r: seq<T>)
    ensures |r| == |cs| && forall k :: 0 <= k < |cs| ==> r[k] == cs[k].item
  {
    seq(|cs|, k requires 0 <= k < |cs| => cs[k].item)
  }

  /** The position of the first container whose item is `x`: where `List.Remove`,
      which compares with `ItemContainer.Equals`, finds its target. */
  function FirstWithItem<T(==)>(s: seq<ItemContainer<T>>, x: T): (r: Option<nat>)
    ensures r.Some? ==> r.value < |s| && s[r.value].item == x
    ensures r.Some? ==> forall k :: 0 <= k < r.value ==> s[k].item != x
    ensures r.None? ==> forall k :: 0 <= k < |s| ==> s[k].item != x
  {
    if s == [] then None
    else if s[0].item == x then Some(0)
    else match FirstWithItem(s[1..], x)
      case None => None
      case Some(k) => Some(k + 1)
  }

  /** `ArrayAdapter.Remove(c)`: drop the first element equal to `c`, that is, with `c`'s item. */
  function RemoveFirstEqual<T(==)>(s: seq<ItemContainer<T>>, x: T): seq<ItemContainer<T>>
  {
    match FirstWithItem(s, x)
    case None => s
    case Some(k) => RemoveAt(s, k)
  }

  /** On a list whose items are all different, removing by item removes exactly
      the container holding it and nothing else. */
  lemma RemoveFirstEqualUnique<T>(s: seq<ItemContainer<T>>, p: nat)
    requires p < |s| && Distinct(ItemsOf(s))
    ensures RemoveFirstEqual(s, s[p].item) == RemoveAt(s, p)
  {
    var r := FirstWithItem(s, s[p].item);
    assert r.Some?;
    assert ItemsOf(s)[r.value] == ItemsOf(s)[p];
  }

  /** With equal items, removal by item loses a container. The items `[a, b, a]`
      are shown by `c1, c2, c3`; refreshed to `[a, a, b]` they reuse `c1, c3, c2`.
      Position 0 keeps `c1`; moving `c3` to position 1 removes `c1`, the first
      container of item `a`; moving `c2` to position 2 then ends with `c3`
      listed twice and `c1` gone. */
  lemma DuplicateItemsAsWritten<T>(c1: ItemContainer<T>, c2: ItemContainer<T>, c3: ItemContainer<T>)
    requires c1 != c3 && c1.item == c3.item && c2.item != c1.item
    ensures var h1 := InsertAt(RemoveFirstEqual([c1, c2, c3], c3.item), 1, c3);
      && [c1, c2, c3][0] == c1 && [c1, c2, c3][1] != c3
      && h1 == [c2, c3, c3] && h1[2] != c2
      && InsertAt(RemoveFirstEqual(h1, c2.item), 2, c2) == [c3, c3, c2]
      && [c3, c3, c2] != [c1, c3, c2]
  {
    assert FirstWithItem([c1, c2, c3], c3.item) == Some(0);
    var h1 := InsertAt(RemoveFirstEqual([c1, c2, c3], c3.item), 1, c3);
    assert h1 == [c2, c3, c3];
    assert FirstWithItem(h1, c2.item) == Some(0);
  }

  /** Removing the container itself (by reference, as `Sequences.PlaceMove`
      does) instead of by item places the same refresh correctly: moving `c3`
      gives `[c1, c3, c2]` and position 2 already holds `c2`. */
  lemma DuplicateItemsByReference<T>(c1: ItemContainer<T>, c2: ItemContainer<T>, c3: ItemContainer<T>)
    requires c1 != c3 && c1.item == c3.item && c2.item != c1.item
    ensures var h0 := [c1, c2, c3];
      var h1 := InsertAt(RemoveAt(h0, IndexOf(h0, c3)), 1, c3);
      && h1 == [c1, c3, c2] && h1[2] == c2
  {
    var h0 := [c1, c2, c3];
    assert IndexOf(h0, c3) == 2;
  }

  /** No two containers of `cs` share a `BindingManager`. */
  ghost predicate ManagersDistinct<T>(cs: seq<ItemContainer<T>>)
    reads set k | 0 <= k < |cs| :: cs[k]
  {
    forall a, b :: 0 <= a < b < |cs| && cs[a].bindings != null ==> cs[a].bindings != cs[b].bindings
  }

  /** In a list drawn from containers of pairwise different items, removing a
      container by its item is leaving it out. */
  lemma RemoveFromWithout<T>(olds: seq<ItemContainer<T>>, gone: set<ItemContainer<T>>, c: ItemContainer<T>)
    requires Distinct(olds) && Distinct(ItemsOf(olds)) && c in olds && c !in gone
    ensures RemoveFirstEqual(Without(olds, gone), c.item) == Without(olds, gone + {c})
  {
    var h := Without(olds, gone);
    WithoutOneMore(olds, gone, c);
    WithoutDistinct(olds, gone);
    forall x | x in h
      ensures x in olds
    {
      WithoutMembers(olds, gone, x);
    }
    ItemsDistinctWithin(h, olds);
    RemoveFirstEqualUnique(h, IndexOf(h, c));
  }

  /** The managers of containers that all have one, position by position:
      as no two share one, every one of them is a different object. */
  ghost function ManagerList<T>(cs: seq<ItemContainer<T>>): (ms: seq<BindingManager>)
    requires forall k :: 0 <= k < |cs| ==> cs[k].bindings != null
    requires ManagersDistinct(cs)
    reads set k | 0 <= k < |cs| :: cs[k]
    ensures |ms| == |cs| && Distinct(ms)
    ensures forall k :: 0 <= k < |cs| ==> ms[k] == cs[k].bindings && ms[k] in Managers(cs)
  {
    var ms := seq(|cs|, k requires 0 <= k < |cs| && cs[k].bindings != null reads cs => cs[k].bindings as BindingManager);
    assert forall a, b :: 0 <= a < b < |cs| ==> ms[a] != ms[b];
    ms
  }

  /** Containers of pairwise different items are pairwise different. */
  lemma ItemsDistinctSeq<T>(cs: seq<ItemContainer<T>>)
    requires Distinct(ItemsOf(cs))
    ensures Distinct(cs)
  {
    forall a, b | 0 <= a < b < |cs|
      ensures cs[a] != cs[b]
    {
      assert ItemsOf(cs)[a] != ItemsOf(cs)[b];
    }
  }

  /** Unbinds the managers `ms` of the containers `cs`, one after the other. */
  method UnbindEach<T>(cs: seq<ItemContainer<T>>, ghost ms: seq<BindingManager>)
    requires |ms| == |cs| && Distinct(ms)
    requires forall k :: 0 <= k < |cs| ==> cs[k].bindings == ms[k]
    modifies ms
    ensures forall k :: 0 <= k < |ms| ==>
      ms[k].subscriptions == old(ms[k].subscriptions)
      && ms[k].calls == old(ms[k].calls) + UnbindCalls(ms[k].subscriptions)
  {
    for i := 0 to |cs|
      invariant forall k :: 0 <= k < |ms| ==> ms[k].subscriptions == old(ms[k].subscriptions)
      invariant forall k :: 0 <= k < |ms| ==>
        ms[k].calls == old(ms[k].calls) + if k < i then UnbindCalls(ms[k].subscriptions) else []
    {
      cs[i].bindings.Unbind();
    }
  }

  /** The managers of the containers of `cs`. */
  ghost function Managers<T>(cs: seq<ItemContainer<T>>): set<BindingManager>
    reads set k | 0 <= k < |cs| :: cs[k]
  {
    set k | 0 <= k < |cs| && cs[k].bindings != null :: cs[k].bindings as BindingManager
  }

  /** A list with no repetition drawn from containers of pairwise different
      items has pairwise different items too. */
  lemma ItemsDistinctWithin<T>(host: seq<ItemContainer<T>>, cs: seq<ItemContainer<T>>)
    requires Distinct(host) && Distinct(ItemsOf(cs))
    requires forall k :: 0 <= k < |host| ==> host[k] in cs
    ensures Distinct(ItemsOf(host))
  {
    forall a, b | 0 <= a < b < |host|
      ensures host[a].item != host[b].item
    {
      var ja :| 0 <= ja < |cs| && cs[ja] == host[a];
      var jb :| 0 <= jb < |cs| && cs[jb] == host[b];
      assert ja != jb;
      assert ItemsOf(cs)[ja] == host[a].item && ItemsOf(cs)[jb] == host[b].item;
    }
  }

  class ItemContainer<T(==)> {
    const item: T
    const adapter: BindingArrayAdapter<T>
    /** `_bindings`: null until the container is first placed. */
    var bindings: BindingManager?
    /** `View`: the row realized for this container, once `GetView` has built it. */
    var view: Option<ViewId>

    constructor (item: T, adapter: BindingArrayAdapter<T>)
      ensures this.item == item && this.adapter == adapter
      ensures bindings == null && view == None
    {
      this.item := item;
      this.adapter := adapter;
      bindings := null;
      view := None;
    }

    /** `Equals`: the same container, or any container of an equal item; never null. */
    predicate Equals(obj: ItemContainer?<T>)
      ensures Equals(obj) <==> obj != null && obj.item == item
    {
      obj == this || (obj != null && obj.item == item)
    }

    /** `GetHashCode`: the item's hash, for the item type's hash function `hash`. */
    function GetHashCode(hash: T -> int): int
    {
      hash(item)
    }

    /** `Equals` and `GetHashCode` agree: equal containers hash alike, so a
        hashed lookup of a container finds every container equal to it. */
    lemma EqualsHash(obj: ItemContainer<T>, hash: T -> int)
      requires Equals(obj)
      ensures obj.GetHashCode(hash) == GetHashCode(hash)
      ensures obj.Equals(this)
    {
    }

    /** `EnsureInCollection(index)`. A container never placed is inserted at `index`
        and only then gets a new `BindingManager`; a placed one already at `index`
        stays; a placed one elsewhere is removed (by item) and inserted at `index`.
        Index errors of `GetItem`/`Insert` are excluded by the requires. */
    method EnsureInCollection(index: nat)
      requires index <= |adapter.host|
      requires bindings != null ==> index < |adapter.host|
      modifies this, adapter`host
      ensures view == old(view)
      ensures old(bindings) == null ==>
        && fresh(bindings) && bindings.subscriptions == [] && bindings.calls == []
        && adapter.host == InsertAt(old(adapter.host), index, this)
      ensures old(bindings) != null ==> bindings == old(bindings)
      ensures old(bindings) != null && old(adapter.host[index]) == this ==>
        adapter.host == old(adapter.host)
      ensures old(bindings) != null && old(adapter.host[index]) != this ==>
        && |RemoveFirstEqual(old(adapter.host), item)| >= index
        && adapter.host == InsertAt(RemoveFirstEqual(old(adapter.host), item), index, this)
    {
      if bindings == null {
        adapter.Insert(this, index);
        bindings := new BindingManager();
      } else {
        var current := adapter.GetItem(index);
        if current != this {
          adapter.Remove(this);
          adapter.Insert(this, index);
        }
      }
    }

    /** `Dispose`: nothing for a container never placed; otherwise unbind its
        bindings and remove it (by item) from the adapter. */
    method Dispose()
      modifies bindings, adapter`host
      ensures bindings == old(bindings)
      ensures bindings == null ==> adapter.host == old(adapter.host)
      ensures bindings != null ==>
        && bindings.subscriptions == old(bindings.subscriptions)
        && bindings.calls == old(bindings.calls) + UnbindCalls(bindings.subscriptions)
        && adapter.host == RemoveFirstEqual(old(adapter.host), item)
    {
      if bindings != null {
        bindings.Unbind();
        adapter.Remove(this);
      }
    }
  }

  class BindingArrayAdapter<T(==)> {
    /** The `ArrayAdapter`'s own list, whose order is what the `ListView` shows. */
    var host: seq<ItemContainer<T>>
    /** `_itemContainers`: one container per item of the last refresh, in order. */
    var containers: seq<ItemContainer<T>>
    /** The calls made to the user's `bind` delegate so far. */
    ghost var rowBinds: seq<RowBind<T>>

    /** Between refreshes the adapter shows exactly its containers, in order;
        every container belongs to it, is placed, and has a manager of its own;
        no two containers hold equal items. */
    ghost predicate Valid()
      reads this, set k | 0 <= k < |containers| :: containers[k]
    {
      && host == containers
      && Distinct(containers)
      && Distinct(ItemsOf(containers))
      && (forall k :: 0 <= k < |containers| ==> containers[k].adapter == this && containers[k].bindings != null)
      && ManagersDistinct(containers)
    }

    constructor ()
      ensures Valid() && host == [] && containers == [] && rowBinds == []
    {
      host := [];
      containers := [];
      rowBinds := [];
    }

    /** `ArrayAdapter.Insert(c, index)`. */
    method Insert(c: ItemContainer<T>, index: nat)
      requires index <= |host|
      modifies this`host
      ensures host == InsertAt(old(host), index, c)
    {
      host := InsertAt(host, index, c);
    }

    /** `ArrayAdapter.GetItem(index)`. */
    method GetItem(index: nat) returns (c: ItemContainer<T>)
      requires index < |host|
      ensures c == host[index]
    {
      c := host[index];
    }

    /** `ArrayAdapter.Remove(c)`. */
    method Remove(c: ItemContainer<T>)
      modifies this`host
      ensures host == RemoveFirstEqual(old(host), c.item)
    {
      host := RemoveFirstEqual(host, c.item);
    }

    /** `GetView(position, ...)`: a container with a cached row returns it and binds
        nothing; otherwise the freshly inflated `row` is bound once with the
        container's item and manager, then cached. */
    method GetView(position: nat, row: ViewId) returns (v: ViewId)
      requires position < |host|
      modifies host[position], this`rowBinds
      ensures host[position].bindings == old(host[position].bindings)
      ensures old(Valid()) ==> Valid()
      ensures old(host[position].view).Some? ==>
        v == old(host[position].view).value && host[position].view == old(host[position].view)
        && rowBinds == old(rowBinds)
      ensures old(host[position].view).None? ==>
        v == row && host[position].view == Some(row)
        && rowBinds == old(rowBinds) + [RowBind(row, host[position].item, host[position].bindings)]
    {
      var c := host[position];
      if c.view.Some? {
        v := c.view.value;
      } else {
        rowBinds := rowBinds + [RowBind(row, c.item, c.bindings)];
        c.view := Some(row);
        v := row;
      }
    }

    /** The first pass of `UpdateItems`: the old containers go into a bin, and each
        new item takes out an old container holding an equal item, or else keeps
        the new container it probed with. The bin's choices are `Reconcile`'s. */
    method Recycle(olds: seq<ItemContainer<T>>, items: seq<T>)
      returns (cs: seq<ItemContainer<T>>, p: Plan)
      ensures p == Reconcile(ItemsOf(olds), items)
      ensures |cs| == |items| && |p.picks| == |items|
      ensures forall i :: 0 <= i < |items| ==> cs[i].item == items[i]
      ensures forall i :: 0 <= i < |items| && p.picks[i].Some? ==>
        p.picks[i].value < |olds| && cs[i] == olds[p.picks[i].value]
      ensures forall i :: 0 <= i < |items| && p.picks[i].None? ==>
        fresh(cs[i]) && cs[i] !in olds && cs[i].adapter == this && cs[i].bindings == null && cs[i].view == None
      ensures forall i, i' :: 0 <= i < i' < |items| && p.picks[i].None? && p.picks[i'].None? ==> cs[i] != cs[i']
    {
      p := Reconcile(ItemsOf(olds), items);
      ReconcileShape(ItemsOf(olds), items);
      cs := Gather(olds, items, p.picks);
    }

    /** The loop of the first pass, for the bin's choices `picks`: the old
        container picked for item `i`, or the new probe made for it. */
    method Gather(olds: seq<ItemContainer<T>>, items: seq<T>, picks: seq<Option<nat>>)
      returns (cs: seq<ItemContainer<T>>)
      requires |picks| == |items|
      requires forall i :: 0 <= i < |items| && picks[i].Some? ==>
        picks[i].value < |olds| && olds[picks[i].value].item == items[i]
      ensures |cs| == |items|
      ensures forall i :: 0 <= i < |items| ==> cs[i].item == items[i]
      ensures forall i :: 0 <= i < |items| && picks[i].Some? ==> cs[i] == olds[picks[i].value]
      ensures forall i :: 0 <= i < |items| && picks[i].None? ==>
        fresh(cs[i]) && cs[i] !in olds && cs[i].adapter == this && cs[i].bindings == null && cs[i].view == None
      ensures forall i, i' :: 0 <= i < i' < |items| && picks[i].None? && picks[i'].None? ==> cs[i] != cs[i']
    {
      cs := [];
      for i := 0 to |items|
        invariant |cs| == i
        invariant forall k :: 0 <= k < i ==> cs[k].item == items[k]
        invariant forall k :: 0 <= k < i && picks[k].Some? ==> cs[k] == olds[picks[k].value]
        invariant forall k :: 0 <= k < i && picks[k].None? ==>
          fresh(cs[k]) && cs[k] !in olds && cs[k].adapter == this && cs[k].bindings == null && cs[k].view == None
        invariant forall k, k' :: 0 <= k < k' < i && picks[k].None? && picks[k'].None? ==> cs[k] != cs[k']
      {
        var probe := new ItemContainer(items[i], this);
        var c := if picks[i].Some? then olds[picks[i].value] else probe;
        cs := cs + [c];
      }
    }

    /** The containers the bin keeps are in no position of the recycled list. */
    lemma DroppedAfterRecycle(olds: seq<ItemContainer<T>>, items: seq<T>, cs: seq<ItemContainer<T>>, p: Plan)
      requires Distinct(olds) && p == Reconcile(ItemsOf(olds), items) && |cs| == |p.picks|
      requires forall i :: 0 <= i < |cs| && p.picks[i].Some? ==>
        p.picks[i].value < |olds| && cs[i] == olds[p.picks[i].value]
      requires forall i :: 0 <= i < |cs| && p.picks[i].None? ==> cs[i] !in olds
      ensures forall j :: 0 <= j < |olds| && j in p.rest ==> olds[j] !in cs
    {
      ReconcileRest(ItemsOf(olds), items);
      LeftoversDropped(olds, cs, p);
    }

    /** `UpdateItems(items)`: recycle, dispose what the bin keeps, then place.
        Item `i` reuses the old container `Reconcile` picks for it, with its
        manager and row view, or gets a new container and a new, empty manager;
        exactly the old containers left in the bin are unbound. */
    method UpdateItems(items: seq<T>)
      requires Valid() && Distinct(items)
      modifies this`host, this`containers, containers, Managers(containers)
      ensures Valid()
      ensures ItemsOf(containers) == items
      ensures var p := Reconcile(ItemsOf(old(containers)), items);
        forall i :: 0 <= i < |items| && p.picks[i].Some? ==>
          var c := containers[i];
          && p.picks[i].value < |old(containers)| && c == old(containers[p.picks[i].value])
          && c.bindings == old(c.bindings) && c.view == old(c.view)
      ensures var p := Reconcile(ItemsOf(old(containers)), items);
        forall i :: 0 <= i < |items| && p.picks[i].None? ==>
          && fresh(containers[i]) && containers[i].view == None
          && containers[i].bindings != null && fresh(containers[i].bindings)
          && containers[i].bindings.subscriptions == [] && containers[i].bindings.calls == []
      ensures var p := Reconcile(ItemsOf(old(containers)), items);
        forall j :: 0 <= j < |old(containers)| ==>
          var b := old(containers[j].bindings);
          && b != null
          && b.subscriptions == old(b.subscriptions)
          && b.calls == old(b.calls) + if j in p.rest then UnbindCalls(b.subscriptions) else []
      ensures var p := Reconcile(ItemsOf(old(containers)), items);
        forall j :: 0 <= j < |old(containers)| && j in p.rest ==>
          var c := old(containers[j]);
          && c !in containers && c.bindings == old(c.bindings) && c.view == old(c.view)
    {
      var olds := containers;
      var cs, p := Recycle(olds, items);
      Rebuild(olds, items, cs, p);
      DroppedAfterRecycle(olds, items, cs, p);
    }

    /** The second and third passes of `UpdateItems`, once the bin has chosen
        `p` and gathered `cs`: dispose what the bin keeps, then place `cs`. */
    method Rebuild(olds: seq<ItemContainer<T>>, items: seq<T>, cs: seq<ItemContainer<T>>, p: Plan)
      requires Valid() && containers == olds && Distinct(items)
      requires p == Reconcile(ItemsOf(olds), items)
      requires |cs| == |items| && |p.picks| == |items|
      requires forall i :: 0 <= i < |items| ==> cs[i].item == items[i]
      requires forall i :: 0 <= i < |items| && p.picks[i].Some? ==>
        p.picks[i].value < |olds| && cs[i] == olds[p.picks[i].value]
      requires forall i :: 0 <= i < |items| && p.picks[i].None? ==>
        cs[i] !in olds && cs[i].adapter == this && cs[i].bindings == null && cs[i].view == None
      requires forall i, i' :: 0 <= i < i' < |items| && p.picks[i].None? && p.picks[i'].None? ==> cs[i] != cs[i']
      modifies this`host, this`containers, Managers(olds), cs
      ensures Valid() && containers == cs
      ensures forall i :: 0 <= i < |items| && p.picks[i].Some? ==>
        cs[i].bindings == old(cs[i].bindings) && cs[i].view == old(cs[i].view)
      ensures forall i :: 0 <= i < |items| && p.picks[i].None? ==>
        && cs[i].view == None && cs[i].bindings != null && fresh(cs[i].bindings)
        && cs[i].bindings.subscriptions == [] && cs[i].bindings.calls == []
      ensures forall j :: 0 <= j < |olds| ==>
        var b := old(olds[j].bindings);
        && b != null
        && b.subscriptions == old(b.subscriptions)
        && b.calls == old(b.calls) + if j in p.rest then UnbindCalls(b.subscriptions) else []
    {
      ghost var ms, reused, bs0 := Prepare(olds, items, cs, p);
      ghost var bs := Arrange(olds, ms, cs, p, reused, bs0);
    }

    /** What the bin's choices give `Arrange` to start from: the old managers
        `ms`, the reused containers, and the manager each new position starts
        with (`null` for a new container). */
    lemma Prepare(olds: seq<ItemContainer<T>>, items: seq<T>, cs: seq<ItemContainer<T>>, p: Plan)
      returns (ms: seq<BindingManager>, reused: set<ItemContainer<T>>, bs0: seq<BindingManager?>)
      requires host == olds && Distinct(olds) && Distinct(ItemsOf(olds)) && Distinct(items)
      requires forall k :: 0 <= k < |olds| ==> olds[k].adapter == this && olds[k].bindings != null
      requires ManagersDistinct(olds)
      requires p == Reconcile(ItemsOf(olds), items)
      requires |cs| == |items| && |p.picks| == |items|
      requires forall i :: 0 <= i < |items| ==> cs[i].item == items[i]
      requires forall i :: 0 <= i < |items| && p.picks[i].Some? ==>
        p.picks[i].value < |olds| && cs[i] == olds[p.picks[i].value]
      requires forall i :: 0 <= i < |items| && p.picks[i].None? ==>
        cs[i].adapter == this && cs[i].bindings == null
      ensures forall k :: 0 <= k < |ms| ==> ms[k] in Managers(olds)
      ensures |ms| == |olds| && Distinct(ms) && forall k :: 0 <= k < |olds| ==> olds[k].bindings == ms[k]
      ensures Distinct(p.rest) && forall m :: 0 <= m < |p.rest| ==> p.rest[m] < |olds|
      ensures Distinct(cs) && Distinct(ItemsOf(cs)) && ItemsOf(cs) == items
      ensures forall i, i' :: 0 <= i < i' < |p.picks| && p.picks[i].Some? ==> p.picks[i] != p.picks[i']
      ensures forall j :: 0 <= j < |olds| ==> (j in p.rest <==> Some(j) !in p.picks)
      ensures reused == set i | 0 <= i < |cs| && p.picks[i].Some? :: cs[i]
      ensures forall k :: 0 <= k < |cs| ==> cs[k].adapter == this
      ensures |bs0| == |cs|
      ensures forall k :: 0 <= k < |cs| ==> cs[k].bindings == bs0[k] && (bs0[k] == null <==> cs[k] !in reused)
      ensures forall k :: 0 <= k < |cs| ==> (cs[k] in reused <==> p.picks[k].Some?)
      ensures forall k :: 0 <= k < |cs| && p.picks[k].Some? ==> bs0[k] == ms[p.picks[k].value]
    {
      ms := ManagerList(olds);
      ReconcileRest(ItemsOf(olds), items);
      reused := set i | 0 <= i < |cs| && p.picks[i].Some? :: cs[i];
      bs0 := seq(|cs|, k requires 0 <= k < |cs| =>
        if p.picks[k].Some? && p.picks[k].value < |ms| then ms[p.picks[k].value] as BindingManager? else null);
      assert ItemsOf(cs) == items;
      ItemsDistinctSeq(cs);
      StartManagers(olds, ms, cs, p, reused, bs0);
    }

    /** `Unsubscribe`: unbinds the manager of every container, in list order.
        The containers, their managers and the host stay as they are. */
    method Unsubscribe()
      requires Valid()
      modifies Managers(containers)
      ensures Valid()
      ensures forall k :: 0 <= k < |containers| ==>
        var b := containers[k].bindings;
        b.subscriptions == old(b.subscriptions) && b.calls == old(b.calls) + UnbindCalls(b.subscriptions)
    {
      ghost var ms := ManagerList(containers);
      UnbindEach(containers, ms);
    }

    /** `Valid` holds again once the host shows the containers, which hold
        pairwise different items and managers. */
    lemma ValidAgain(cs: seq<ItemContainer<T>>, bs: seq<BindingManager?>)
      requires host == cs && containers == cs && Distinct(cs) && Distinct(ItemsOf(cs))
      requires |bs| == |cs|
      requires forall k :: 0 <= k < |cs| ==> cs[k].adapter == this
      requires forall k :: 0 <= k < |cs| ==> cs[k].bindings == bs[k]
      requires forall k :: 0 <= k < |cs| ==> bs[k] != null
      requires Distinct(bs)
      ensures Valid()
    {
    }

    /** The host-side work of `UpdateItems` once the bin has made its choices
        `p`: dispose the containers left in the bin, then place `cs`. */
    method Arrange(olds: seq<ItemContainer<T>>, ghost ms: seq<BindingManager>,
                   cs: seq<ItemContainer<T>>, p: Plan, ghost reused: set<ItemContainer<T>>,
                   ghost bs0: seq<BindingManager?>)
      returns (ghost bs: seq<BindingManager?>)
      requires host == olds && Distinct(olds) && Distinct(ItemsOf(olds))
      requires forall k :: 0 <= k < |olds| ==> olds[k].adapter == this
      requires |ms| == |olds| && Distinct(ms) && forall k :: 0 <= k < |olds| ==> olds[k].bindings == ms[k]
      requires Distinct(p.rest) && forall m :: 0 <= m < |p.rest| ==> p.rest[m] < |olds|
      requires Distinct(cs) && Distinct(ItemsOf(cs)) && |cs| == |p.picks|
      requires forall i :: 0 <= i < |cs| && p.picks[i].Some? ==>
        p.picks[i].value < |olds| && cs[i] == olds[p.picks[i].value]
      requires forall i, i' :: 0 <= i < i' < |p.picks| && p.picks[i].Some? ==> p.picks[i] != p.picks[i']
      requires forall j :: 0 <= j < |olds| ==> (j in p.rest <==> Some(j) !in p.picks)
      requires reused == set i | 0 <= i < |cs| && p.picks[i].Some? :: cs[i]
      requires forall k :: 0 <= k < |cs| ==> cs[k].adapter == this
      requires |bs0| == |cs|
      requires forall k :: 0 <= k < |cs| ==> cs[k].bindings == bs0[k] && (bs0[k] == null <==> cs[k] !in reused)
      requires forall k :: 0 <= k < |cs| ==> (cs[k] in reused <==> p.picks[k].Some?)
      requires forall k :: 0 <= k < |cs| && p.picks[k].Some? ==> bs0[k] == ms[p.picks[k].value]
      modifies this`host, this`containers, ms, cs
      ensures Valid() && containers == cs && |bs| == |cs|
      ensures forall k :: 0 <= k < |ms| ==> ms[k].subscriptions == old(ms[k].subscriptions)
      ensures forall k :: 0 <= k < |ms| && k in p.rest ==>
        ms[k].calls == old(ms[k].calls) + UnbindCalls(ms[k].subscriptions)
      ensures forall k :: 0 <= k < |ms| && k !in p.rest ==> ms[k].calls == old(ms[k].calls)
      ensures forall k :: 0 <= k < |cs| ==> cs[k].bindings == bs[k] && cs[k].view == old(cs[k].view)
      ensures forall k :: 0 <= k < |cs| && p.picks[k].Some? ==>
        bs[k] == ms[p.picks[k].value] && cs[k].bindings == old(cs[k].bindings)
      ensures forall k :: 0 <= k < |cs| && p.picks[k].None? ==>
        bs[k] != null && fresh(bs[k]) && bs[k].subscriptions == [] && bs[k].calls == []
      ensures forall k :: 0 <= k < |cs| ==> bs[k] != null
      ensures Distinct(bs)
    {
      ghost var done := DisposeRest(olds, ms, p.rest);
      bs := PlaceAll(olds, ms, cs, p, done, reused, bs0);
    }

    /** The placement half of `UpdateItems`, once the containers left in the bin
        (the positions `done` of `olds`) are gone from the host. */
    method PlaceAll(olds: seq<ItemContainer<T>>, ghost ms: seq<BindingManager>,
                    cs: seq<ItemContainer<T>>, p: Plan, ghost done: set<nat>,
                    ghost reused: set<ItemContainer<T>>, ghost bs0: seq<BindingManager?>)
      returns (ghost bs: seq<BindingManager?>)
      requires Distinct(olds) && Distinct(ms) && |cs| == |p.picks|
      requires Distinct(cs) && Distinct(ItemsOf(cs))
      requires forall i :: 0 <= i < |cs| && p.picks[i].Some? ==>
        p.picks[i].value < |olds| && cs[i] == olds[p.picks[i].value]
      requires forall i, i' :: 0 <= i < i' < |p.picks| && p.picks[i].Some? ==> p.picks[i] != p.picks[i']
      requires forall j :: 0 <= j < |olds| ==> (j in p.rest <==> Some(j) !in p.picks)
      requires forall k :: k in done <==> k in p.rest
      requires host == Without(olds, Gone(olds, done))
      requires reused == set i | 0 <= i < |cs| && p.picks[i].Some? :: cs[i]
      requires forall k :: 0 <= k < |cs| ==> cs[k].adapter == this
      requires |bs0| == |cs|
      requires forall k :: 0 <= k < |cs| ==> cs[k].bindings == bs0[k] && (bs0[k] == null <==> cs[k] !in reused)
      requires forall k :: 0 <= k < |cs| ==> (cs[k] in reused <==> p.picks[k].Some?)
      requires forall k :: 0 <= k < |cs| && p.picks[k].Some? ==>
        p.picks[k].value < |ms| && bs0[k] == ms[p.picks[k].value]
      modifies this`host, this`containers, cs
      ensures Valid() && containers == cs && |bs| == |cs|
      ensures forall k :: 0 <= k < |cs| ==> cs[k].bindings == bs[k] && cs[k].view == old(cs[k].view)
      ensures forall k :: 0 <= k < |cs| && p.picks[k].Some? ==>
        bs[k] == ms[p.picks[k].value] && cs[k].bindings == old(cs[k].bindings)
      ensures forall k :: 0 <= k < |cs| && p.picks[k].None? ==>
        bs[k] != null && fresh(bs[k]) && bs[k].subscriptions == [] && bs[k].calls == []
      ensures forall k :: 0 <= k < |cs| ==> bs[k] != null
      ensures Distinct(bs)
    {
      assert Placed(cs, host, 0, reused) by {
        ReadyToPlace(olds, cs, p, done, reused, host);
      }
      bs := PlaceNew(cs, p.picks, reused, bs0, ms);
      containers := cs;
      ValidAgain(cs, bs);
    }

    /** The placement loop of `UpdateItems` seen through the bin's choices
        `picks`: reused positions keep their old managers from `ms`, new ones
        get fresh managers, and no two positions share one. */
    method PlaceNew(cs: seq<ItemContainer<T>>, ghost picks: seq<Option<nat>>, ghost reused: set<ItemContainer<T>>,
                    ghost bs0: seq<BindingManager?>, ghost ms: seq<BindingManager>)
      returns (ghost bs: seq<BindingManager?>)
      requires Placed(cs, host, 0, reused) && Distinct(cs) && Distinct(ItemsOf(cs))
      requires Distinct(ms) && |cs| == |picks| && |bs0| == |cs|
      requires forall k :: 0 <= k < |cs| ==> cs[k].adapter == this
      requires forall i, i' :: 0 <= i < i' < |picks| && picks[i].Some? ==> picks[i] != picks[i']
      requires forall k :: 0 <= k < |cs| ==> cs[k].bindings == bs0[k] && (bs0[k] == null <==> cs[k] !in reused)
      requires forall k :: 0 <= k < |cs| ==> (cs[k] in reused <==> picks[k].Some?)
      requires forall k :: 0 <= k < |cs| && picks[k].Some? ==>
        picks[k].value < |ms| && bs0[k] == ms[picks[k].value]
      modifies this`host, cs
      ensures host == cs && |bs| == |cs|
      ensures forall k :: 0 <= k < |cs| ==> cs[k].bindings == bs[k] && cs[k].view == old(cs[k].view)
      ensures forall k :: 0 <= k < |cs| && picks[k].Some? ==>
        bs[k] == ms[picks[k].value] && cs[k].bindings == old(cs[k].bindings)
      ensures forall k :: 0 <= k < |cs| && picks[k].None? ==>
        bs[k] != null && fresh(bs[k]) && bs[k].subscriptions == [] && bs[k].calls == []
      ensures forall k :: 0 <= k < |cs| ==> bs[k] != null
      ensures Distinct(bs)
    {
      ghost var owner;
      bs, owner := Place(cs, reused, bs0, ms);
      NewManagersDistinct(ms, picks, bs, owner);
    }

    /** Before the placement pass, the reused containers are old ones, with the
        old managers `ms`; the new ones have no manager yet. */
    lemma StartManagers(olds: seq<ItemContainer<T>>, ms: seq<BindingManager>, cs: seq<ItemContainer<T>>,
                        p: Plan, reused: set<ItemContainer<T>>, bs0: seq<BindingManager?>)
      requires Distinct(cs) && |cs| == |p.picks| && |ms| == |olds| && |bs0| == |cs|
      requires forall k :: 0 <= k < |olds| ==> olds[k].adapter == this && olds[k].bindings == ms[k]
      requires forall i :: 0 <= i < |cs| && p.picks[i].Some? ==>
        p.picks[i].value < |olds| && cs[i] == olds[p.picks[i].value] && bs0[i] == ms[p.picks[i].value]
      requires forall i :: 0 <= i < |cs| && p.picks[i].None? ==>
        cs[i].adapter == this && cs[i].bindings == null && bs0[i] == null
      requires reused == set i | 0 <= i < |cs| && p.picks[i].Some? :: cs[i]
      ensures forall k :: 0 <= k < |cs| ==> cs[k].adapter == this
      ensures forall k :: 0 <= k < |cs| ==> cs[k].bindings == bs0[k] && (bs0[k] == null <==> cs[k] !in reused)
      ensures forall k :: 0 <= k < |cs| ==> (cs[k] in reused <==> p.picks[k].Some?)
    {
      forall k | 0 <= k < |cs|
        ensures cs[k] in reused <==> p.picks[k].Some?
      {
        if cs[k] in reused {
          var i :| 0 <= i < |cs| && p.picks[i].Some? && cs[i] == cs[k];
        }
      }
    }

    /** The end of `UpdateItems`' `using` block: the bin disposes the old containers
        left in it, `rest`, in that order. Each is unbound and removed from the
        host; as no two containers hold equal items, the removal takes out exactly
        that container, so the host keeps the other old containers in their order. */
    method DisposeRest(olds: seq<ItemContainer<T>>, ghost ms: seq<BindingManager>, rest: seq<nat>)
      returns (ghost done: set<nat>)
      requires host == olds && Distinct(olds) && Distinct(ItemsOf(olds))
      requires forall k :: 0 <= k < |olds| ==> olds[k].adapter == this
      requires |ms| == |olds| && Distinct(ms) && forall k :: 0 <= k < |olds| ==> olds[k].bindings == ms[k]
      requires Distinct(rest) && forall m :: 0 <= m < |rest| ==> rest[m] < |olds|
      modifies this`host, ms
      ensures forall k :: k in done <==> k in rest
      ensures host == Without(olds, Gone(olds, done))
      ensures forall k :: 0 <= k < |ms| ==> ms[k].subscriptions == old(ms[k].subscriptions)
      ensures forall k :: 0 <= k < |ms| && k in rest ==>
        ms[k].calls == old(ms[k].calls) + UnbindCalls(ms[k].subscriptions)
      ensures forall k :: 0 <= k < |ms| && k !in rest ==> ms[k].calls == old(ms[k].calls)
    {
      done := {};
      ghost var gone: set<ItemContainer<T>> := {};
      WithoutNothing(olds);
      assert Gone(olds, done) == {};
      for m := 0 to |rest|
        invariant done == set m' | 0 <= m' < m :: rest[m']
        invariant gone == Gone(olds, done)
        invariant host == Without(olds, gone)
        invariant forall k :: 0 <= k < |ms| ==> ms[k].subscriptions == old(ms[k].subscriptions)
        invariant forall k :: 0 <= k < |ms| ==>
          ms[k].calls == old(ms[k].calls) + if k in done then UnbindCalls(ms[k].subscriptions) else []
      {
        assert rest[m] !in done;
        GoneStep(olds, done, rest[m]);
        DisposeOne(olds, ms, gone, rest[m]);
        done := done + {rest[m]};
        gone := gone + {olds[rest[m]]};
      }
    }

    /** One disposal of `DisposeRest`: the container at position `j`, whose
        manager is `ms[j]`, with the containers `gone` already disposed. */
    method DisposeOne(olds: seq<ItemContainer<T>>, ghost ms: seq<BindingManager>,
                      ghost gone: set<ItemContainer<T>>, j: nat)
      requires host == Without(olds, gone) && Distinct(olds) && Distinct(ItemsOf(olds))
      requires j < |olds| && olds[j] !in gone && olds[j].adapter == this
      requires j < |ms| && olds[j].bindings == ms[j]
      modifies this`host, ms[j]
      ensures host == Without(olds, gone + {olds[j]})
      ensures ms[j].subscriptions == old(ms[j].subscriptions)
      ensures ms[j].calls == old(ms[j].calls) + UnbindCalls(ms[j].subscriptions)
    {
      RemoveFromWithout(olds, gone, olds[j]);
      olds[j].Dispose();
    }

    /** The second loop of `UpdateItems`: every container of the new list, in
        order, is put at its index. `reused` are the containers already placed
        before the loop. Containers never placed get a new manager. */
    method Place(cs: seq<ItemContainer<T>>, ghost reused: set<ItemContainer<T>>, ghost bs0: seq<BindingManager?>,
                 ghost ms: seq<BindingManager>)
      returns (ghost bs: seq<BindingManager?>, ghost owner: map<BindingManager?, nat>)
      requires Placed(cs, host, 0, reused) && Distinct(cs) && Distinct(ItemsOf(cs))
      requires forall k :: 0 <= k < |cs| ==> cs[k].adapter == this
      requires |bs0| == |cs|
      requires forall k :: 0 <= k < |cs| ==> cs[k].bindings == bs0[k] && (bs0[k] == null <==> cs[k] !in reused)
      modifies this`host, cs
      ensures host == cs && |bs| == |cs|
      ensures forall k :: 0 <= k < |cs| ==> cs[k].bindings == bs[k] && cs[k].view == old(cs[k].view)
      ensures forall k :: 0 <= k < |cs| ==>
        if cs[k] in reused then bs[k] == bs0[k]
        else (bs[k] != null && fresh(bs[k]) && bs[k].subscriptions == [] && bs[k].calls == []
              && bs[k] !in ms && bs[k] in owner && owner[bs[k]] == k)
    {
      bs := bs0;
      owner := map[];
      for i := 0 to |cs|
        invariant Placed(cs, host, i, reused)
        invariant |bs| == |cs| && forall k :: 0 <= k < |cs| ==> cs[k].bindings == bs[k]
        invariant forall k :: 0 <= k < |cs| ==> cs[k].view == old(cs[k].view)
        invariant forall k :: 0 <= k < |cs| && (i <= k || cs[k] in reused) ==> bs[k] == bs0[k]
        invariant forall k :: 0 <= k < i && cs[k] !in reused ==>
          bs[k] != null && fresh(bs[k]) && bs[k].subscriptions == [] && bs[k].calls == [] && bs[k] !in ms
        invariant forall k :: 0 <= k < i && cs[k] !in reused ==> bs[k] in owner && owner[bs[k]] == k
      {
        PlaceOne(cs, reused, i, ms);
        bs := bs[i := cs[i].bindings];
        if cs[i] !in reused {
          owner := owner[cs[i].bindings := i];
        }
      }
      PlacedDone(cs, host, reused);
    }

    /** One step of `Place`: `EnsureInCollection(i)` on the `i`-th container. */
    method PlaceOne(cs: seq<ItemContainer<T>>, ghost reused: set<ItemContainer<T>>, i: nat,
                    ghost ms: seq<BindingManager>)
      requires Placed(cs, host, i, reused) && Distinct(cs) && Distinct(ItemsOf(cs))
      requires i < |cs| && cs[i].adapter == this
      requires cs[i].bindings == null <==> cs[i] !in reused
      modifies this`host, cs[i]
      ensures Placed(cs, host, i + 1, reused)
      ensures cs[i].view == old(cs[i].view)
      ensures old(cs[i].bindings) != null ==> cs[i].bindings == old(cs[i].bindings)
      ensures old(cs[i].bindings) == null ==>
        && fresh(cs[i].bindings) && cs[i].bindings.subscriptions == [] && cs[i].bindings.calls == []
        && cs[i].bindings !in ms
    {
      var c := cs[i];
      ghost var h := host;
      forall k | 0 <= k < |h|
        ensures h[k] in cs
      {
        if k < i {
          assert h[k] == h[..i][k] == cs[..i][k];
        } else {
          assert h[k] in cs[i..];
        }
      }
      ItemsDistinctWithin(h, cs);
      if c.bindings == null {
        PlaceFresh(cs, h, i, reused);
      } else {
        PlacedReusedPresent(cs, h, i, reused);
        if h[i] == c {
          PlaceKept(cs, h, i, reused);
        } else {
          ghost var at := IndexOf(h, c);
          RemoveFirstEqualUnique(h, at);
          PlaceMove(cs, h, i, reused, at);
        }
      }
      c.EnsureInCollection(i);
    }
  }
}
