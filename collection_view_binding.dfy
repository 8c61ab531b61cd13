/**
 * The iOS `UICollectionView` binding: the same two-pass reconciliation as the
 * Android list binding, but the collection view is addressed by cell. It is
 * modelled by the sequence of the cells it shows (`cells`), in item order; a
 * cell is known by a number, and every cell `Insert` creates gets the next
 * number not yet used (`nextCell`). Moving and removing go by the container's
 * own cell, so unlike the Android binding nothing here needs the items to be
 * pairwise different.
 */
module CollectionViewBinding {
  import opened Wrappers
  import opened Sequences
  import opened RecycleBins
  import opened BindingManagers

  /** A `UICollectionViewCell`. */
  type CellId = nat

  /** One invocation of the user's `bind(item, bindings)` delegate. */
  datatype CellBind<T> = CellBind(item: T, bindings: BindingManager?)

  /** The items of a list of containers. */
  function ItemsOf<T>(cs: seq<ItemContainer<T>>): (r: seq<T>)
    ensures |r| == |cs| && forall k :: 0 <= k < |cs| ==> r[k] == cs[k].item
  {
    seq(|cs|, k requires 0 <= k < |cs| => cs[k].item)
  }

  /** The managers of a list of containers, position by position. */
  ghost function BindingsOf<T>(cs: seq<ItemContainer<T>>): (r: seq<BindingManager?>)
    reads set k | 0 <= k < |cs| :: cs[k]
    ensures |r| == |cs| && forall k :: 0 <= k < |cs| ==> r[k] == cs[k].bindings
  {
    seq(|cs|, k requires 0 <= k < |cs| reads cs => cs[k].bindings)
  }

  /** No two containers of `cs` share a `BindingManager`. */
  ghost predicate ManagersDistinct<T>(cs: seq<ItemContainer<T>>)
    reads set k | 0 <= k < |cs| :: cs[k]
  {
    Distinct(BindingsOf(cs))
  }

  /** The managers of the containers of `cs`. */
  ghost function Managers<T>(cs: seq<ItemContainer<T>>): set<BindingManager>
    reads set k | 0 <= k < |cs| :: cs[k]
  {
    set k | 0 <= k < |cs| && cs[k].bindings != null :: cs[k].bindings as BindingManager
  }

  /** The managers of containers that all have one, position by position. */
  ghost function ManagerList<T>(cs: seq<ItemContainer<T>>): (ms: seq<BindingManager>)
    requires forall k :: 0 <= k < |cs| ==> cs[k].bindings != null
    requires ManagersDistinct(cs)
    reads set k | 0 <= k < |cs| :: cs[k]
    ensures |ms| == |cs| && Distinct(ms)
    ensures forall k :: 0 <= k < |cs| ==> ms[k] == cs[k].bindings && ms[k] in Managers(cs)
  {
    var ms := seq(|cs|, k requires 0 <= k < |cs| && cs[k].bindings != null reads cs => cs[k].bindings as BindingManager);
    assert forall a, b :: 0 <= a < b < |cs| ==> ms[a] != ms[b] by {
      assert forall k :: 0 <= k < |cs| ==> ms[k] == BindingsOf(cs)[k];
    }
    ms
  }

  /** Unbinds the managers `ms` of the containers `cs`, one after the other. */
  method UnbindEach<T>(cs: seq<ItemContainer<T>>, ghost ms: seq<BindingManager>)
    requires |ms| == |cs| && Distinct(ms)
    requires forall k :: 0 <= k < |cs| ==> cs[k].bindings == ms[k]
    modifies ms
    ensures forall k :: 0 <= k < |ms| ==>
      ms[k].subscriptions == old(ms[k].subscriptions)
      && ms[k].calls == old(ms[k].calls) + UnbindCalls(ms[k].subscriptions)
  {
    for i := 0 to |cs|
      invariant forall k :: 0 <= k < |ms| ==> ms[k].subscriptions == old(ms[k].subscriptions)
      invariant forall k :: 0 <= k < |ms| ==>
        ms[k].calls == old(ms[k].calls) + if k < i then UnbindCalls(ms[k].subscriptions) else []
    {
      cs[i].bindings.Unbind();
    }
  }

  /** How many of the first `k` positions of the bin's choices `picks` get a
      new container (`None`). */
  function NewBefore(picks: seq<Option<nat>>, k: nat): (n: nat)
    requires k <= |picks|
    ensures n <= k
  {
    if k == 0 then 0 else NewBefore(picks, k - 1) + (if picks[k - 1].None? then 1 else 0)
  }

  /** The number of new positions in `picks`. */
  function NewCount(picks: seq<Option<nat>>): (n: nat)
    ensures n <= |picks|
  {
    NewBefore(picks, |picks|)
  }

  /** A new position counts before every later prefix. */
  lemma {:induction false} NewBeforeGrow(picks: seq<Option<nat>>, a: nat, b: nat)
    requires a < b <= |picks| && picks[a].None?
    ensures NewBefore(picks, a) < NewBefore(picks, b)
    decreases b
  {
    if a < b - 1 {
      NewBeforeGrow(picks, a, b - 1);
    }
  }

  /** The calls to `bind` that placing the first `n` positions makes: one per
      new position (`picks[k]` is `None`), in list order, with that position's
      item and manager. A reused position is not bound again. */
  function NewBinds<T>(items: seq<T>, bs: seq<BindingManager?>, picks: seq<Option<nat>>, n: nat): seq<CellBind<T>>
    requires n <= |items| && n <= |bs| && n <= |picks|
  {
    if n == 0 then []
    else NewBinds(items, bs, picks, n - 1) + (if picks[n - 1].None? then [CellBind(items[n - 1], bs[n - 1])] else [])
  }

  /** The calls for the first `n` positions depend only on the managers there. */
  lemma {:induction false} NewBindsPrefix<T>(items: seq<T>, bs: seq<BindingManager?>, bs': seq<BindingManager?>,
                                             picks: seq<Option<nat>>, n: nat)
    requires n <= |items| && n <= |bs| && n <= |bs'| && n <= |picks|
    requires forall k :: 0 <= k < n ==> bs[k] == bs'[k]
    ensures NewBinds(items, bs, picks, n) == NewBinds(items, bs', picks, n)
  {
    if n > 0 {
      NewBindsPrefix(items, bs, bs', picks, n - 1);
    }
  }

  /** There are as many calls to `bind` as there are new positions, that is,
      as many as new cells. */
  lemma {:induction false} NewBindsCount<T>(items: seq<T>, bs: seq<BindingManager?>, picks: seq<Option<nat>>, n: nat)
    requires n <= |items| && n <= |bs| && n <= |picks|
    ensures |NewBinds(items, bs, picks, n)| == NewBefore(picks, n)
  {
    if n > 0 {
      NewBindsCount(items, bs, picks, n - 1);
    }
  }

  /** The new position `k` is bound by the call numbered `NewBefore(picks, k)`,
      the same number its cell gets above the counter. With `NewBindsCount`,
      the calls are exactly one per new position, in list order. */
  lemma {:induction false} NewBindsAt<T>(items: seq<T>, bs: seq<BindingManager?>, picks: seq<Option<nat>>, n: nat, k: nat)
    requires n <= |items| && n <= |bs| && n <= |picks|
    requires k < n && picks[k].None?
    ensures NewBefore(picks, k) < |NewBinds(items, bs, picks, n)|
    ensures NewBinds(items, bs, picks, n)[NewBefore(picks, k)] == CellBind(items[k], bs[k])
  {
    NewBindsCount(items, bs, picks, n - 1);
    if k < n - 1 {
      NewBindsAt(items, bs, picks, n - 1, k);
    }
  }

  /** The cell each position shows after a refresh: a reused container keeps its
      cell `kept[k]`; the new containers get the cells `base`, `base + 1`, ... in
      list order, as the placement pass inserts them one after the other. */
  function Targets(picks: seq<Option<nat>>, kept: seq<CellId>, base: nat): (tc: seq<CellId>)
    requires |kept| == |picks|
    ensures |tc| == |picks|
    ensures forall k {:trigger tc[k]} :: 0 <= k < |picks| && picks[k].None? ==> tc[k] == base + NewBefore(picks, k)
    ensures forall k :: 0 <= k < |picks| && picks[k].Some? ==> tc[k] == kept[k]
  {
    seq(|picks|, k requires 0 <= k < |picks| => if picks[k].None? then base + NewBefore(picks, k) else kept[k])
  }

  /** When the kept cells are pairwise different and all below `base`, every
      position ends up with a cell of its own, and all of them are below the
      counter after the new cells. */
  lemma TargetsDistinct(picks: seq<Option<nat>>, kept: seq<CellId>, base: nat)
    requires |kept| == |picks|
    requires forall k :: 0 <= k < |picks| && picks[k].Some? ==> kept[k] < base
    requires forall a, b :: 0 <= a < b < |picks| && picks[a].Some? && picks[b].Some? ==> kept[a] != kept[b]
    ensures Distinct(Targets(picks, kept, base))
    ensures forall k :: 0 <= k < |picks| ==> Targets(picks, kept, base)[k] < base + NewCount(picks)
  {
    var tc := Targets(picks, kept, base);
    forall a, b | 0 <= a < b < |tc|
      ensures tc[a] != tc[b]
    {
      if picks[a].None? && picks[b].None? {
        NewBeforeGrow(picks, a, b);
      }
    }
    forall k | 0 <= k < |tc| && picks[k].None?
      ensures tc[k] < base + NewCount(picks)
    {
      NewBeforeGrow(picks, k, |picks|);
    }
  }

  /** The bin's choices `p` over `n` old containers: the positions left in the
      bin are distinct old positions, each old position is picked at most once,
      and a position stays in the bin exactly when no item picks it. */
  ghost predicate PlanFits(p: Plan, n: nat)
  {
    && Distinct(p.rest) && (forall m :: 0 <= m < |p.rest| ==> p.rest[m] < n)
    && (forall i :: 0 <= i < |p.picks| && p.picks[i].Some? ==> p.picks[i].value < n)
    && (forall i, i' :: 0 <= i < i' < |p.picks| && p.picks[i].Some? ==> p.picks[i] != p.picks[i'])
    && (forall j :: 0 <= j < n ==> (j in p.rest <==> Some(j) !in p.picks))
  }

  /** The cells `tc` the positions end up with after a refresh from the cells
      `oldCells` with the counter at `base`, for the bin's choices `picks`, and
      the old cells that stay, `reused`: a reused position keeps its container's
      cell, the new positions get `base`, `base + 1`, ... in list order, every
      position has a cell of its own, and exactly the new positions get cells
      not shown before. */
  ghost predicate LaidOut(oldCells: seq<CellId>, picks: seq<Option<nat>>, base: nat,
                          tc: seq<CellId>, reused: set<CellId>)
  {
    && |tc| == |picks| && Distinct(tc)
    && (forall k :: 0 <= k < |picks| && picks[k].Some? ==>
          picks[k].value < |oldCells| && tc[k] == oldCells[picks[k].value])
    && (forall k {:trigger tc[k]} :: 0 <= k < |picks| && picks[k].None? ==> tc[k] == base + NewBefore(picks, k))
    && (forall k :: 0 <= k < |picks| ==> tc[k] < base + NewCount(picks))
    && reused == (set i | 0 <= i < |tc| && picks[i].Some? :: tc[i])
    && (forall k :: 0 <= k < |picks| ==> (picks[k].None? <==> tc[k] !in reused))
  }

  /** A position that reuses an old container starts with that container's manager. */
  ghost predicate Inherits(bs0: seq<BindingManager?>, ms: seq<BindingManager>, picks: seq<Option<nat>>)
  {
    && |bs0| == |picks|
    && forall k :: 0 <= k < |picks| && picks[k].Some? ==> picks[k].value < |ms| && bs0[k] == ms[picks[k].value]
  }

  /** What the disposals rely on: the old cells and managers are pairwise
      different, and the positions left in the bin are distinct old positions. */
  ghost predicate Disposable(oldCells: seq<CellId>, ms: seq<BindingManager>, rest: seq<nat>, n: nat)
  {
    Distinct(oldCells) && Distinct(ms) && Distinct(rest) && forall m :: 0 <= m < |rest| ==> rest[m] < n
  }

  /** What the placement pass relies on: the old cells `oldCells` and managers
      `ms` are pairwise different, the bin's choices `p` fit them, the new list
      `cs` has no repetition, `tc` and `reused` are the layout for the counter
      at `base`, and reused positions start with their old managers. The
      refresh methods pass it on wrapped in `Held` (from `Sequences`), so only
      a proof that calls `Unhold` on it sees these facts unfolded. */
  ghost predicate Placeable<T>(ms: seq<BindingManager>, oldCells: seq<CellId>, cs: seq<ItemContainer<T>>,
                               p: Plan, base: nat, tc: seq<CellId>, reused: set<CellId>, bs0: seq<BindingManager?>)
  {
    && Distinct(oldCells) && Distinct(ms) && PlanFits(p, |oldCells|) && Distinct(cs)
    && LaidOut(oldCells, p.picks, base, tc, reused) && Inherits(bs0, ms, p.picks)
  }

  /** The placement pass can start from the cells `host` left after the
      disposals: they are exactly the reused cells, in their old order, and
      the layout's facts hold. */
  lemma StartPlacing<T>(ms: seq<BindingManager>, oldCells: seq<CellId>, cs: seq<ItemContainer<T>>,
                        p: Plan, base: nat, done: set<nat>, tc: seq<CellId>, reused: set<CellId>,
                        bs0: seq<BindingManager?>, host: seq<CellId>)
    requires Held(Placeable(ms, oldCells, cs, p, base, tc, reused, bs0))
    requires forall k :: k in done <==> k in p.rest
    requires host == Without(oldCells, Gone(oldCells, done)) && |p.picks| == |cs|
    ensures Placed(tc, host, 0, reused) && Distinct(tc) && Distinct(cs) && |tc| == |cs|
    ensures forall k :: 0 <= k < |cs| ==> (p.picks[k].None? <==> tc[k] !in reused)
    ensures forall k {:trigger tc[k]} :: 0 <= k < |cs| && p.picks[k].None? ==> tc[k] == base + NewBefore(p.picks, k)
    ensures forall k :: 0 <= k < |cs| ==> tc[k] < base + NewCount(p.picks)
  {
    Unhold(Placeable(ms, oldCells, cs, p, base, tc, reused, bs0));
    ReadyToPlace(oldCells, tc, p, done, reused, host);
  }

  /** After placement no two positions share a manager: reused positions keep
      their pairwise different old managers, new ones have new managers. */
  lemma ManagersApart<T>(ms: seq<BindingManager>, oldCells: seq<CellId>, cs: seq<ItemContainer<T>>,
                         p: Plan, base: nat, tc: seq<CellId>, reused: set<CellId>,
                         bs0: seq<BindingManager?>, bs: seq<BindingManager?>, owner: map<BindingManager?, nat>)
    requires Held(Placeable(ms, oldCells, cs, p, base, tc, reused, bs0))
    requires |bs| == |cs| && |p.picks| == |cs| && |bs0| == |cs|
    requires forall k :: 0 <= k < |cs| ==>
      if p.picks[k].Some? then bs[k] == bs0[k]
      else (bs[k] != null && bs[k] !in ms && bs[k] in owner && owner[bs[k]] == k)
    ensures forall k :: 0 <= k < |bs| ==> bs[k] != null
    ensures Distinct(bs)
  {
    Unhold(Placeable(ms, oldCells, cs, p, base, tc, reused, bs0));
    NewManagersDistinct(ms, p.picks, bs, owner);
  }

  /** The cells after a refresh from the cells `oldCells`, all below the counter
      `base`, for the bin's choices `picks`: `tc[k]` for position `k`, and the
      old cells that stay, `reused`. A position keeps a cell of its own; exactly
      the new positions get cells not shown before. */
  lemma Layout(oldCells: seq<CellId>, picks: seq<Option<nat>>, base: nat)
    returns (tc: seq<CellId>, reused: set<CellId>)
    requires Distinct(oldCells) && forall k :: 0 <= k < |oldCells| ==> oldCells[k] < base
    requires forall i :: 0 <= i < |picks| && picks[i].Some? ==> picks[i].value < |oldCells|
    requires forall i, i' :: 0 <= i < i' < |picks| && picks[i].Some? ==> picks[i] != picks[i']
    ensures LaidOut(oldCells, picks, base, tc, reused)
  {
    var kept := seq(|picks|, k requires 0 <= k < |picks| =>
      if picks[k].Some? then oldCells[picks[k].value] else 0);
    forall a, b | 0 <= a < b < |picks| && picks[a].Some? && picks[b].Some?
      ensures kept[a] != kept[b]
    {
      assert picks[a].value != picks[b].value;
    }
    TargetsDistinct(picks, kept, base);
    tc := Targets(picks, kept, base);
    reused := set i | 0 <= i < |tc| && picks[i].Some? :: tc[i];
    forall x | x in reused
      ensures x < base
    {
      var i :| 0 <= i < |picks| && picks[i].Some? && tc[i] == x;
    }
  }

  /** Containers taken from a list with no repetition by an injective plan, or
      made new, are pairwise different. */
  lemma FreshDistinct<T>(olds: seq<ItemContainer<T>>, picks: seq<Option<nat>>, cs: seq<ItemContainer<T>>)
    requires Distinct(olds) && |cs| == |picks|
    requires forall i, i' :: 0 <= i < i' < |picks| && picks[i].Some? ==> picks[i] != picks[i']
    requires forall i :: 0 <= i < |cs| && picks[i].Some? ==> picks[i].value < |olds| && cs[i] == olds[picks[i].value]
    requires forall i :: 0 <= i < |cs| && picks[i].None? ==> cs[i] !in olds
    requires forall i, i' :: 0 <= i < i' < |cs| && picks[i].None? && picks[i'].None? ==> cs[i] != cs[i']
    ensures Distinct(cs)
  {
    forall a, b | 0 <= a < b < |cs|
      ensures cs[a] != cs[b]
    {
      if picks[a].Some? && picks[b].Some? {
        assert picks[a].value != picks[b].value;
      }
    }
  }

  class ItemContainer<T(==)> {
    const item: T
    const binding: CollectionBinding<T>
    /** `_bindings`: null until the container is first placed. */
    var bindings: BindingManager?
    /** `_cell`: the cell `Insert` returned (`None`: null, never placed). */
    var cell: Option<CellId>

    constructor (item: T, binding: CollectionBinding<T>)
      ensures this.item == item && this.binding == binding
      ensures bindings == null && cell == None
    {
      this.item := item;
      this.binding := binding;
      bindings := null;
      cell := None;
    }

    /** `Equals`: the same container, or any container of an equal item; never null. */
    predicate Equals(obj: ItemContainer?<T>)
      ensures Equals(obj) <==> obj != null && obj.item == item
    {
      obj == this || (obj != null && obj.item == item)
    }

    /** `GetHashCode`: the item's hash, for the item type's hash function `hash`. */
    function GetHashCode(hash: T -> int): int
    {
      hash(item)
    }

    /** `Equals` and `GetHashCode` agree: equal containers hash alike, so a
        hashed lookup of a container finds every container equal to it. */
    lemma EqualsHash(obj: ItemContainer<T>, hash: T -> int)
      requires Equals(obj)
      ensures obj.GetHashCode(hash) == GetHashCode(hash)
      ensures obj.Equals(this)
    {
    }

    /** `EnsureInCollection(index)`. A container never placed first gets a new
        `BindingManager`, so that `bind` sees it, and then a new cell inserted at
        `index`, which it keeps. A placed one whose cell is at `index` changes
        nothing; one whose cell is elsewhere has that cell moved to `index`.
        A move to or past the end, which `MoveItem` rejects, is excluded. */
    method EnsureInCollection(index: nat)
      requires index <= |binding.cells|
      requires bindings != null ==> cell.Some? && cell.value in binding.cells && index < |binding.cells|
      modifies this, binding`cells, binding`nextCell, binding`binds
      ensures old(bindings) == null ==>
        && bindings != null && fresh(bindings) && bindings.subscriptions == [] && bindings.calls == []
        && cell == Some(old(binding.nextCell)) && binding.nextCell == old(binding.nextCell) + 1
        && binding.cells == InsertAt(old(binding.cells), index, old(binding.nextCell))
        && binding.binds == old(binding.binds) + [CellBind(item, bindings)]
      ensures old(bindings) != null ==>
        && bindings == old(bindings) && cell == old(cell)
        && binding.nextCell == old(binding.nextCell) && binding.binds == old(binding.binds)
      ensures old(bindings) != null && old(binding.cells[index]) == cell.value ==>
        binding.cells == old(binding.cells)
      ensures old(bindings) != null && old(binding.cells[index]) != cell.value ==>
        binding.cells == InsertAt(RemoveAt(old(binding.cells), IndexOf(old(binding.cells), cell.value)), index, cell.value)
    {
      if bindings == null {
        bindings := new BindingManager();
        var c := binding.Insert(this, index);
        cell := Some(c);
      } else {
        var current := binding.GetCell(index);
        if current != cell {
          binding.Move(this, index);
        }
      }
    }

    /** `Dispose`: nothing for a container never placed; otherwise unbind its
        bindings and delete its cell from the collection view. */
    method Dispose()
      requires bindings != null ==> cell.Some? && cell.value in binding.cells
      modifies bindings, binding`cells
      ensures bindings == old(bindings)
      ensures bindings == null ==> binding.cells == old(binding.cells)
      ensures bindings != null ==>
        && bindings.subscriptions == old(bindings.subscriptions)
        && bindings.calls == old(bindings.calls) + UnbindCalls(bindings.subscriptions)
        && binding.cells == RemoveAt(old(binding.cells), IndexOf(old(binding.cells), cell.value))
    {
      if bindings != null {
        bindings.Unbind();
        binding.Remove(this);
      }
    }
  }

  class CollectionBinding<T(==)> {
    /** The collection view's cells, in item order. */
    var cells: seq<CellId>
    /** `_itemContainers`: one container per item of the last refresh, in order. */
    var containers: seq<ItemContainer<T>>
    /** The number the next new cell gets. */
    var nextCell: CellId
    /** The calls made to the user's `bind` delegate so far. */
    ghost var binds: seq<CellBind<T>>

    /** Between refreshes the collection view shows one cell per container, in
        order, each the cell its container holds; cells are pairwise different
        and below `nextCell`; every container belongs here, is placed, and has a
        manager of its own, so no container appears twice (`ContainersDistinct`). */
    ghost predicate Valid()
      reads this, set k | 0 <= k < |containers| :: containers[k]
    {
      && |cells| == |containers|
      && Distinct(cells)
      && (forall k :: 0 <= k < |cells| ==> cells[k] < nextCell)
      && (forall k :: 0 <= k < |containers| ==>
            && containers[k].binding == this && containers[k].bindings != null
            && containers[k].cell == Some(cells[k]))
      && ManagersDistinct(containers)
    }

    /** Containers with managers of their own are pairwise different. */
    lemma ContainersDistinct()
      requires Valid()
      ensures Distinct(containers)
    {
      forall a, b | 0 <= a < b < |containers|
        ensures containers[a] != containers[b]
      {
        assert BindingsOf(containers)[a] != BindingsOf(containers)[b];
      }
    }

    constructor ()
      ensures Valid() && cells == [] && containers == [] && binds == []
    {
      cells := [];
      containers := [];
      nextCell := 0;
      binds := [];
    }

    /** `GetCell(index)`: `CellForItem`, null past the end. Every item's cell
        counts as visible, so an index inside the list always has a cell. */
    method GetCell(index: nat) returns (c: Option<CellId>)
      ensures index < |cells| ==> c == Some(cells[index])
      ensures index >= |cells| ==> c == None
    {
      c := if index < |cells| then Some(cells[index]) else None;
    }

    /** `Insert(c, index)`: calls `bind` with the container's item and manager and
        inserts the new cell showing the view it returns at `index`. */
    method Insert(c: ItemContainer<T>, index: nat) returns (cell: CellId)
      requires index <= |cells|
      modifies this`cells, this`nextCell, this`binds
      ensures cell == old(nextCell) && nextCell == old(nextCell) + 1
      ensures cells == InsertAt(old(cells), index, cell)
      ensures binds == old(binds) + [CellBind(c.item, c.bindings)]
    {
      binds := binds + [CellBind(c.item, c.bindings)];
      cell := nextCell;
      nextCell := nextCell + 1;
      cells := InsertAt(cells, index, cell);
    }

    /** `Move(c, index)`: `MoveItem` from the position of the container's cell to `index`. */
    method Move(c: ItemContainer<T>, index: nat)
      requires c.cell.Some? && c.cell.value in cells && index < |cells|
      modifies this`cells
      ensures cells == InsertAt(RemoveAt(old(cells), IndexOf(old(cells), c.cell.value)), index, c.cell.value)
    {
      var from := IndexOf(cells, c.cell.value);
      cells := InsertAt(RemoveAt(cells, from), index, c.cell.value);
    }

    /** `Remove(c)`: `DeleteItems` at the position of the container's cell. */
    method Remove(c: ItemContainer<T>)
      requires c.cell.Some? && c.cell.value in cells
      modifies this`cells
      ensures cells == RemoveAt(old(cells), IndexOf(old(cells), c.cell.value))
    {
      cells := RemoveAt(cells, IndexOf(cells, c.cell.value));
    }

    /** `Unsubscribe`: unbinds the manager of every container, in list order. */
    method Unsubscribe()
      requires Valid()
      modifies Managers(containers)
      ensures Valid()
      ensures forall k :: 0 <= k < |containers| ==>
        var b := containers[k].bindings;
        b.subscriptions == old(b.subscriptions) && b.calls == old(b.calls) + UnbindCalls(b.subscriptions)
    {
      ghost var ms := ManagerList(containers);
      UnbindEach(containers, ms);
    }

    /** The first pass of `UpdateItems`: the old containers go into a bin, and each
        new item takes out an old container holding an equal item, or else keeps
        the new container it probed with. The bin's choices are `Reconcile`'s. */
    method Recycle(olds: seq<ItemContainer<T>>, items: seq<T>)
      returns (cs: seq<ItemContainer<T>>, p: Plan)
      ensures p == Reconcile(ItemsOf(olds), items)
      ensures |cs| == |items| && |p.picks| == |items|
      ensures forall i :: 0 <= i < |items| ==> cs[i].item == items[i]
      ensures forall i :: 0 <= i < |items| && p.picks[i].Some? ==>
        p.picks[i].value < |olds| && cs[i] == olds[p.picks[i].value]
      ensures forall i :: 0 <= i < |items| && p.picks[i].None? ==>
        fresh(cs[i]) && cs[i] !in olds && cs[i].binding == this && cs[i].bindings == null && cs[i].cell == None
      ensures forall i, i' :: 0 <= i < i' < |items| && p.picks[i].None? && p.picks[i'].None? ==> cs[i] != cs[i']
      ensures forall c :: c in cs ==> c in olds || fresh(c)
    {
      p := Reconcile(ItemsOf(olds), items);
      ReconcileShape(ItemsOf(olds), items);
      cs := Gather(olds, items, p.picks);
    }

    /** The loop of the first pass, for the bin's choices `picks`: the old
        container picked for item `i`, or the new probe made for it. */
    method Gather(olds: seq<ItemContainer<T>>, items: seq<T>, picks: seq<Option<nat>>)
      returns (cs: seq<ItemContainer<T>>)
      requires |picks| == |items|
      requires forall i :: 0 <= i < |items| && picks[i].Some? ==>
        picks[i].value < |olds| && olds[picks[i].value].item == items[i]
      ensures |cs| == |items|
      ensures forall i :: 0 <= i < |items| ==> cs[i].item == items[i]
      ensures forall i :: 0 <= i < |items| && picks[i].Some? ==> cs[i] == olds[picks[i].value]
      ensures forall i :: 0 <= i < |items| && picks[i].None? ==>
        fresh(cs[i]) && cs[i] !in olds && cs[i].binding == this && cs[i].bindings == null && cs[i].cell == None
      ensures forall i, i' :: 0 <= i < i' < |items| && picks[i].None? && picks[i'].None? ==> cs[i] != cs[i']
    {
      cs := [];
      for i := 0 to |items|
        invariant |cs| == i
        invariant forall k :: 0 <= k < i ==> cs[k].item == items[k]
        invariant forall k :: 0 <= k < i && picks[k].Some? ==> cs[k] == olds[picks[k].value]
        invariant forall k :: 0 <= k < i && picks[k].None? ==>
          fresh(cs[k]) && cs[k] !in olds && cs[k].binding == this && cs[k].bindings == null && cs[k].cell == None
        invariant forall k, k' :: 0 <= k < k' < i && picks[k].None? && picks[k'].None? ==> cs[k] != cs[k']
      {
        var probe := new ItemContainer(items[i], this);
        var c := if picks[i].Some? then olds[picks[i].value] else probe;
        cs := cs + [c];
      }
    }

    /** `UpdateItems(items)`: recycle, dispose what the bin keeps, then place.
        Item `i` reuses the old container `Reconcile` picks for it, with its
        manager and its cell, or gets a new container, a new empty manager and
        a new cell, numbered in list order; exactly the old containers left in
        the bin are unbound. */
    method UpdateItems(items: seq<T>)
      requires Valid()
      modifies this`cells, this`containers, this`nextCell, this`binds, containers, Managers(containers)
      ensures Valid()
      ensures ItemsOf(containers) == items
      ensures var p := Reconcile(ItemsOf(old(containers)), items);
        nextCell == old(nextCell) + NewCount(p.picks)
      ensures var p := Reconcile(ItemsOf(old(containers)), items);
        binds == old(binds) + NewBinds(items, BindingsOf(containers), p.picks, |items|)
      ensures var p := Reconcile(ItemsOf(old(containers)), items);
        forall i :: 0 <= i < |items| && p.picks[i].Some? ==>
          var c := containers[i];
          && p.picks[i].value < |old(containers)| && c == old(containers[p.picks[i].value])
          && c.bindings == old(c.bindings) && c.cell == old(c.cell)
      ensures var p := Reconcile(ItemsOf(old(containers)), items);
        forall i {:trigger containers[i]} :: 0 <= i < |items| && p.picks[i].None? ==>
          && fresh(containers[i]) && containers[i].cell.Some? && containers[i].cell.value == old(nextCell) + NewBefore(p.picks, i)
          && fresh(containers[i].bindings)
          && containers[i].bindings.subscriptions == [] && containers[i].bindings.calls == []
      ensures var p := Reconcile(ItemsOf(old(containers)), items);
        forall j :: 0 <= j < |old(containers)| ==>
          var b := old(containers[j].bindings);
          && b != null
          && b.subscriptions == old(b.subscriptions)
          && b.calls == old(b.calls) + if j in p.rest then UnbindCalls(b.subscriptions) else []
      ensures var p := Reconcile(ItemsOf(old(containers)), items);
        forall j :: 0 <= j < |old(containers)| && j in p.rest ==>
          var c := old(containers[j]);
          && c !in containers && c.bindings == old(c.bindings) && c.cell == old(c.cell)
    {
      var olds := containers;
      var cs, p := Recycle(olds, items);
      Arrange(olds, items, cs, p);
      DroppedAfterRecycle(olds, items, cs, p);
    }

    /** The containers the bin keeps are in no position of the recycled list. */
    lemma DroppedAfterRecycle(olds: seq<ItemContainer<T>>, items: seq<T>, cs: seq<ItemContainer<T>>, p: Plan)
      requires Distinct(olds) && p == Reconcile(ItemsOf(olds), items) && |cs| == |p.picks|
      requires forall i :: 0 <= i < |cs| && p.picks[i].Some? ==>
        p.picks[i].value < |olds| && cs[i] == olds[p.picks[i].value]
      requires forall i :: 0 <= i < |cs| && p.picks[i].None? ==> cs[i] !in olds
      ensures forall j :: 0 <= j < |olds| && j in p.rest ==> olds[j] !in cs
    {
      ReconcileRest(ItemsOf(olds), items);
      LeftoversDropped(olds, cs, p);
    }

    /** The old containers `olds` belong here, hold the managers `ms` and show
        the cells `oldCells`. */
    ghost predicate Holding(olds: seq<ItemContainer<T>>, ms: seq<BindingManager>, oldCells: seq<CellId>)
      reads olds
    {
      && |ms| == |olds| && |oldCells| == |olds|
      && forall k :: 0 <= k < |olds| ==>
        olds[k].binding == this && olds[k].bindings == ms[k] && olds[k].cell == Some(oldCells[k])
    }

    /** The containers `cs` before placement: they belong here, `cs[k]` holds
        the manager `bs0[k]`, which is null exactly for a new container, and a
        reused container holds the cell `tc[k]`. */
    ghost predicate Starting(cs: seq<ItemContainer<T>>, picks: seq<Option<nat>>, tc: seq<CellId>,
                             bs0: seq<BindingManager?>)
      reads cs
    {
      && |picks| == |cs| && |tc| == |cs| && |bs0| == |cs|
      && (forall k :: 0 <= k < |cs| ==>
            cs[k].binding == this && cs[k].bindings == bs0[k] && (bs0[k] == null <==> picks[k].None?))
      && (forall k :: 0 <= k < |cs| && picks[k].Some? ==> cs[k].cell == Some(tc[k]))
    }

    /** The containers `cs` after placement: the view shows the cells `tc`,
        pairwise different and below the counter, and `cs[k]` holds the cell
        `tc[k]` and the manager `bs[k]`, the managers being pairwise different. */
    ghost predicate Settled(cs: seq<ItemContainer<T>>, tc: seq<CellId>, bs: seq<BindingManager?>)
      reads this, cs
    {
      && cells == tc && Distinct(tc) && |tc| == |cs| && |bs| == |cs|
      && (forall k :: 0 <= k < |cs| ==> tc[k] < nextCell)
      && (forall k :: 0 <= k < |cs| ==>
            && cs[k].binding == this && cs[k].bindings == bs[k] && bs[k] != null
            && cs[k].cell == Some(tc[k]))
      && Distinct(bs)
    }

    /** What `Valid` says about the old list `olds` that the refresh relies on:
        the managers `ms` it holds, pairwise different, and the cells it shows,
        pairwise different and below the counter. */
    lemma Survey(olds: seq<ItemContainer<T>>) returns (ms: seq<BindingManager>)
      requires Valid() && containers == olds
      ensures Holding(olds, ms, cells) && Distinct(cells) && Distinct(ms) && Distinct(olds)
      ensures forall k :: 0 <= k < |cells| ==> cells[k] < nextCell
      ensures forall m :: m in ms ==> m in Managers(olds)
    {
      ms := ManagerList(olds);
      ContainersDistinct();
    }

    /** What the bin's choices give `Arrange` to start from, for the old list
        `olds` holding the managers `ms`: the cell `tc[k]` each position ends up
        with, the reused cells, and the manager each position starts with
        (`null` for a new container). */
    lemma Prepare(olds: seq<ItemContainer<T>>, items: seq<T>, cs: seq<ItemContainer<T>>, p: Plan,
                  ms: seq<BindingManager>)
      returns (tc: seq<CellId>, reused: set<CellId>, bs0: seq<BindingManager?>)
      requires Holding(olds, ms, cells) && Distinct(cells) && Distinct(ms) && Distinct(olds)
      requires forall k :: 0 <= k < |cells| ==> cells[k] < nextCell
      requires p == Reconcile(ItemsOf(olds), items)
      requires |cs| == |items| && |p.picks| == |items|
      requires forall i :: 0 <= i < |items| ==> cs[i].item == items[i]
      requires forall i :: 0 <= i < |items| && p.picks[i].Some? ==>
        p.picks[i].value < |olds| && cs[i] == olds[p.picks[i].value]
      requires forall i :: 0 <= i < |items| && p.picks[i].None? ==>
        cs[i] !in olds && cs[i].binding == this && cs[i].bindings == null
      requires forall i, i' :: 0 <= i < i' < |items| && p.picks[i].None? && p.picks[i'].None? ==> cs[i] != cs[i']
      ensures Held(Disposable(cells, ms, p.rest, |olds|))
      ensures Held(Placeable(ms, cells, cs, p, nextCell, tc, reused, bs0))
      ensures Starting(cs, p.picks, tc, bs0)
    {
      ReconcileRest(ItemsOf(olds), items);
      assert PlanFits(p, |olds|);
      FreshDistinct(olds, p.picks, cs);
      tc, reused := Layout(cells, p.picks, nextCell);
      bs0 := BindingsOf(cs);
      Starts(olds, ms, cs, p.picks, tc, bs0);
    }

    /** The containers of the new list start out with the managers `bs0`:
        those of the old containers they reuse, or none. */
    lemma Starts(olds: seq<ItemContainer<T>>, ms: seq<BindingManager>, cs: seq<ItemContainer<T>>,
                 picks: seq<Option<nat>>, tc: seq<CellId>, bs0: seq<BindingManager?>)
      requires Holding(olds, ms, cells)
      requires |picks| == |cs| && |tc| == |cs| && bs0 == BindingsOf(cs)
      requires forall i :: 0 <= i < |cs| && picks[i].Some? ==>
        picks[i].value < |olds| && cs[i] == olds[picks[i].value] && tc[i] == cells[picks[i].value]
      requires forall i :: 0 <= i < |cs| && picks[i].None? ==> cs[i].binding == this && cs[i].bindings == null
      ensures Starting(cs, picks, tc, bs0) && Inherits(bs0, ms, picks)
    {
    }

    /** Once the binding takes the placed containers as its list, `Valid` holds
        again: they have managers of their own. */
    lemma Sealed(cs: seq<ItemContainer<T>>, tc: seq<CellId>, bs: seq<BindingManager?>)
      requires containers == cs && Held(Settled(cs, tc, bs))
      ensures Valid() && BindingsOf(cs) == bs
    {
      Unhold(Settled(cs, tc, bs));
      assert BindingsOf(containers) == bs;
    }

    /** The cell-side work of `UpdateItems` once the bin has made its choices
        `p` and `cs` holds a container per item: dispose the containers left in
        the bin, place `cs`, and take it as the new list. */
    method Arrange(olds: seq<ItemContainer<T>>, items: seq<T>, cs: seq<ItemContainer<T>>, p: Plan)
      requires Valid() && containers == olds
      requires p == Reconcile(ItemsOf(olds), items)
      requires |cs| == |items| && |p.picks| == |items|
      requires forall i :: 0 <= i < |items| ==> cs[i].item == items[i]
      requires forall i :: 0 <= i < |items| && p.picks[i].Some? ==>
        p.picks[i].value < |olds| && cs[i] == olds[p.picks[i].value]
      requires forall i :: 0 <= i < |items| && p.picks[i].None? ==>
        cs[i] !in olds && cs[i].binding == this && cs[i].bindings == null
      requires forall i, i' :: 0 <= i < i' < |items| && p.picks[i].None? && p.picks[i'].None? ==> cs[i] != cs[i']
      modifies this`cells, this`containers, this`nextCell, this`binds, Managers(olds), cs
      ensures Valid() && containers == cs
      ensures nextCell == old(nextCell) + NewCount(p.picks)
      ensures binds == old(binds) + NewBinds(items, BindingsOf(cs), p.picks, |items|)
      ensures forall i :: 0 <= i < |cs| && p.picks[i].Some? ==>
        cs[i].bindings == old(cs[i].bindings) && cs[i].cell == old(cs[i].cell)
      ensures forall i {:trigger cs[i]} :: 0 <= i < |cs| && p.picks[i].None? ==>
        && cs[i].cell.Some? && cs[i].cell.value == old(nextCell) + NewBefore(p.picks, i)
        && fresh(cs[i].bindings) && cs[i].bindings.subscriptions == [] && cs[i].bindings.calls == []
      ensures forall j :: 0 <= j < |olds| ==>
        var b := old(olds[j].bindings);
        && b != null
        && b.subscriptions == old(b.subscriptions)
        && b.calls == old(b.calls) + if j in p.rest then UnbindCalls(b.subscriptions) else []
      ensures forall j :: 0 <= j < |olds| && olds[j] !in cs ==>
        olds[j].bindings == old(olds[j].bindings) && olds[j].cell == old(olds[j].cell)
    {
      assert ItemsOf(cs) == items by {}
      ghost var ms := Survey(olds);
      ghost var tc, reused, bs0 := Prepare(olds, items, cs, p, ms);
      Settle(olds, cs, p, ms, tc, reused, bs0);
    }

    /** The two cell-side passes of `UpdateItems`, once `Prepare` has laid out
        the cells: dispose the containers left in the bin, then place `cs`. */
    method Settle(olds: seq<ItemContainer<T>>, cs: seq<ItemContainer<T>>, p: Plan, ghost ms: seq<BindingManager>,
                  ghost tc: seq<CellId>, ghost reused: set<CellId>, ghost bs0: seq<BindingManager?>)
      requires Holding(olds, ms, cells) && forall m :: m in ms ==> m in Managers(olds)
      requires Held(Disposable(cells, ms, p.rest, |olds|))
      requires Held(Placeable(ms, cells, cs, p, nextCell, tc, reused, bs0))
      requires Starting(cs, p.picks, tc, bs0)
      modifies this`cells, this`containers, this`nextCell, this`binds, Managers(olds), cs
      ensures Valid() && containers == cs
      ensures nextCell == old(nextCell) + NewCount(p.picks)
      ensures binds == old(binds) + NewBinds(ItemsOf(cs), BindingsOf(cs), p.picks, |cs|)
      ensures forall i :: 0 <= i < |cs| && p.picks[i].Some? ==>
        cs[i].bindings == old(cs[i].bindings) && cs[i].cell == old(cs[i].cell)
      ensures forall i {:trigger cs[i]} :: 0 <= i < |cs| && p.picks[i].None? ==>
        && cs[i].cell.Some? && cs[i].cell.value == old(nextCell) + NewBefore(p.picks, i)
        && fresh(cs[i].bindings) && cs[i].bindings.subscriptions == [] && cs[i].bindings.calls == []
      ensures forall j :: 0 <= j < |olds| ==>
        var b := old(olds[j].bindings);
        && b != null
        && b.subscriptions == old(b.subscriptions)
        && b.calls == old(b.calls) + if j in p.rest then UnbindCalls(b.subscriptions) else []
      ensures forall j :: 0 <= j < |olds| && olds[j] !in cs ==>
        olds[j].bindings == old(olds[j].bindings) && olds[j].cell == old(olds[j].cell)
    {
      ghost var oldCells, base := cells, nextCell;
      ghost var done := DisposeRest(olds, ms, oldCells, p.rest, cs);
      Finish(ms, oldCells, cs, p, base, done, tc, reused, bs0, olds);
    }

    /** The placement half of `UpdateItems`: take `cs` as the new list and place it. */
    method Finish(ghost ms: seq<BindingManager>, ghost oldCells: seq<CellId>,
                  cs: seq<ItemContainer<T>>, p: Plan, ghost base: nat, ghost done: set<nat>,
                  ghost tc: seq<CellId>, ghost reused: set<CellId>, ghost bs0: seq<BindingManager?>,
                  ghost olds: seq<ItemContainer<T>>)
      requires Held(Placeable(ms, oldCells, cs, p, base, tc, reused, bs0)) && nextCell == base
      requires forall k :: k in done <==> k in p.rest
      requires cells == Without(oldCells, Gone(oldCells, done))
      requires Starting(cs, p.picks, tc, bs0)
      modifies this`cells, this`containers, this`nextCell, this`binds, cs
      ensures Valid() && containers == cs
      ensures nextCell == old(nextCell) + NewCount(p.picks)
      ensures binds == old(binds) + NewBinds(ItemsOf(cs), BindingsOf(cs), p.picks, |cs|)
      ensures forall i :: 0 <= i < |cs| && p.picks[i].Some? ==>
        cs[i].bindings == old(cs[i].bindings) && cs[i].cell == old(cs[i].cell)
      ensures forall i {:trigger cs[i]} :: 0 <= i < |cs| && p.picks[i].None? ==>
        && cs[i].cell.Some? && cs[i].cell.value == old(nextCell) + NewBefore(p.picks, i)
        && fresh(cs[i].bindings) && cs[i].bindings.subscriptions == [] && cs[i].bindings.calls == []
      ensures unchanged(ms)
      ensures forall j :: 0 <= j < |olds| && olds[j] !in cs ==> unchanged(olds[j])
    {
      containers := cs;
      ghost var bs := PlaceCells(ms, oldCells, cs, p, base, done, tc, reused, bs0);
      Sealed(cs, tc, bs);
    }

    /** The placement half of `UpdateItems`, once the old containers left in
        the bin (the positions `done`) have deleted their cells. */
    method PlaceCells(ghost ms: seq<BindingManager>, ghost oldCells: seq<CellId>,
                      cs: seq<ItemContainer<T>>, p: Plan, ghost base: nat, ghost done: set<nat>,
                      ghost tc: seq<CellId>, ghost reused: set<CellId>, ghost bs0: seq<BindingManager?>)
      returns (ghost bs: seq<BindingManager?>)
      requires Held(Placeable(ms, oldCells, cs, p, base, tc, reused, bs0)) && nextCell == base
      requires forall k :: k in done <==> k in p.rest
      requires cells == Without(oldCells, Gone(oldCells, done))
      requires Starting(cs, p.picks, tc, bs0)
      modifies this`cells, this`nextCell, this`binds, cs
      ensures Held(Settled(cs, tc, bs))
      ensures nextCell == old(nextCell) + NewCount(p.picks)
      ensures |bs| == |cs| && binds == old(binds) + NewBinds(ItemsOf(cs), bs, p.picks, |cs|)
      ensures forall i :: 0 <= i < |cs| && p.picks[i].Some? ==>
        cs[i].bindings == old(cs[i].bindings) && cs[i].cell == old(cs[i].cell)
      ensures forall i {:trigger cs[i]} :: 0 <= i < |cs| && p.picks[i].None? ==>
        && cs[i].cell.Some? && cs[i].cell.value == old(nextCell) + NewBefore(p.picks, i)
        && fresh(cs[i].bindings) && cs[i].bindings.subscriptions == [] && cs[i].bindings.calls == []
      ensures unchanged(ms)
    {
      StartPlacing(ms, oldCells, cs, p, base, done, tc, reused, bs0, cells);
      ghost var owner;
      bs, owner := Place(cs, tc, reused, p.picks, bs0, ms);
      ManagersApart(ms, oldCells, cs, p, base, tc, reused, bs0, bs, owner);
    }

    /** The end of `UpdateItems`' `using` block: the bin disposes the old containers
        left in it, `rest`, in that order. Each is unbound and deletes its own
        cell, so the collection view keeps the other old cells in their order. */
    method DisposeRest(olds: seq<ItemContainer<T>>, ghost ms: seq<BindingManager>, ghost oldCells: seq<CellId>,
                       rest: seq<nat>, ghost cs: seq<ItemContainer<T>>)
      returns (ghost done: set<nat>)
      requires cells == oldCells && Holding(olds, ms, oldCells) && Held(Disposable(oldCells, ms, rest, |olds|))
      modifies this`cells, ms
      ensures unchanged(cs) && unchanged(olds) && nextCell == old(nextCell)
      ensures forall k :: k in done <==> k in rest
      ensures cells == Without(oldCells, Gone(oldCells, done))
      ensures forall j :: 0 <= j < |olds| ==>
        var b := old(olds[j].bindings);
        && b != null
        && b.subscriptions == old(b.subscriptions)
        && b.calls == old(b.calls) + if j in rest then UnbindCalls(b.subscriptions) else []
    {
      Unhold(Disposable(oldCells, ms, rest, |olds|));
      done := {};
      ghost var gone: set<CellId> := {};
      WithoutNothing(oldCells);
      assert Gone(oldCells, done) == {};
      for m := 0 to |rest|
        invariant done == set m' | 0 <= m' < m :: rest[m']
        invariant gone == Gone(oldCells, done)
        invariant cells == Without(oldCells, gone)
        invariant forall k :: 0 <= k < |ms| ==> ms[k].subscriptions == old(ms[k].subscriptions)
        invariant forall k :: 0 <= k < |ms| ==>
          ms[k].calls == old(ms[k].calls) + if k in done then UnbindCalls(ms[k].subscriptions) else []
      {
        assert rest[m] !in done;
        GoneStep(oldCells, done, rest[m]);
        DisposeOne(olds, ms, oldCells, gone, rest[m]);
        done := done + {rest[m]};
        gone := gone + {oldCells[rest[m]]};
      }
    }

    /** One disposal of `DisposeRest`: the container at position `j`, whose
        manager is `ms[j]` and whose cell is `oldCells[j]`, with the cells `gone`
        already deleted. */
    method DisposeOne(olds: seq<ItemContainer<T>>, ghost ms: seq<BindingManager>, ghost oldCells: seq<CellId>,
                      ghost gone: set<CellId>, j: nat)
      requires cells == Without(oldCells, gone) && Distinct(oldCells)
      requires j < |olds| && j < |oldCells| && oldCells[j] !in gone
      requires olds[j].binding == this && olds[j].cell == Some(oldCells[j])
      requires j < |ms| && olds[j].bindings == ms[j]
      modifies this`cells, ms[j]
      ensures cells == Without(oldCells, gone + {oldCells[j]})
      ensures ms[j].subscriptions == old(ms[j].subscriptions)
      ensures ms[j].calls == old(ms[j].calls) + UnbindCalls(ms[j].subscriptions)
    {
      WithoutOneMore(oldCells, gone, oldCells[j]);
      olds[j].Dispose();
    }

    /** The second loop of `UpdateItems`: every container of the new list, in
        order, is put at its index. `tc` are the cells the positions end up
        with; `reused` the cells already shown before the loop, whose
        containers are those the bin's choices `picks` reuse. */
    method Place(cs: seq<ItemContainer<T>>, ghost tc: seq<CellId>, ghost reused: set<CellId>,
                 ghost picks: seq<Option<nat>>, ghost bs0: seq<BindingManager?>,
                 ghost ms: seq<BindingManager>)
      returns (ghost bs: seq<BindingManager?>, ghost owner: map<BindingManager?, nat>)
      requires Placed(tc, cells, 0, reused) && Distinct(tc) && Distinct(cs)
      requires |tc| == |cs| && |picks| == |cs| && |bs0| == |cs|
      requires forall k :: 0 <= k < |cs| ==> cs[k].binding == this
      requires forall k :: 0 <= k < |cs| ==> (picks[k].None? <==> tc[k] !in reused)
      requires forall k :: 0 <= k < |cs| ==> cs[k].bindings == bs0[k] && (bs0[k] == null <==> picks[k].None?)
      requires forall k :: 0 <= k < |cs| && picks[k].Some? ==> cs[k].cell == Some(tc[k])
      requires forall k {:trigger tc[k]} :: 0 <= k < |cs| && picks[k].None? ==> tc[k] == nextCell + NewBefore(picks, k)
      modifies this`cells, this`nextCell, this`binds, cs
      ensures cells == tc && |bs| == |cs|
      ensures nextCell == old(nextCell) + NewBefore(picks, |cs|)
      ensures binds == old(binds) + NewBinds(ItemsOf(cs), bs, picks, |cs|)
      ensures forall k :: 0 <= k < |cs| ==> cs[k].bindings == bs[k] && cs[k].cell == Some(tc[k])
      ensures forall k :: 0 <= k < |cs| ==>
        if picks[k].Some? then bs[k] == bs0[k]
        else (bs[k] != null && fresh(bs[k]) && bs[k].subscriptions == [] && bs[k].calls == []
              && bs[k] !in ms && bs[k] in owner && owner[bs[k]] == k)
    {
      bs := bs0;
      owner := map[];
      ghost var cv := seq(|cs|, k requires 0 <= k < |cs| reads cs => cs[k].cell);
      ghost var base := nextCell;
      ghost var items := ItemsOf(cs);
      for i := 0 to |cs|
        invariant Placed(tc, cells, i, reused)
        invariant nextCell == base + NewBefore(picks, i)
        invariant |bs| == |cs| && |cv| == |cs|
        invariant binds == old(binds) + NewBinds(items, bs, picks, i)
        invariant forall k :: 0 <= k < |cs| ==> cs[k].bindings == bs[k] && cs[k].cell == cv[k]
        invariant forall k :: 0 <= k < |cs| && (k < i || picks[k].Some?) ==> cv[k] == Some(tc[k])
        invariant forall k :: 0 <= k < |cs| && (i <= k || picks[k].Some?) ==> bs[k] == bs0[k]
        invariant forall k :: 0 <= k < i && picks[k].None? ==>
          bs[k] != null && bs[k].subscriptions == [] && bs[k].calls == [] && bs[k] !in ms
          && bs[k] in owner && owner[bs[k]] == k
        invariant forall k :: 0 <= k < i && picks[k].None? ==> fresh(bs[k])
      {
        bs, cv, owner := PlaceStep(cs, tc, reused, picks, bs0, ms, base, i, bs, cv, owner, old(binds));
      }
      PlacedDone(tc, cells, reused);
    }

    /** One turn of `Place`'s loop, from the state after `i` turns to the next. */
    method PlaceStep(cs: seq<ItemContainer<T>>, ghost tc: seq<CellId>, ghost reused: set<CellId>,
                     ghost picks: seq<Option<nat>>, ghost bs0: seq<BindingManager?>,
                     ghost ms: seq<BindingManager>, ghost base: nat, i: nat,
                     ghost bs: seq<BindingManager?>, ghost cv: seq<Option<CellId>>,
                     ghost owner: map<BindingManager?, nat>, ghost b0: seq<CellBind<T>>)
      returns (ghost bs': seq<BindingManager?>, ghost cv': seq<Option<CellId>>,
               ghost owner': map<BindingManager?, nat>)
      requires Distinct(tc) && Distinct(cs) && i < |cs|
      requires |tc| == |cs| && |picks| == |cs| && |bs0| == |cs|
      requires forall k :: 0 <= k < |cs| ==> cs[k].binding == this
      requires forall k :: 0 <= k < |cs| ==> (picks[k].None? <==> tc[k] !in reused)
      requires forall k :: 0 <= k < |cs| ==> (bs0[k] == null <==> picks[k].None?)
      requires forall k {:trigger tc[k]} :: 0 <= k < |cs| && picks[k].None? ==> tc[k] == base + NewBefore(picks, k)
      requires Placed(tc, cells, i, reused)
      requires nextCell == base + NewBefore(picks, i)
      requires |bs| == |cs| && |cv| == |cs|
      requires forall k :: 0 <= k < |cs| ==> cs[k].bindings == bs[k] && cs[k].cell == cv[k]
      requires forall k :: 0 <= k < |cs| && (k < i || picks[k].Some?) ==> cv[k] == Some(tc[k])
      requires forall k :: 0 <= k < |cs| && (i <= k || picks[k].Some?) ==> bs[k] == bs0[k]
      requires forall k :: 0 <= k < i && picks[k].None? ==>
        bs[k] != null && bs[k].subscriptions == [] && bs[k].calls == [] && bs[k] !in ms
        && bs[k] in owner && owner[bs[k]] == k
      requires binds == b0 + NewBinds(ItemsOf(cs), bs, picks, i)
      modifies this`cells, this`nextCell, this`binds, cs[i]
      ensures Placed(tc, cells, i + 1, reused)
      ensures nextCell == base + NewBefore(picks, i + 1)
      ensures |bs'| == |cs| && |cv'| == |cs|
      ensures binds == b0 + NewBinds(ItemsOf(cs), bs', picks, i + 1)
      ensures forall k :: 0 <= k < |cs| ==> cs[k].bindings == bs'[k] && cs[k].cell == cv'[k]
      ensures forall k :: 0 <= k < |cs| && (k < i + 1 || picks[k].Some?) ==> cv'[k] == Some(tc[k])
      ensures forall k :: 0 <= k < |cs| && (i + 1 <= k || picks[k].Some?) ==> bs'[k] == bs0[k]
      ensures forall k :: 0 <= k < i + 1 && picks[k].None? ==>
        bs'[k] != null && bs'[k].subscriptions == [] && bs'[k].calls == [] && bs'[k] !in ms
        && bs'[k] in owner' && owner'[bs'[k]] == k
      ensures forall k :: 0 <= k < |cs| && k != i ==> bs'[k] == bs[k]
      ensures picks[i].None? ==> fresh(bs'[i])
    {
      bs', cv' := PlaceOne(cs, tc, reused, i, ms, bs, cv);
      owner' := if picks[i].None? then owner[bs'[i] := i] else owner;
      NewBindsPrefix(ItemsOf(cs), bs, bs', picks, i);
    }

    /** One step of `Place`: `EnsureInCollection(i)` on the `i`-th container. */
    method PlaceOne(cs: seq<ItemContainer<T>>, ghost tc: seq<CellId>, ghost reused: set<CellId>, i: nat,
                    ghost ms: seq<BindingManager>, ghost bs: seq<BindingManager?>, ghost cv: seq<Option<CellId>>)
      returns (ghost bs': seq<BindingManager?>, ghost cv': seq<Option<CellId>>)
      requires Placed(tc, cells, i, reused) && Distinct(tc) && Distinct(cs)
      requires |bs| == |cs| && |cv| == |cs|
      requires forall k :: 0 <= k < |cs| ==> cs[k].bindings == bs[k] && cs[k].cell == cv[k]
      requires i < |cs| && |tc| == |cs| && cs[i].binding == this
      requires cs[i].bindings == null <==> tc[i] !in reused
      requires cs[i].bindings != null ==> cs[i].cell == Some(tc[i])
      requires cs[i].bindings == null ==> tc[i] == nextCell
      modifies this`cells, this`nextCell, this`binds, cs[i]
      ensures Placed(tc, cells, i + 1, reused)
      ensures bs' == bs[i := cs[i].bindings] && cv' == cv[i := Some(tc[i])]
      ensures forall k :: 0 <= k < |cs| ==> cs[k].bindings == bs'[k] && cs[k].cell == cv'[k]
      ensures cs[i].cell == Some(tc[i])
      ensures old(cs[i].bindings) != null ==>
        cs[i].bindings == old(cs[i].bindings) && nextCell == old(nextCell) && binds == old(binds)
      ensures old(cs[i].bindings) == null ==>
        && cs[i].bindings != null && fresh(cs[i].bindings)
        && cs[i].bindings.subscriptions == [] && cs[i].bindings.calls == [] && cs[i].bindings !in ms
        && nextCell == old(nextCell) + 1 && binds == old(binds) + [CellBind(cs[i].item, cs[i].bindings)]
    {
      var c := cs[i];
      ghost var h := cells;
      if c.bindings == null {
        PlaceFresh(tc, h, i, reused);
      } else {
        PlacedReusedPresent(tc, h, i, reused);
        if h[i] != tc[i] {
          PlaceMove(tc, h, i, reused, IndexOf(h, tc[i]));
        } else {
          PlaceKept(tc, h, i, reused);
        }
      }
      c.EnsureInCollection(i);
      bs' := bs[i := c.bindings];
      cv' := cv[i := c.cell];
    }
  }
}
